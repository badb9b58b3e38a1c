/** Verification with free terms for keys and signatures: two different computations never give the same MAC. */
module Symbolic {
  import opened Prelude
  import opened Crypto
  import opened Caveats
  import opened Macaroons
  import opened Verification
  import opened DischargeTrees
  import opened VerdictTheorems

  datatype Term =
    | Zero
    | Secret(n: nat)
    | Mac(key: Term, text: Text)

  /** What a MAC is taken of: a signature, two MACs joined, or other bytes. */
  datatype Text = Data(b: Bytes) | Signature(t: Term) | Joined(first: Term, second: Term)

  /** A MAC of two texts: each has its own MAC under the key, and the MAC of the two joined is taken. */
  function TwoTexts(key: Term, text1: Text, text2: Text): Term {
    Mac(key, Joined(Mac(key, text1), Mac(key, text2)))
  }

  const JOINED_SIZE: nat := 64

  /**
   Which texts byte strings are. Any of them may be a signature or, if it has the length, two MACs joined: the
   identifiers and predicates of macaroons are arbitrary bytes.
   */
  ghost predicate Reading(read: Bytes -> Text) {
    && (forall a, b :: read(a) == read(b) ==> a == b)
    && (forall a :: read(a).Joined? ==> |a| == JOINED_SIZE)
  }

  function Free(read: Bytes -> Text, encrypt: (Term, Term, Nonce) -> Bytes, decrypt: (Term, Bytes) -> Option<Term>)
    : Crypto<Term>
  {
    Crypto(
      (key: Term, b: Bytes) => Mac(key, read(b)),
      (key: Term, b1: Bytes, b2: Bytes) => TwoTexts(key, read(b1), read(b2)),
      (root: Term, sig: Term) => TwoTexts(Zero, Signature(root), Signature(sig)),
      encrypt,
      decrypt)
  }

  ghost predicate IsFree(read: Bytes -> Text, c: Crypto<Term>) {
    Reading(read) && c == Free(read, c.encrypt, c.decrypt)
  }

  // ----------------------------------------------- what a chain says

  function KeyDepth(t: Term): nat {
    match t
    case Zero => 0
    case Secret(_) => 0
    case Mac(key, _) => 1 + KeyDepth(key)
  }

  lemma SignedUnder(read: Bytes -> Text, c: Crypto<Term>, caveat: Caveat, sig: Term)
    requires IsFree(read, c)
    ensures Sign(c, caveat, sig).Mac? && Sign(c, caveat, sig).key == sig
  {
  }

  lemma {:induction false} ChainDepth(read: Bytes -> Text, c: Crypto<Term>, key: Term, identifier: Bytes,
                                      cs: seq<Caveat>)
    requires IsFree(read, c)
    ensures KeyDepth(Chain(c, key, identifier, cs)) == KeyDepth(key) + 1 + |cs|
  {
    if cs != [] {
      var n := |cs| - 1;
      SignedUnder(read, c, cs[n], Chain(c, key, identifier, cs[..n]));
      ChainDepth(read, c, key, identifier, cs[..n]);
    }
  }

  /** The predicate is the two MACs that the signature of a third-party caveat is made of. */
  ghost predicate HoldsMacs(read: Bytes -> Text, sig: Term, first: Caveat, third: Caveat) {
    && first.FirstParty? && third.ThirdParty?
    && read(first.pred) == Joined(Mac(sig, read(third.verifierId)), Mac(sig, read(third.id)))
  }

  /** The same caveat up to the location, or the one case in which two kinds of caveat are signed alike. */
  ghost predicate Alike(read: Bytes -> Text, sig: Term, a: Caveat, b: Caveat) {
    Signed(a) == Signed(b) || HoldsMacs(read, sig, a, b) || HoldsMacs(read, sig, b, a)
  }

  lemma SignAlike(read: Bytes -> Text, c: Crypto<Term>, sig1: Term, a: Caveat, sig2: Term, b: Caveat)
    requires IsFree(read, c)
    ensures Sign(c, a, sig1) == Sign(c, b, sig2) <==> sig1 == sig2 && Alike(read, sig1, a, b)
  {
  }

  ghost predicate AlikeAt(read: Bytes -> Text, c: Crypto<Term>, key: Term, identifier: Bytes,
                          a: seq<Caveat>, b: seq<Caveat>, i: nat)
    requires i < |a| && i < |b|
  {
    Alike(read, Chain(c, key, identifier, a[..i]), a[i], b[i])
  }

  ghost predicate AllAlike(read: Bytes -> Text, c: Crypto<Term>, key: Term, identifier: Bytes, a: seq<Caveat>,
                           b: seq<Caveat>) {
    |a| == |b| && forall i :: 0 <= i < |a| ==> AlikeAt(read, c, key, identifier, a, b, i)
  }

  lemma AlikeAtInit(read: Bytes -> Text, c: Crypto<Term>, key: Term, identifier: Bytes,
                    a: seq<Caveat>, b: seq<Caveat>, i: nat)
    requires |a| == |b| && i < |a| - 1
    ensures var n := |a| - 1;
            AlikeAt(read, c, key, identifier, a[..n], b[..n], i) <==> AlikeAt(read, c, key, identifier, a, b, i)
  {
    assert a[..|a| - 1][..i] == a[..i];
  }

  lemma AllAlikeInit(read: Bytes -> Text, c: Crypto<Term>, key: Term, identifier: Bytes, a: seq<Caveat>, b: seq<Caveat>)
    requires |a| == |b| > 0
    ensures var n := |a| - 1;
            AllAlike(read, c, key, identifier, a, b) <==>
              AllAlike(read, c, key, identifier, a[..n], b[..n]) && AlikeAt(read, c, key, identifier, a, b, n)
  {
    var n := |a| - 1;
    forall i: nat | i < n
      ensures AlikeAt(read, c, key, identifier, a[..n], b[..n], i) <==> AlikeAt(read, c, key, identifier, a, b, i)
    {
      AlikeAtInit(read, c, key, identifier, a, b, i);
    }
    if AllAlike(read, c, key, identifier, a[..n], b[..n]) && AlikeAt(read, c, key, identifier, a, b, n) {
      forall i: nat | i < |a|
        ensures AlikeAt(read, c, key, identifier, a, b, i)
      {
        assert i < n ==> AlikeAt(read, c, key, identifier, a[..n], b[..n], i);
      }
    }
  }

  /**
   Under one key, two chains agree exactly when the identifiers agree, and each pair of caveats agrees up to the
   location or consists of a third-party caveat and a first-party one whose predicate is its two MACs.
   */
  lemma {:induction false} ChainExact(read: Bytes -> Text, c: Crypto<Term>, key: Term,
                                      id1: Bytes, cs1: seq<Caveat>, id2: Bytes, cs2: seq<Caveat>)
    requires IsFree(read, c)
    ensures Chain(c, key, id1, cs1) == Chain(c, key, id2, cs2) <==>
              id1 == id2 && AllAlike(read, c, key, id1, cs1, cs2)
  {
    if |cs1| != |cs2| {
      ChainDepth(read, c, key, id1, cs1);
      ChainDepth(read, c, key, id2, cs2);
    } else if cs1 != [] {
      var n := |cs1| - 1;
      ChainExact(read, c, key, id1, cs1[..n], id2, cs2[..n]);
      ChainStep(read, c, key, id1, cs1, id2, cs2);
      AllAlikeInit(read, c, key, id1, cs1, cs2);
    }
  }

  lemma ChainStep(read: Bytes -> Text, c: Crypto<Term>, key: Term, id1: Bytes, cs1: seq<Caveat>, id2: Bytes,
                  cs2: seq<Caveat>)
    requires IsFree(read, c) && |cs1| == |cs2| > 0
    ensures var n := |cs1| - 1;
            Chain(c, key, id1, cs1) == Chain(c, key, id2, cs2) <==>
              Chain(c, key, id1, cs1[..n]) == Chain(c, key, id2, cs2[..n]) && AlikeAt(read, c, key, id1, cs1, cs2, n)
  {
    var n := |cs1| - 1;
    SignAlike(read, c, Chain(c, key, id1, cs1[..n]), cs1[n], Chain(c, key, id2, cs2[..n]), cs2[n]);
  }

  // ------------------------------------------- what acceptance says

  /** An accepted macaroon carries the chain over its own identifier and caveats: binding does not help a root. */
  lemma RootSignature(read: Bytes -> Text, c: Crypto<Term>, p: Policy, m: Macaroon<Term>, key: Term,
                      discharges: seq<Macaroon<Term>>)
    requires IsFree(read, c)
    requires Verdict(c, p, m, key, discharges) == Ok(())
    ensures m.signature == Chain(c, key, m.identifier, m.caveats)
  {
    var t := VerdictSound(c, p, m, key, discharges);
    var bound := c.bind(m.signature, Chain(c, key, m.identifier, m.caveats));
    assert bound.text.first.text.t == m.signature;
  }

  /**
   Two macaroons accepted under one key have the same signature exactly when they say the same, up to locations
   and predicates that are the two MACs of a third-party caveat.
   */
  lemma AcceptedSignatures(read: Bytes -> Text, c: Crypto<Term>, p1: Policy, m1: Macaroon<Term>,
                           ds1: seq<Macaroon<Term>>,
                           p2: Policy, m2: Macaroon<Term>, ds2: seq<Macaroon<Term>>, key: Term)
    requires IsFree(read, c)
    requires Verdict(c, p1, m1, key, ds1) == Ok(()) && Verdict(c, p2, m2, key, ds2) == Ok(())
    ensures m1.signature == m2.signature <==>
              m1.identifier == m2.identifier && AllAlike(read, c, key, m1.identifier, m1.caveats, m2.caveats)
  {
    RootSignature(read, c, p1, m1, key, ds1);
    RootSignature(read, c, p2, m2, key, ds2);
    ChainExact(read, c, key, m1.identifier, m1.caveats, m2.identifier, m2.caveats);
  }

  lemma {:induction false} ChainKey(read: Bytes -> Text, c: Crypto<Term>, key1: Term, key2: Term, identifier: Bytes,
                                    cs: seq<Caveat>)
    requires IsFree(read, c)
    requires Chain(c, key1, identifier, cs) == Chain(c, key2, identifier, cs)
    ensures key1 == key2
  {
    if cs != [] {
      var n := |cs| - 1;
      SignAlike(read, c, Chain(c, key1, identifier, cs[..n]), cs[n], Chain(c, key2, identifier, cs[..n]), cs[n]);
      ChainKey(read, c, key1, key2, identifier, cs[..n]);
    }
  }

  /** A macaroon is accepted under one key at most, whatever the discharges and the policy. */
  lemma OneKey(read: Bytes -> Text, c: Crypto<Term>, m: Macaroon<Term>, p1: Policy, key1: Term,
               ds1: seq<Macaroon<Term>>, p2: Policy, key2: Term, ds2: seq<Macaroon<Term>>)
    requires IsFree(read, c)
    requires Verdict(c, p1, m, key1, ds1) == Ok(()) && Verdict(c, p2, m, key2, ds2) == Ok(())
    ensures key1 == key2
  {
    RootSignature(read, c, p1, m, key1, ds1);
    RootSignature(read, c, p2, m, key2, ds2);
    ChainKey(read, c, key1, key2, m.identifier, m.caveats);
  }

  // ---------------------------------------------- binding of discharges

  /** The key at the bottom of a term. */
  function Innermost(t: Term): Term {
    match t
    case Mac(key, _) => Innermost(key)
    case _ => t
  }

  lemma {:induction false} ChainInnermost(read: Bytes -> Text, c: Crypto<Term>, key: Term, identifier: Bytes,
                                          cs: seq<Caveat>)
    requires IsFree(read, c)
    ensures Innermost(Chain(c, key, identifier, cs)) == Innermost(key)
  {
    if cs != [] {
      var n := |cs| - 1;
      SignedUnder(read, c, cs[n], Chain(c, key, identifier, cs[..n]));
      ChainInnermost(read, c, key, identifier, cs[..n]);
    }
  }

  /** `n` is a node below the root of `t`. */
  ghost predicate Below<K>(t: Tree<K>, n: Tree<K>)
    decreases t
  {
    exists i :: 0 <= i < |t.kids| && t.kids[i].Some? && (t.kids[i].value == n || Below(t.kids[i].value, n))
  }

  lemma {:induction false} ValidBelow<K>(c: Crypto<K>, p: Policy, rootSig: K, t: Tree<K>, n: Tree<K>)
    requires Valid(c, p, rootSig, t) && Below(t, n)
    ensures Valid(c, p, rootSig, n)
    decreases t
  {
    var i :| 0 <= i < |t.kids| && t.kids[i].Some? && (t.kids[i].value == n || Below(t.kids[i].value, n));
    assert Discharged(c, p, rootSig, t.m.caveats[i], Chain(c, t.key, t.m.identifier, t.m.caveats[..i]), t.kids[i]);
    if t.kids[i].value != n {
      ValidBelow(c, p, rootSig, t.kids[i].value, n);
    }
  }

  lemma BindInjective(read: Bytes -> Text, c: Crypto<Term>, root1: Term, sig1: Term, root2: Term, sig2: Term)
    requires IsFree(read, c)
    ensures c.bind(root1, sig1) == c.bind(root2, sig2) <==> root1 == root2 && sig1 == sig2
  {
    var a, b := c.bind(root1, sig1), c.bind(root2, sig2);
    assert a.text.first.text.t == root1 && a.text.second.text.t == sig1;
    assert b.text.first.text.t == root2 && b.text.second.text.t == sig2;
  }

  ghost function NodeChain(c: Crypto<Term>, n: Tree<Term>): Term {
    Chain(c, n.key, n.m.identifier, n.m.caveats)
  }

  /**
   A discharge under a key of its own is used only as bound to the very macaroon that is verified: one that was
   bound to another root, or not bound at all, sits in no accepted discharge tree.
   */
  lemma BoundToThisRoot(read: Bytes -> Text, c: Crypto<Term>, p: Policy, m: Macaroon<Term>, key: Term,
                        discharges: seq<Macaroon<Term>>, t: Tree<Term>, n: Tree<Term>, other: Term, sig: Term)
    requires IsFree(read, c)
    requires Distinct(discharges) && Proves(c, p, m, key, discharges, t)
    requires Below(t, n) && Innermost(n.key) != Innermost(key)
    ensures n.m.signature == c.bind(m.signature, NodeChain(c, n))
    ensures n.m.signature == c.bind(other, sig) <==> other == m.signature && sig == NodeChain(c, n)
  {
    VerdictComplete(c, p, m, key, discharges, t);
    RootSignature(read, c, p, m, key, discharges);
    ChainInnermost(read, c, key, m.identifier, m.caveats);
    ChainInnermost(read, c, n.key, n.m.identifier, n.m.caveats);
    ValidBelow(c, p, m.signature, t, n);
    BindInjective(read, c, m.signature, NodeChain(c, n), other, sig);
  }

  // -------------------------------- discharges under keys of the root's chain

  /** No text has the length of two MACs. */
  predicate NoMacs(identifier: Bytes, cs: seq<Caveat>) {
    && |identifier| != JOINED_SIZE
    && forall i :: 0 <= i < |cs| && cs[i].FirstParty? ==> |cs[i].pred| != JOINED_SIZE
  }

  lemma SignsMeet(read: Bytes -> Text, c: Crypto<Term>, sig1: Term, a: Caveat, sig2: Term, b: Caveat)
    requires IsFree(read, c) && NoMacs([], [a]) && NoMacs([], [b])
    ensures Sign(c, a, sig1) == Sign(c, b, sig2) <==> sig1 == sig2 && Signed(a) == Signed(b)
  {
    assert a == [a][0] && b == [b][0];
  }

  /** The chain under `key2` starts where the other one has come before its `k`-th caveat. */
  ghost predicate Starts(c: Crypto<Term>, key1: Term, id1: Bytes, cs1: seq<Caveat>, key2: Term, id2: Bytes, k: nat)
    requires k <= |cs1|
  {
    if k == 0 then key1 == key2 && id1 == id2
    else key2 == Chain(c, key1, id1, cs1[..k - 1]) && cs1[k - 1] == FirstParty(id2)
  }

  /** The same, and `cs2` are the caveats from there on. */
  ghost predicate Meets(c: Crypto<Term>, key1: Term, id1: Bytes, cs1: seq<Caveat>, key2: Term, id2: Bytes,
                        cs2: seq<Caveat>)
    requires |cs1| >= |cs2|
  {
    var k := |cs1| - |cs2|;
    SameSigned(cs1[k..], cs2) && Starts(c, key1, id1, cs1, key2, id2, k)
  }

  lemma NoMacsInit(identifier: Bytes, cs: seq<Caveat>)
    requires NoMacs(identifier, cs) && cs != []
    ensures NoMacs(identifier, cs[..|cs| - 1]) && NoMacs([], [cs[|cs| - 1]])
  {
  }

  /** When a chain is the first MAC of another one. */
  lemma ChainStarts(read: Bytes -> Text, c: Crypto<Term>, key1: Term, id1: Bytes, cs1: seq<Caveat>,
                    key2: Term, id2: Bytes)
    requires IsFree(read, c) && NoMacs(id2, [])
    ensures Chain(c, key1, id1, cs1) == Chain(c, key2, id2, []) <==> Starts(c, key1, id1, cs1, key2, id2, |cs1|)
  {
  }

  /** When two chains under different keys agree. */
  lemma {:induction false} ChainsMeet(read: Bytes -> Text, c: Crypto<Term>, key1: Term, id1: Bytes, cs1: seq<Caveat>,
                                      key2: Term, id2: Bytes, cs2: seq<Caveat>)
    requires IsFree(read, c) && NoMacs(id1, cs1) && NoMacs(id2, cs2) && |cs1| >= |cs2|
    ensures Chain(c, key1, id1, cs1) == Chain(c, key2, id2, cs2) <==> Meets(c, key1, id1, cs1, key2, id2, cs2)
    decreases |cs2|
  {
    if cs2 == [] {
      ChainStarts(read, c, key1, id1, cs1, key2, id2);
    } else {
      var n1, n2 := |cs1| - 1, |cs2| - 1;
      NoMacsInit(id1, cs1);
      NoMacsInit(id2, cs2);
      ChainsMeet(read, c, key1, id1, cs1[..n1], key2, id2, cs2[..n2]);
      SignsMeet(read, c, Chain(c, key1, id1, cs1[..n1]), cs1[n1], Chain(c, key2, id2, cs2[..n2]), cs2[n2]);
      MeetsInit(c, key1, id1, cs1, key2, id2, cs2);
    }
  }

  lemma MeetsInit(c: Crypto<Term>, key1: Term, id1: Bytes, cs1: seq<Caveat>, key2: Term, id2: Bytes, cs2: seq<Caveat>)
    requires |cs1| >= |cs2| > 0
    ensures var n1, n2 := |cs1| - 1, |cs2| - 1;
            Meets(c, key1, id1, cs1, key2, id2, cs2) <==>
              Meets(c, key1, id1, cs1[..n1], key2, id2, cs2[..n2]) && Signed(cs1[n1]) == Signed(cs2[n2])
  {
    var k := |cs1| - |cs2|;
    SameTailInit(cs1, cs2, k);
    StartsInit(c, key1, id1, cs1, key2, id2, k);
  }

  lemma StartsInit(c: Crypto<Term>, key1: Term, id1: Bytes, cs1: seq<Caveat>, key2: Term, id2: Bytes, k: nat)
    requires k < |cs1|
    ensures Starts(c, key1, id1, cs1, key2, id2, k) <==> Starts(c, key1, id1, cs1[..|cs1| - 1], key2, id2, k)
  {
    if k > 0 {
      assert cs1[..|cs1| - 1][..k - 1] == cs1[..k - 1];
    }
  }

  lemma SameTailInit(a: seq<Caveat>, b: seq<Caveat>, k: nat)
    requires |a| == k + |b| && b != []
    ensures var n1, n2 := |a| - 1, |b| - 1;
            SameSigned(a[k..], b) <==> SameSigned(a[..n1][k..], b[..n2]) && Signed(a[n1]) == Signed(b[n2])
  {
    var tail := a[k..];
    assert tail[..|b| - 1] == a[..|a| - 1][k..] && tail[|b| - 1] == a[|a| - 1];
    SameSignedInit(tail, b);
  }

  lemma SameSignedInit(a: seq<Caveat>, b: seq<Caveat>)
    requires |a| == |b| > 0
    ensures var n := |a| - 1; SameSigned(a, b) <==> SameSigned(a[..n], b[..n]) && Signed(a[n]) == Signed(b[n])
  {
    var n := |a| - 1;
    if SameSigned(a[..n], b[..n]) && Signed(a[n]) == Signed(b[n]) {
      forall i | 0 <= i < |a|
        ensures Signed(a[i]) == Signed(b[i])
      {
        assert i < n ==> Signed(a[..n][i]) == Signed(b[..n][i]);
      }
    }
  }

  lemma {:induction false} ForestHas<K>(kids: seq<Option<Tree<K>>>, i: nat, m: Macaroon<K>)
    requires i < |kids| && m in Members(kids[i])
    ensures m in Forest(kids)
  {
    if i > 0 {
      ForestHas(kids[1..], i - 1, m);
    }
  }

  lemma {:induction false} BelowMember<K>(t: Tree<K>, n: Tree<K>)
    requires Below(t, n)
    ensures n.m in Descendants(t)
    decreases t
  {
    var i :| 0 <= i < |t.kids| && t.kids[i].Some? && (t.kids[i].value == n || Below(t.kids[i].value, n));
    if t.kids[i].value != n {
      BelowMember(t.kids[i].value, n);
    }
    assert Members(t.kids[i]) == [t.kids[i].value.m] + Descendants(t.kids[i].value);
    ForestHas(t.kids, i, n.m);
  }

  lemma {:induction false} CaveatNamed(cs: seq<Caveat>, i: nat)
    requires i < |cs| && cs[i].ThirdParty?
    ensures cs[i].id in CaveatIds(cs)
  {
    if i > 0 {
      CaveatNamed(cs[1..], i - 1);
    }
  }

  lemma NamedTwice<K>(m: Macaroon<K>, ms: seq<Macaroon<K>>, other: Macaroon<K>, id: Bytes)
    requires other in ms && id in CaveatIds(m.caveats) && id in CaveatIds(other.caveats)
    ensures Sum(CaveatIdsOf, [m] + ms)[id] >= 2
  {
    var i :| 0 <= i < |ms| && ms[i] == other;
    SumWithout(CaveatIdsOf, ms, i);
    assert ([m] + ms)[1..] == ms;
    assert CaveatIdsOf(m)[id] >= 1 && CaveatIdsOf(other)[id] >= 1;
  }

  /** No caveat of a discharge names what a caveat of the root names. */
  lemma NamedElsewhere<K>(c: Crypto<K>, p: Policy, m: Macaroon<K>, key: K, discharges: seq<Macaroon<K>>,
                          t: Tree<K>, n: Tree<K>, i: nat, j: nat)
    requires Distinct(discharges) && Proves(c, p, m, key, discharges, t) && Below(t, n)
    requires i < |m.caveats| && m.caveats[i].ThirdParty?
    requires j < |n.m.caveats| && n.m.caveats[j].ThirdParty?
    ensures m.caveats[i].id != n.m.caveats[j].id
  {
    VerdictComplete(c, p, m, key, discharges, t);
    VerifiedDischarges(c, p, m, key, discharges);
    BelowMember(t, n);
    assert n.m in multiset(discharges);
    CaveatNamed(m.caveats, i);
    CaveatNamed(n.m.caveats, j);
    if m.caveats[i].id == n.m.caveats[j].id {
      NamedTwice(m, discharges, n.m, m.caveats[i].id);
    }
  }

  /**
   The key of `n` is the root's chain after some caveats, all of the root's third-party caveats among them; the
   next one says the identifier of `n`, and the others are those of `n`.
   */
  ghost predicate ContinuesRoot(c: Crypto<Term>, m: Macaroon<Term>, key: Term, n: Tree<Term>, k: nat) {
    && k < |m.caveats|
    && n.key == Chain(c, key, m.identifier, m.caveats[..k])
    && m.caveats[k..] == [FirstParty(n.m.identifier)] + n.m.caveats
    && (forall i :: 0 <= i < |n.m.caveats| ==> n.m.caveats[i].FirstParty?)
  }

  lemma ThirdPartyAbove<K>(c: Crypto<K>, p: Policy, rootSig: K, t: Tree<K>, n: Tree<K>) returns (i: nat)
    requires Valid(c, p, rootSig, t) && Below(t, n)
    ensures i < |t.m.caveats| && t.m.caveats[i].ThirdParty?
  {
    i :| 0 <= i < |t.kids| && t.kids[i].Some? && (t.kids[i].value == n || Below(t.kids[i].value, n));
    assert Discharged(c, p, rootSig, t.m.caveats[i], Chain(c, t.key, t.m.identifier, t.m.caveats[..i]), t.kids[i]);
  }

  lemma TailNames(a: seq<Caveat>, b: seq<Caveat>, d: nat, i: nat)
    requires |a| == d + |b| && SameSigned(a[d..], b) && i < |b|
    ensures Signed(a[d + i]) == Signed(b[i])
  {
    assert a[d..][i] == a[d + i];
  }

  /** Third-party caveats of `a` and `b` have different ids. */
  ghost predicate NamesApart(a: seq<Caveat>, b: seq<Caveat>) {
    forall i, j :: 0 <= i < |a| && 0 <= j < |b| && a[i].ThirdParty? && b[j].ThirdParty? ==> a[i].id != b[j].id
  }

  lemma TailFirstParty(a: seq<Caveat>, b: seq<Caveat>, d: nat)
    requires |a| == d + |b| && SameSigned(a[d..], b) && NamesApart(a, b)
    ensures a[d..] == b && forall i :: 0 <= i < |b| ==> b[i].FirstParty?
  {
    forall i | 0 <= i < |b|
      ensures a[d..][i] == b[i] && b[i].FirstParty?
    {
      TailNames(a, b, d, i);
    }
  }

  lemma TailShares(a: seq<Caveat>, b: seq<Caveat>, i: nat)
    requires |b| <= |a| && SameSigned(a[|a| - |b|..], b) && i < |b| && b[i].ThirdParty?
    ensures !NamesApart(b, a)
  {
    TailNames(a, b, |a| - |b|, i);
    assert a[|a| - |b| + i].ThirdParty?;
  }

  lemma MeetsContinues(c: Crypto<Term>, m: Macaroon<Term>, key: Term, n: Tree<Term>)
    requires |m.caveats| > |n.m.caveats| && NamesApart(m.caveats, n.m.caveats)
    requires Meets(c, key, m.identifier, m.caveats, n.key, n.m.identifier, n.m.caveats)
    ensures ContinuesRoot(c, m, key, n, |m.caveats| - |n.m.caveats| - 1)
  {
    var d := |m.caveats| - |n.m.caveats|;
    TailFirstParty(m.caveats, n.m.caveats, d);
    assert m.caveats[d - 1..] == [m.caveats[d - 1]] + m.caveats[d..];
  }

  /** The chain of a discharge is the root's only if the discharge continues the root. */
  lemma SharedChain(read: Bytes -> Text, c: Crypto<Term>, m: Macaroon<Term>, key: Term, n: Tree<Term>, i: nat)
    requires IsFree(read, c)
    requires NoMacs(m.identifier, m.caveats) && NoMacs(n.m.identifier, n.m.caveats)
    requires i < |m.caveats| && m.caveats[i].ThirdParty? && NamesApart(m.caveats, n.m.caveats)
    requires Chain(c, key, m.identifier, m.caveats) == NodeChain(c, n)
    ensures exists k: nat :: ContinuesRoot(c, m, key, n, k)
  {
    if |m.caveats| <= |n.m.caveats| {
      ChainsMeet(read, c, n.key, n.m.identifier, n.m.caveats, key, m.identifier, m.caveats);
      TailShares(n.m.caveats, m.caveats, i);
      assert false;
    } else {
      ChainsMeet(read, c, key, m.identifier, m.caveats, n.key, n.m.identifier, n.m.caveats);
      MeetsContinues(c, m, key, n);
    }
  }

  lemma ContinuedChain(read: Bytes -> Text, c: Crypto<Term>, m: Macaroon<Term>, key: Term, n: Tree<Term>, k: nat)
    requires IsFree(read, c)
    requires NoMacs(m.identifier, m.caveats) && NoMacs(n.m.identifier, n.m.caveats)
    requires ContinuesRoot(c, m, key, n, k)
    ensures Chain(c, key, m.identifier, m.caveats) == NodeChain(c, n)
  {
    assert m.caveats[k] == m.caveats[k..][0] && m.caveats[k + 1..] == m.caveats[k..][1..];
    SameSignedSelf(n.m.caveats);
    ChainsMeet(read, c, key, m.identifier, m.caveats, n.key, n.m.identifier, n.m.caveats);
  }

  lemma SameSignedSelf(cs: seq<Caveat>)
    ensures SameSigned(cs, cs)
  {
  }

  /**
   A discharge that is not bound to the macaroon that is verified is used only if it continues that macaroon: its
   key is the chain after the third-party caveats. Then, and only then, its own chain is the signature of the root.
   */
  lemma UnboundDischarge(read: Bytes -> Text, c: Crypto<Term>, p: Policy, m: Macaroon<Term>, key: Term,
                         discharges: seq<Macaroon<Term>>, t: Tree<Term>, n: Tree<Term>)
    requires IsFree(read, c)
    requires Distinct(discharges) && Proves(c, p, m, key, discharges, t) && Below(t, n)
    requires NoMacs(m.identifier, m.caveats) && NoMacs(n.m.identifier, n.m.caveats)
    ensures m.signature == NodeChain(c, n) <==> exists k: nat :: ContinuesRoot(c, m, key, n, k)
    ensures n.m.signature == c.bind(m.signature, NodeChain(c, n)) || exists k: nat :: ContinuesRoot(c, m, key, n, k)
  {
    VerdictComplete(c, p, m, key, discharges, t);
    RootSignature(read, c, p, m, key, discharges);
    ValidBelow(c, p, m.signature, t, n);
    if m.signature == NodeChain(c, n) {
      forall i, j |
        0 <= i < |m.caveats| && 0 <= j < |n.m.caveats| && m.caveats[i].ThirdParty? && n.m.caveats[j].ThirdParty?
        ensures m.caveats[i].id != n.m.caveats[j].id
      {
        NamedElsewhere(c, p, m, key, discharges, t, n, i, j);
      }
      var i := ThirdPartyAbove(c, p, m.signature, t, n);
      SharedChain(read, c, m, key, n, i);
    }
    if k: nat :| ContinuesRoot(c, m, key, n, k) {
      ContinuedChain(read, c, m, key, n, k);
    }
  }
}
