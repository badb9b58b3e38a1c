/** What can be made from known macaroons: caveats can be added but not removed. */
module Derivations {
  import opened Prelude
  import opened Crypto
  import opened Caveats
  import opened Macaroons
  import opened Verification
  import opened Symbolic

  /**
   The terms that can be computed from known ones: MACs under keys that can be computed. Whatever can be decrypted
   counts as known.
   */
  ghost predicate Derivable(known: set<Term>, t: Term)
    decreases t
  {
    || t in known
    || t == Zero
    || (t.Mac? && Derivable(known, t.key) && DerivableText(known, t.text))
  }

  ghost predicate DerivableText(known: set<Term>, text: Text)
    decreases text
  {
    match text
    case Data(_) => true
    case Signature(t) => Derivable(known, t)
    case Joined(first, second) => Derivable(known, first) && Derivable(known, second)
  }

  ghost function Prefix(c: Crypto<Term>, key: Term, m: Macaroon<Term>, n: nat): Term
    requires n <= |m.caveats|
  {
    Chain(c, key, m.identifier, m.caveats[..n])
  }

  lemma PrefixKey(read: Bytes -> Text, c: Crypto<Term>, key: Term, m: Macaroon<Term>, n: nat)
    requires IsFree(read, c) && n <= |m.caveats|
    ensures Prefix(c, key, m, n).Mac? && Prefix(c, key, m, n).key == if n == 0 then key else Prefix(c, key, m, n - 1)
  {
    if n > 0 {
      assert m.caveats[..n][..n - 1] == m.caveats[..n - 1];
      SignedUnder(read, c, m.caveats[n - 1], Prefix(c, key, m, n - 1));
    }
  }

  /** The first signature that can be computed is a known one. */
  lemma FirstIsKnown(read: Bytes -> Text, c: Crypto<Term>, known: set<Term>, key: Term, m: Macaroon<Term>, n: nat)
    requires IsFree(read, c) && n <= |m.caveats|
    requires Derivable(known, Prefix(c, key, m, n))
    requires !Derivable(known, if n == 0 then key else Prefix(c, key, m, n - 1))
    ensures Prefix(c, key, m, n) in known
  {
    PrefixKey(read, c, key, m, n);
  }

  /** No signature before the `i`-th caveat can be computed. */
  ghost predicate HiddenUpTo(c: Crypto<Term>, known: set<Term>, key: Term, m: Macaroon<Term>, i: nat)
    requires i <= |m.caveats|
  {
    forall j :: 0 <= j < i ==> !Derivable(known, Prefix(c, key, m, j))
  }

  /** A chain under a key that cannot be computed was continued from a known one, the first that can be computed. */
  lemma ChainContinues(read: Bytes -> Text, c: Crypto<Term>, known: set<Term>, key: Term, m: Macaroon<Term>, i: nat)
    returns (n: nat)
    requires IsFree(read, c) && i <= |m.caveats|
    requires !Derivable(known, key) && Derivable(known, Prefix(c, key, m, |m.caveats|))
    requires HiddenUpTo(c, known, key, m, i)
    ensures n <= |m.caveats| && Prefix(c, key, m, n) in known && HiddenUpTo(c, known, key, m, n)
    decreases |m.caveats| - i
  {
    if Derivable(known, Prefix(c, key, m, i)) {
      n := i;
      FirstIsKnown(read, c, known, key, m, n);
    } else {
      n := ChainContinues(read, c, known, key, m, i + 1);
    }
  }

  ghost function Signatures(ms: seq<Macaroon<Term>>): set<Term> {
    set i | 0 <= i < |ms| :: ms[i].signature
  }

  /** What a holder knows: macaroons made under a secret key, and other terms that were not computed from that key. */
  ghost predicate Holds(c: Crypto<Term>, secret: Term, held: seq<Macaroon<Term>>, others: set<Term>) {
    && secret.Secret?
    && (forall i :: 0 <= i < |held| ==> held[i].signature == Chain(c, secret, held[i].identifier, held[i].caveats))
    && (forall t :: t in others ==> Innermost(t) != secret)
  }

  /** A known term that was computed from the secret is the signature of a macaroon that is held. */
  lemma HeldTerm(read: Bytes -> Text, c: Crypto<Term>, secret: Term, held: seq<Macaroon<Term>>, others: set<Term>,
                 t: Term)
    returns (i: nat)
    requires IsFree(read, c) && Holds(c, secret, held, others)
    requires t in others + Signatures(held) && Innermost(t) == secret
    ensures i < |held| && held[i].signature == t && t.Mac?
  {
    i :| 0 <= i < |held| && held[i].signature == t;
    ChainDepth(read, c, secret, held[i].identifier, held[i].caveats);
  }

  lemma SecretKept(read: Bytes -> Text, c: Crypto<Term>, secret: Term, held: seq<Macaroon<Term>>, others: set<Term>)
    requires IsFree(read, c) && Holds(c, secret, held, others)
    ensures !Derivable(others + Signatures(held), secret)
  {
    if secret in others + Signatures(held) {
      var i := HeldTerm(read, c, secret, held, others, secret);
    }
  }

  /**
   Whatever a holder makes and has accepted continues a macaroon that is held: the first `n` caveats are signed like
   those of the `i`-th one, and no signature before them can be computed.
   */
  lemma ContinuesHeld(read: Bytes -> Text, c: Crypto<Term>, secret: Term, held: seq<Macaroon<Term>>, others: set<Term>,
                      p: Policy, m: Macaroon<Term>, discharges: seq<Macaroon<Term>>) returns (i: nat, n: nat)
    requires IsFree(read, c) && Holds(c, secret, held, others)
    requires Derivable(others + Signatures(held), m.signature)
    requires Verdict(c, p, m, secret, discharges) == Ok(())
    ensures i < |held| && m.identifier == held[i].identifier && n == |held[i].caveats| <= |m.caveats|
    ensures AllAlike(read, c, secret, m.identifier, m.caveats[..n], held[i].caveats)
    ensures HiddenUpTo(c, others + Signatures(held), secret, m, n)
  {
    var known := others + Signatures(held);
    RootSignature(read, c, p, m, secret, discharges);
    assert m.caveats[..|m.caveats|] == m.caveats;
    SecretKept(read, c, secret, held, others);
    n := ChainContinues(read, c, known, secret, m, 0);
    ChainInnermost(read, c, secret, m.identifier, m.caveats[..n]);
    i := HeldTerm(read, c, secret, held, others, Prefix(c, secret, m, n));
    ChainExact(read, c, secret, m.identifier, m.caveats[..n], held[i].identifier, held[i].caveats);
  }

  /**
   The held macaroons have no predicate and no verifier id of the length of two MACs, and no verifier id that is also
   a predicate.
   */
  ghost predicate PlainlyHeld(held: seq<Macaroon<Term>>) {
    forall i, j :: 0 <= i < |held| && 0 <= j < |held[i].caveats| ==> PlainCaveat(held, held[i].caveats[j])
  }

  ghost predicate PlainCaveat(held: seq<Macaroon<Term>>, caveat: Caveat) {
    match caveat
    case FirstParty(pred) => |pred| != JOINED_SIZE
    case ThirdParty(_, vid, _) =>
      && |vid| != JOINED_SIZE
      && forall i, j :: 0 <= i < |held| && 0 <= j < |held[i].caveats| ==> held[i].caveats[j] != FirstParty(vid)
  }

  lemma NotInnerMac(read: Bytes -> Text, c: Crypto<Term>, key: Term, m: Macaroon<Term>, sig: Term, vid: Bytes)
    requires IsFree(read, c) && !key.Mac? && sig.Mac? && |vid| != JOINED_SIZE
    requires forall j :: 0 <= j < |m.caveats| ==> m.caveats[j] != FirstParty(vid)
    ensures Chain(c, key, m.identifier, m.caveats) != Mac(sig, read(vid))
  {
    if m.caveats != [] {
      var k := |m.caveats| - 1;
      SignedUnder(read, c, m.caveats[k], Chain(c, key, m.identifier, m.caveats[..k]));
      assert m.caveats[k] != FirstParty(vid);
    }
  }

  /** A MAC of a verifier id under a signature that cannot be computed cannot be computed either. */
  lemma InnerMacHidden(read: Bytes -> Text, c: Crypto<Term>, secret: Term, held: seq<Macaroon<Term>>, others: set<Term>,
                       sig: Term, vid: Bytes)
    requires IsFree(read, c) && Holds(c, secret, held, others)
    requires sig.Mac? && Innermost(sig) == secret && !Derivable(others + Signatures(held), sig)
    requires |vid| != JOINED_SIZE
    requires forall i, j :: 0 <= i < |held| && 0 <= j < |held[i].caveats| ==> held[i].caveats[j] != FirstParty(vid)
    ensures !Derivable(others + Signatures(held), Mac(sig, read(vid)))
  {
    forall i | 0 <= i < |held|
      ensures held[i].signature != Mac(sig, read(vid))
    {
      NotInnerMac(read, c, secret, held[i], sig, vid);
    }
    assert Mac(sig, read(vid)) !in others;
  }

  /** The predicates of `m` can be computed. */
  ghost predicate PredicatesKnown(read: Bytes -> Text, known: set<Term>, m: Macaroon<Term>) {
    forall j :: 0 <= j < |m.caveats| && m.caveats[j].FirstParty? ==> DerivableText(known, read(m.caveats[j].pred))
  }

  lemma SameCaveat(read: Bytes -> Text, c: Crypto<Term>, secret: Term, held: seq<Macaroon<Term>>, others: set<Term>,
                   sig: Term, mine: Caveat, theirs: Caveat)
    requires IsFree(read, c) && Holds(c, secret, held, others)
    requires sig.Mac? && Innermost(sig) == secret && !Derivable(others + Signatures(held), sig)
    requires mine.FirstParty? ==> DerivableText(others + Signatures(held), read(mine.pred))
    requires PlainCaveat(held, theirs) && Alike(read, sig, mine, theirs)
    ensures Signed(mine) == Signed(theirs)
  {
    if theirs.ThirdParty? {
      InnerMacHidden(read, c, secret, held, others, sig, theirs.verifierId);
    }
  }

  /**
   Caveats can be added but not removed: with macaroons made under a secret key, and whatever else was not computed
   from that key, one can only make macaroons accepted under it that extend one of those held.
   */
  lemma CaveatsOnlyAdded(read: Bytes -> Text, c: Crypto<Term>, secret: Term, held: seq<Macaroon<Term>>,
                         others: set<Term>,
                         p: Policy, m: Macaroon<Term>, discharges: seq<Macaroon<Term>>) returns (i: nat)
    requires IsFree(read, c) && Holds(c, secret, held, others) && PlainlyHeld(held)
    requires Derivable(others + Signatures(held), m.signature)
    requires PredicatesKnown(read, others + Signatures(held), m)
    requires Verdict(c, p, m, secret, discharges) == Ok(())
    ensures i < |held| && m.identifier == held[i].identifier
    ensures |held[i].caveats| <= |m.caveats| && SameSigned(m.caveats[..|held[i].caveats|], held[i].caveats)
  {
    var n;
    i, n := ContinuesHeld(read, c, secret, held, others, p, m, discharges);
    forall j | 0 <= j < n
      ensures Signed(m.caveats[..n][j]) == Signed(held[i].caveats[j])
    {
      assert AlikeAt(read, c, secret, m.identifier, m.caveats[..n], held[i].caveats, j);
      assert m.caveats[..n][..j] == m.caveats[..j];
      ChainInnermost(read, c, secret, m.identifier, m.caveats[..j]);
      PrefixKey(read, c, secret, m, j);
      SameCaveat(read, c, secret, held, others, Prefix(c, secret, m, j), m.caveats[j], held[i].caveats[j]);
    }
  }
}
