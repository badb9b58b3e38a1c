/** Verification, restated without a run: a macaroon is accepted when a valid discharge tree exists for it. */
module DischargeTrees {
  import opened Prelude
  import opened Crypto
  import opened Caveats
  import opened Macaroons
  import opened Verification

  /** A macaroon, the key its chain starts from, and for each of its caveats the tree that discharges it, if any. */
  datatype Tree<K> = Node(m: Macaroon<K>, key: K, kids: seq<Option<Tree<K>>>)

  /**
   Every first-party caveat is accepted; every third-party caveat has a subtree for the macaroon named by the
   caveat, under the key decrypted with the chain value just before the caveat; and the whole chain is the root
   signature, or is bound to it by the signature of the macaroon.
   */
  ghost predicate Valid<K>(c: Crypto<K>, p: Policy, rootSig: K, t: Tree<K>)
    decreases t, 1
  {
    && |t.kids| == |t.m.caveats|
    && (forall i :: 0 <= i < |t.kids| ==>
          Discharged(c, p, rootSig, t.m.caveats[i], Chain(c, t.key, t.m.identifier, t.m.caveats[..i]), t.kids[i]))
    && Accepted(c, rootSig, Chain(c, t.key, t.m.identifier, t.m.caveats), t.m)
  }

  ghost predicate Discharged<K>(c: Crypto<K>, p: Policy, rootSig: K, caveat: Caveat, sig: K, kid: Option<Tree<K>>)
    decreases kid, 0
  {
    match caveat
    case FirstParty(pred) => kid.None? && p.Accepts(pred)
    case ThirdParty(id, vid, _) =>
      && kid.Some?
      && kid.value.m.identifier == id
      && c.decrypt(sig, vid) == Some(kid.value.key)
      && Valid(c, p, rootSig, kid.value)
  }

  ghost predicate HeightAtMost<K>(t: Tree<K>, h: nat)
    decreases t
  {
    forall i :: 0 <= i < |t.kids| && t.kids[i].Some? ==> h > 0 && HeightAtMost(t.kids[i].value, h - 1)
  }

  /** The macaroons below the root of a tree, depth first. */
  ghost function Descendants<K>(t: Tree<K>): seq<Macaroon<K>>
    decreases t
  {
    Forest(t.kids)
  }

  ghost function Forest<K>(kids: seq<Option<Tree<K>>>): seq<Macaroon<K>>
    decreases kids
  {
    if kids == [] then [] else Members(kids[0]) + Forest(kids[1..])
  }

  ghost function Members<K>(kid: Option<Tree<K>>): seq<Macaroon<K>>
    decreases kid
  {
    match kid
    case None => []
    case Some(t) => [t.m] + Descendants(t)
  }

  ghost function Ids<K>(ms: seq<Macaroon<K>>): set<Bytes> {
    set i | 0 <= i < |ms| :: ms[i].identifier
  }

  ghost predicate Keyed<K>(ds: Discharges<K>) {
    forall id :: id in ds ==> ds[id].identifier == id
  }

  ghost predicate Available<K>(ds: Discharges<K>, ms: seq<Macaroon<K>>) {
    forall i :: 0 <= i < |ms| ==> ms[i].identifier in ds && ds[ms[i].identifier] == ms[i]
  }

  /** Taking `ms`, each once, from `ds` leaves `left`. */
  ghost predicate Consumes<K>(ds: Discharges<K>, ms: seq<Macaroon<K>>, left: Discharges<K>) {
    Available(ds, ms) && Distinct(ms) && left == ds - Ids(ms)
  }

  lemma ConsumesConcat<K>(ds: Discharges<K>, a: seq<Macaroon<K>>, mid: Discharges<K>, b: seq<Macaroon<K>>,
                          left: Discharges<K>)
    requires mid == ds - Ids(a)
    ensures Consumes(ds, a, mid) && Consumes(mid, b, left) <==> Consumes(ds, a + b, left)
  {
    var ab := a + b;
    assert forall i :: 0 <= i < |a| ==> ab[i] == a[i];
    assert forall i :: 0 <= i < |b| ==> ab[|a| + i] == b[i];
    assert Ids(ab) == Ids(a) + Ids(b) by {
      forall id | id in Ids(a) + Ids(b)
        ensures id in Ids(ab)
      {
        if id in Ids(b) {
          var i :| 0 <= i < |b| && b[i].identifier == id;
          assert ab[|a| + i].identifier == id;
        }
      }
    }
    if Consumes(ds, ab, left) {
      forall i | 0 <= i < |b|
        ensures b[i].identifier !in Ids(a)
      {
        assert ab[|a| + i] == b[i];
      }
    }
  }

  lemma ConsumesOne<K>(ds: Discharges<K>, t: Tree<K>, left: Discharges<K>)
    requires t.m.identifier in ds
    ensures Consumes(ds, Members(Some(t)), left) <==>
              ds[t.m.identifier] == t.m && Consumes(ds - {t.m.identifier}, Descendants(t), left)
  {
    var one := [t.m];
    assert one[0].identifier in Ids(one);
    assert Ids(one) == {t.m.identifier};
    ConsumesConcat(ds, [t.m], ds - {t.m.identifier}, Descendants(t), left);
  }

  /** `t` shows that `m` may be accepted at the given depth below a root with signature `rootSig`. */
  ghost predicate Shows<K>(c: Crypto<K>, p: Policy, rootSig: K, m: Macaroon<K>, key: K, depth: nat, t: Tree<K>) {
    && t.m == m && t.key == key
    && Valid(c, p, rootSig, t)
    && depth <= MAX_VERIFICATION_DEPTH && HeightAtMost(t, MAX_VERIFICATION_DEPTH - depth)
  }

  // ---------------------------------------------------------- soundness

  lemma {:induction false} NodeSound<K>(c: Crypto<K>, p: Policy, rootSig: K, m: Macaroon<K>, key: K,
                                        ds: Discharges<K>, depth: nat)
    returns (t: Tree<K>)
    requires Keyed(ds)
    requires RunNode(c, p, rootSig, m, key, ds, depth).outcome.Ok?
    ensures Shows(c, p, rootSig, m, key, depth, t)
    ensures Consumes(ds, Descendants(t), RunNode(c, p, rootSig, m, key, ds, depth).left)
    decreases ds.Keys, 2, 0
  {
    assert m.caveats[0..] == m.caveats;
    var kids := CaveatsSound(c, p, rootSig, m, key, 0, ds, depth);
    t := Node(m, key, kids);
  }

  lemma {:induction false} CaveatSound<K>(c: Crypto<K>, p: Policy, rootSig: K, caveat: Caveat, sig: K,
                                          ds: Discharges<K>, depth: nat)
    returns (kid: Option<Tree<K>>)
    requires depth <= MAX_VERIFICATION_DEPTH && Keyed(ds)
    requires RunCaveat(c, p, rootSig, caveat, sig, ds, depth).outcome.Ok?
    ensures Discharged(c, p, rootSig, caveat, sig, kid)
    ensures kid.Some? ==> depth < MAX_VERIFICATION_DEPTH && HeightAtMost(kid.value, MAX_VERIFICATION_DEPTH - depth - 1)
    ensures Consumes(ds, Members(kid), RunCaveat(c, p, rootSig, caveat, sig, ds, depth).left)
    decreases ds.Keys, 0, 0
  {
    match caveat
    case FirstParty(_) =>
      kid := None;
      assert Ids<K>([]) == {};
    case ThirdParty(id, vid, _) =>
      var t := NodeSound(c, p, rootSig, ds[id], c.decrypt(sig, vid).value, ds - {id}, depth + 1);
      kid := Some(t);
      ConsumesOne(ds, t, RunCaveat(c, p, rootSig, caveat, sig, ds, depth).left);
  }

  /** The subtrees for the caveats from the `i`-th on. */
  ghost predicate KidsFrom<K>(c: Crypto<K>, p: Policy, rootSig: K, m: Macaroon<K>, key: K, i: nat,
                              kids: seq<Option<Tree<K>>>, h: int) {
    && i + |kids| == |m.caveats|
    && (forall j :: 0 <= j < |kids| ==>
          Discharged(c, p, rootSig, m.caveats[i + j], Chain(c, key, m.identifier, m.caveats[..i + j]), kids[j]))
    && (forall j :: 0 <= j < |kids| && kids[j].Some? ==> h > 0 && HeightAtMost(kids[j].value, h - 1))
  }

  lemma KidsFromCons<K>(c: Crypto<K>, p: Policy, rootSig: K, m: Macaroon<K>, key: K, i: nat, kid: Option<Tree<K>>,
                        rest: seq<Option<Tree<K>>>, h: int)
    requires i < |m.caveats| && KidsFrom(c, p, rootSig, m, key, i + 1, rest, h)
    requires Discharged(c, p, rootSig, m.caveats[i], Chain(c, key, m.identifier, m.caveats[..i]), kid)
    requires kid.Some? ==> h > 0 && HeightAtMost(kid.value, h - 1)
    ensures KidsFrom(c, p, rootSig, m, key, i, [kid] + rest, h)
    ensures Forest([kid] + rest) == Members(kid) + Forest(rest)
  {
    var kids := [kid] + rest;
    assert kids[1..] == rest;
    forall j | 0 <= j < |kids|
      ensures Discharged(c, p, rootSig, m.caveats[i + j], Chain(c, key, m.identifier, m.caveats[..i + j]), kids[j])
    {
      if j > 0 {
        assert kids[j] == rest[j - 1] && (i + 1) + (j - 1) == i + j;
      }
    }
  }

  lemma ChainNext<K>(c: Crypto<K>, key: K, m: Macaroon<K>, i: nat)
    requires i < |m.caveats|
    ensures m.caveats[i..][0] == m.caveats[i] && m.caveats[i..][1..] == m.caveats[i + 1..]
    ensures Sign(c, m.caveats[i], Chain(c, key, m.identifier, m.caveats[..i])) ==
              Chain(c, key, m.identifier, m.caveats[..i + 1])
  {
    assert m.caveats[..i + 1] == m.caveats[..i] + [m.caveats[i]];
    ChainSnoc(c, key, m.identifier, m.caveats[..i], m.caveats[i]);
  }

  /** Checking the caveats from the `i`-th on: the `i`-th, and if that succeeds the others after it. */
  lemma RunCaveatsAt<K>(c: Crypto<K>, p: Policy, rootSig: K, m: Macaroon<K>, key: K, i: nat, ds: Discharges<K>,
                        depth: nat)
    requires i < |m.caveats|
    ensures var sig := Chain(c, key, m.identifier, m.caveats[..i]);
            var first := RunCaveat(c, p, rootSig, m.caveats[i], sig, ds, depth);
            var all := RunCaveats(c, p, rootSig, m.caveats[i..], sig, ds, depth);
            match first.outcome
            case Err(e) => all.outcome == Err(e)
            case Ok(_) =>
              var rest := RunCaveats(c, p, rootSig, m.caveats[i + 1..],
                                     Chain(c, key, m.identifier, m.caveats[..i + 1]), first.left, depth);
              all.outcome == rest.outcome && all.left == rest.left
  {
    ChainNext(c, key, m, i);
  }

  lemma {:induction false} CaveatsSound<K>(c: Crypto<K>, p: Policy, rootSig: K, m: Macaroon<K>, key: K, i: nat,
                                           ds: Discharges<K>, depth: nat)
    returns (kids: seq<Option<Tree<K>>>)
    requires i <= |m.caveats| && depth <= MAX_VERIFICATION_DEPTH && Keyed(ds)
    requires var r := RunCaveats(c, p, rootSig, m.caveats[i..], Chain(c, key, m.identifier, m.caveats[..i]), ds, depth);
             r.outcome.Ok?
    ensures var r := RunCaveats(c, p, rootSig, m.caveats[i..], Chain(c, key, m.identifier, m.caveats[..i]), ds, depth);
            r.outcome.value == Chain(c, key, m.identifier, m.caveats) && Consumes(ds, Forest(kids), r.left)
    ensures KidsFrom(c, p, rootSig, m, key, i, kids, MAX_VERIFICATION_DEPTH - depth)
    decreases ds.Keys, 1, |m.caveats| - i
  {
    if i == |m.caveats| {
      kids := [];
      assert m.caveats[..i] == m.caveats;
      assert Ids<K>([]) == {};
    } else {
      var cs, sig := m.caveats[i..], Chain(c, key, m.identifier, m.caveats[..i]);
      ChainNext(c, key, m, i);
      RunCaveatsAt(c, p, rootSig, m, key, i, ds, depth);
      var first := RunCaveat(c, p, rootSig, cs[0], sig, ds, depth);
      var kid := CaveatSound(c, p, rootSig, cs[0], sig, ds, depth);
      var rest := CaveatsSound(c, p, rootSig, m, key, i + 1, first.left, depth);
      kids := [kid] + rest;
      KidsFromCons(c, p, rootSig, m, key, i, kid, rest, MAX_VERIFICATION_DEPTH - depth);
      ConsumesConcat(ds, Members(kid), first.left, Forest(rest), RunCaveats(c, p, rootSig, cs, sig, ds, depth).left);
    }
  }

  // -------------------------------------------------------- completeness

  lemma {:induction false} NodeComplete<K>(c: Crypto<K>, p: Policy, rootSig: K, t: Tree<K>, ds: Discharges<K>,
                                           left: Discharges<K>, depth: nat)
    requires depth <= MAX_VERIFICATION_DEPTH
    requires Valid(c, p, rootSig, t) && HeightAtMost(t, MAX_VERIFICATION_DEPTH - depth)
    requires Consumes(ds, Descendants(t), left)
    ensures var r := RunNode(c, p, rootSig, t.m, t.key, ds, depth);
            r.outcome == Ok(()) && r.left == left
    decreases t, |t.kids| + 1
  {
    assert t.kids[0..] == t.kids && t.m.caveats[0..] == t.m.caveats;
    CaveatsComplete(c, p, rootSig, t, 0, ds, left, depth);
  }

  lemma {:induction false} CaveatComplete<K>(c: Crypto<K>, p: Policy, rootSig: K, caveat: Caveat, sig: K,
                                             kid: Option<Tree<K>>, ds: Discharges<K>, left: Discharges<K>, depth: nat)
    requires Discharged(c, p, rootSig, caveat, sig, kid)
    requires kid.Some? ==> depth < MAX_VERIFICATION_DEPTH && HeightAtMost(kid.value, MAX_VERIFICATION_DEPTH - depth - 1)
    requires Consumes(ds, Members(kid), left)
    ensures var r := RunCaveat(c, p, rootSig, caveat, sig, ds, depth);
            r.outcome == Ok(()) && r.left == left
    decreases kid
  {
    match kid
    case None =>
      assert Ids<K>([]) == {};
    case Some(t) =>
      assert Members(kid)[0] == t.m;
      ConsumesOne(ds, t, left);
      NodeComplete(c, p, rootSig, t, ds - {t.m.identifier}, left, depth + 1);
  }

  lemma {:induction false} CaveatsComplete<K>(c: Crypto<K>, p: Policy, rootSig: K, t: Tree<K>, i: nat,
                                              ds: Discharges<K>, left: Discharges<K>, depth: nat)
    requires depth <= MAX_VERIFICATION_DEPTH
    requires Valid(c, p, rootSig, t) && HeightAtMost(t, MAX_VERIFICATION_DEPTH - depth)
    requires i <= |t.kids|
    requires Consumes(ds, Forest(t.kids[i..]), left)
    ensures var r := RunCaveats(c, p, rootSig, t.m.caveats[i..], Chain(c, t.key, t.m.identifier, t.m.caveats[..i]),
                                ds, depth);
            r.outcome == Ok(Chain(c, t.key, t.m.identifier, t.m.caveats)) && r.left == left
    decreases t, |t.kids| - i
  {
    var m, key, sig := t.m, t.key, Chain(c, t.key, t.m.identifier, t.m.caveats[..i]);
    if i == |m.caveats| {
      assert m.caveats[..i] == m.caveats;
      assert Ids<K>([]) == {};
    } else {
      RunCaveatsAt(c, p, rootSig, m, key, i, ds, depth);
      var kid, rest := t.kids[i], t.kids[i + 1..];
      assert t.kids[i..][0] == kid && t.kids[i..][1..] == rest;
      var mid := ds - Ids(Members(kid));
      ConsumesConcat(ds, Members(kid), mid, Forest(rest), left);
      CaveatComplete(c, p, rootSig, m.caveats[i], sig, kid, ds, mid, depth);
      CaveatsComplete(c, p, rootSig, t, i + 1, mid, left, depth);
    }
  }
}
