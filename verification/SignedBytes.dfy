/** What a signature over bytes says about the caveats, with the MAC of two texts as the crate computes it. */
module SignedBytes {
  import opened Prelude
  import opened Crypto
  import opened Caveats
  import opened Macaroons
  import opened Verification
  import opened HonestPlans

  /** Each of two texts has its own MAC under the key, and the MAC of the 64 bytes of both is taken. */
  ghost predicate TwoTextMac(c: Crypto<Key>) {
    forall key: Key, a, b :: c.hmac2(key, a, b) == c.hmac(key, c.hmac(key, a) + c.hmac(key, b))
  }

  /** The keys and texts of the MACs that one caveat takes after the signature `sig`. */
  ghost function CaveatQueries(c: Crypto<Key>, sig: Key, caveat: Caveat): set<(Key, Bytes)> {
    match caveat
    case FirstParty(pred) => {(sig, pred)}
    case ThirdParty(id, vid, _) => {(sig, vid), (sig, id), (sig, c.hmac(sig, vid) + c.hmac(sig, id))}
  }

  /** The same for a whole chain. */
  ghost function Queries(c: Crypto<Key>, key: Key, identifier: Bytes, cs: seq<Caveat>): set<(Key, Bytes)> {
    if cs == [] then {(key, identifier)}
    else
      var n := |cs| - 1;
      Queries(c, key, identifier, cs[..n]) + CaveatQueries(c, Chain(c, key, identifier, cs[..n]), cs[n])
  }

  /** Among these MACs no two are the same, and none is the key itself. */
  ghost predicate NoCollision(c: Crypto<Key>, key: Key, queries: set<(Key, Bytes)>) {
    && (forall x, y :: x in queries && y in queries && c.hmac(x.0, x.1) == c.hmac(y.0, y.1) ==> x == y)
    && (forall x :: x in queries ==> c.hmac(x.0, x.1) != key)
  }

  /** The predicate is the two MACs that the signature of a third-party caveat is made of. */
  ghost predicate HoldsMacs(c: Crypto<Key>, sig: Key, first: Caveat, third: Caveat) {
    first.FirstParty? && third.ThirdParty? && first.pred == c.hmac(sig, third.verifierId) + c.hmac(sig, third.id)
  }

  /** The same caveat up to the location, or the one case in which two kinds of caveat are signed alike. */
  ghost predicate Alike(c: Crypto<Key>, sig: Key, a: Caveat, b: Caveat) {
    Signed(a) == Signed(b) || HoldsMacs(c, sig, a, b) || HoldsMacs(c, sig, b, a)
  }

  ghost predicate AlikeAt(c: Crypto<Key>, key: Key, identifier: Bytes, a: seq<Caveat>, b: seq<Caveat>, i: nat)
    requires i < |a| && i < |b|
  {
    Alike(c, Chain(c, key, identifier, a[..i]), a[i], b[i])
  }

  ghost predicate AllAlike(c: Crypto<Key>, key: Key, identifier: Bytes, a: seq<Caveat>, b: seq<Caveat>) {
    |a| == |b| && forall i :: 0 <= i < |a| ==> AlikeAt(c, key, identifier, a, b, i)
  }

  lemma ChainQuery(c: Crypto<Key>, key: Key, identifier: Bytes, cs: seq<Caveat>) returns (x: (Key, Bytes))
    requires TwoTextMac(c)
    ensures x in Queries(c, key, identifier, cs) && Chain(c, key, identifier, cs) == c.hmac(x.0, x.1)
    ensures cs == [] ==> x == (key, identifier)
    ensures cs != [] ==>
              var n := |cs| - 1;
              var sig := Chain(c, key, identifier, cs[..n]);
              x.0 == sig && x.1 == match cs[n]
                                   case FirstParty(pred) => pred
                                   case ThirdParty(id, vid, _) => c.hmac(sig, vid) + c.hmac(sig, id)
  {
    if cs == [] {
      x := (key, identifier);
    } else {
      var n := |cs| - 1;
      var sig := Chain(c, key, identifier, cs[..n]);
      x := match cs[n]
           case FirstParty(pred) => (sig, pred)
           case ThirdParty(id, vid, _) => (sig, c.hmac(sig, vid) + c.hmac(sig, id));
      assert x in CaveatQueries(c, sig, cs[n]);
    }
  }

  lemma SplitMacs(a1: Key, a2: Key, b1: Key, b2: Key)
    ensures a1 + a2 == b1 + b2 <==> a1 == b1 && a2 == b2
  {
    if a1 + a2 == b1 + b2 {
      assert a1 == (a1 + a2)[..32] == (b1 + b2)[..32] == b1;
      assert a2 == (a1 + a2)[32..] == (b1 + b2)[32..] == b2;
    }
  }

  /** One more caveat after the same signature. */
  lemma SignAlike(c: Crypto<Key>, key: Key, sig: Key, a: Caveat, b: Caveat)
    requires TwoTextMac(c) && NoCollision(c, key, CaveatQueries(c, sig, a) + CaveatQueries(c, sig, b))
    ensures Sign(c, a, sig) == Sign(c, b, sig) <==> Alike(c, sig, a, b)
  {
    var all := CaveatQueries(c, sig, a) + CaveatQueries(c, sig, b);
    match (a, b)
    case (FirstParty(p), FirstParty(q)) =>
      assert (sig, p) in all && (sig, q) in all;
    case (ThirdParty(id1, vid1, _), ThirdParty(id2, vid2, _)) =>
      SplitMacs(c.hmac(sig, vid1), c.hmac(sig, id1), c.hmac(sig, vid2), c.hmac(sig, id2));
      var x, y := (sig, c.hmac(sig, vid1) + c.hmac(sig, id1)), (sig, c.hmac(sig, vid2) + c.hmac(sig, id2));
      assert x in all && y in all;
      assert {(sig, vid1), (sig, vid2), (sig, id1), (sig, id2)} <= all;
      if Sign(c, a, sig) == Sign(c, b, sig) {
        assert x == y;
        assert (sig, vid1) == (sig, vid2) && (sig, id1) == (sig, id2);
      }
    case (FirstParty(p), ThirdParty(id, vid, _)) =>
      assert (sig, p) in all && (sig, c.hmac(sig, vid) + c.hmac(sig, id)) in all;
    case (ThirdParty(id, vid, _), FirstParty(p)) =>
      assert (sig, p) in all && (sig, c.hmac(sig, vid) + c.hmac(sig, id)) in all;
  }

  lemma NoCollisionIn(c: Crypto<Key>, key: Key, queries: set<(Key, Bytes)>, some: set<(Key, Bytes)>)
    requires NoCollision(c, key, queries) && some <= queries
    ensures NoCollision(c, key, some)
  {
  }

  lemma AlikeAtInit(c: Crypto<Key>, key: Key, identifier: Bytes, a: seq<Caveat>, b: seq<Caveat>, i: nat)
    requires |a| == |b| && i < |a| - 1
    ensures var n := |a| - 1;
            AlikeAt(c, key, identifier, a[..n], b[..n], i) <==> AlikeAt(c, key, identifier, a, b, i)
  {
    assert a[..|a| - 1][..i] == a[..i];
  }

  lemma AllAlikeInit(c: Crypto<Key>, key: Key, identifier: Bytes, a: seq<Caveat>, b: seq<Caveat>)
    requires |a| == |b| > 0
    ensures var n := |a| - 1;
            AllAlike(c, key, identifier, a, b) <==>
              AllAlike(c, key, identifier, a[..n], b[..n]) && AlikeAt(c, key, identifier, a, b, n)
  {
    var n := |a| - 1;
    forall i: nat | i < n
      ensures AlikeAt(c, key, identifier, a[..n], b[..n], i) <==> AlikeAt(c, key, identifier, a, b, i)
    {
      AlikeAtInit(c, key, identifier, a, b, i);
    }
    if AllAlike(c, key, identifier, a[..n], b[..n]) && AlikeAt(c, key, identifier, a, b, n) {
      forall i: nat | i < |a|
        ensures AlikeAt(c, key, identifier, a, b, i)
      {
        assert i < n ==> AlikeAt(c, key, identifier, a[..n], b[..n], i);
      }
    }
  }

  /**
   As long as no two of the MACs in question collide, two chains under one key agree exactly when the identifiers
   agree, and each pair of caveats agrees up to the location or consists of a third-party caveat and a first-party
   one whose predicate is its two MACs.
   */
  lemma {:induction false} ChainExact(c: Crypto<Key>, key: Key, id1: Bytes, cs1: seq<Caveat>, id2: Bytes,
                                      cs2: seq<Caveat>)
    requires TwoTextMac(c)
    requires NoCollision(c, key, Queries(c, key, id1, cs1) + Queries(c, key, id2, cs2))
    ensures Chain(c, key, id1, cs1) == Chain(c, key, id2, cs2) <==> id1 == id2 && AllAlike(c, key, id1, cs1, cs2)
    decreases |cs1|
  {
    var all := Queries(c, key, id1, cs1) + Queries(c, key, id2, cs2);
    var x := ChainQuery(c, key, id1, cs1);
    var y := ChainQuery(c, key, id2, cs2);
    if cs1 == [] || cs2 == [] {
      if |cs1| != |cs2| {
        var longer, id := if cs1 == [] then cs2 else cs1, if cs1 == [] then id2 else id1;
        var init := longer[..|longer| - 1];
        var z := ChainQuery(c, key, id, init);
        assert z in all;
        assert x != y;
      }
    } else {
      var n1, n2 := |cs1| - 1, |cs2| - 1;
      var s1, s2 := Chain(c, key, id1, cs1[..n1]), Chain(c, key, id2, cs2[..n2]);
      NoCollisionIn(c, key, all, Queries(c, key, id1, cs1[..n1]) + Queries(c, key, id2, cs2[..n2]));
      ChainExact(c, key, id1, cs1[..n1], id2, cs2[..n2]);
      if s1 == s2 {
        NoCollisionIn(c, key, all, CaveatQueries(c, s1, cs1[n1]) + CaveatQueries(c, s2, cs2[n2]));
        SignAlike(c, key, s1, cs1[n1], cs2[n2]);
      } else {
        assert x != y;
      }
      if n1 == n2 {
        AllAlikeInit(c, key, id1, cs1, cs2);
      }
    }
  }

  /** No predicate has the length of two MACs. */
  predicate NoMacs(cs: seq<Caveat>) {
    forall i :: 0 <= i < |cs| && cs[i].FirstParty? ==> |cs[i].pred| != 64
  }

  lemma AlikeWithoutMacs(c: Crypto<Key>, sig: Key, a: Caveat, b: Caveat)
    requires a.FirstParty? ==> |a.pred| != 64
    requires b.FirstParty? ==> |b.pred| != 64
    ensures Alike(c, sig, a, b) <==> Signed(a) == Signed(b)
  {
  }

  /** Without predicates of 64 bytes, a chain determines the identifier and the caveats up to third-party locations. */
  lemma ChainInjective(c: Crypto<Key>, key: Key, id1: Bytes, cs1: seq<Caveat>, id2: Bytes, cs2: seq<Caveat>)
    requires TwoTextMac(c) && NoMacs(cs1) && NoMacs(cs2)
    requires NoCollision(c, key, Queries(c, key, id1, cs1) + Queries(c, key, id2, cs2))
    ensures Chain(c, key, id1, cs1) == Chain(c, key, id2, cs2) <==> id1 == id2 && SameSigned(cs1, cs2)
  {
    ChainExact(c, key, id1, cs1, id2, cs2);
    if |cs1| == |cs2| {
      AllAlikeWithoutMacs(c, key, id1, cs1, cs2);
    }
  }

  lemma AllAlikeWithoutMacs(c: Crypto<Key>, key: Key, identifier: Bytes, a: seq<Caveat>, b: seq<Caveat>)
    requires |a| == |b| && NoMacs(a) && NoMacs(b)
    ensures AllAlike(c, key, identifier, a, b) <==> SameSigned(a, b)
  {
    forall i: nat | i < |a|
      ensures AlikeAt(c, key, identifier, a, b, i) <==> Signed(a[i]) == Signed(b[i])
    {
      AlikeWithoutMacs(c, Chain(c, key, identifier, a[..i]), a[i], b[i]);
    }
  }

  // ------------------------------------- two kinds of caveat, one signature

  lemma OneStep(c: Crypto<Key>, key: Key, identifier: Bytes, step: Step<Key>)
    requires Created(c, None, key, identifier).Ok?
    ensures Build(c, key, Plan(None, identifier, [step])) == Perform(c, Created(c, None, key, identifier).value, step)
  {
    assert [step][1..] == [];
    var m := Perform(c, Created(c, None, key, identifier).value, step);
    assert m.Ok? ==> PerformAll(c, m.value, []) == m;
  }

  lemma OnePlan(c: Crypto<Key>, p: Policy, key: Key, plan: Plan<Key>)
    requires DecryptsEncrypted(c) && Succeeds(c, key, plan)
    requires |Issued(c, plan.steps)| <= 1 && PlanAccepted(p, plan.steps)
    requires NestedAtMost(plan.steps, MAX_VERIFICATION_DEPTH)
    ensures var m := Build(c, key, plan).value;
            Verdict(c, p, m, key, BindAll(c, m.signature, Issued(c, plan.steps))) == Ok(())
  {
    HonestVerdict(c, p, key, plan, BindAll(c, Build(c, key, plan).value.signature, Issued(c, plan.steps)));
  }

  /**
   The exception does occur: of two macaroons made by successful calls, one has a third-party caveat and the other
   a first-party caveat; both are accepted under the same key and policy, and their signatures are the same.
   */
  lemma KindsSignedAlike(c: Crypto<Key>, key: Key, identifier: Bytes, id: Bytes, caveatKey: Key, nonce: Nonce)
    returns (p: Policy, plan1: Plan<Key>, plan2: Plan<Key>)
    requires TwoTextMac(c) && DecryptsEncrypted(c)
    requires identifier != [] && FitsField(identifier) && id != [] && FitsField(id)
    ensures Succeeds(c, key, plan1) && Succeeds(c, key, plan2)
    ensures var m1, m2 := Build(c, key, plan1).value, Build(c, key, plan2).value;
            && Verdict(c, p, m1, key, BindAll(c, m1.signature, Issued(c, plan1.steps))) == Ok(())
            && Verdict(c, p, m2, key, BindAll(c, m2.signature, Issued(c, plan2.steps))) == Ok(())
            && m1.signature == m2.signature && m1.identifier == m2.identifier
            && !SameSigned(m1.caveats, m2.caveats)
  {
    var sig := c.hmac(key, identifier);
    var macs := c.hmac(sig, c.encrypt(sig, caveatKey, nonce)) + c.hmac(sig, id);
    var discharge := Plan(None, id, []);
    var third, first := AddThirdParty([], caveatKey, Some(nonce), discharge), AddFirstParty(macs);
    p, plan1, plan2 := Policy({macs}, []), Plan(None, identifier, [third]), Plan(None, identifier, [first]);
    OneStep(c, key, identifier, third);
    OneStep(c, key, identifier, first);
    assert plan1.steps[1..] == [] && plan2.steps[1..] == [];
    assert Succeeds(c, caveatKey, discharge);
    OnePlan(c, p, key, plan1);
    OnePlan(c, p, key, plan2);
    var m1, m2 := Build(c, key, plan1).value, Build(c, key, plan2).value;
    assert m1.caveats[0].ThirdParty? && m2.caveats[0].FirstParty?;
  }
}
