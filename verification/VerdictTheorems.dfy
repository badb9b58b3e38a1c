/** What it means that `verify` answers Ok. */
module VerdictTheorems {
  import opened Prelude
  import opened Crypto
  import opened Caveats
  import opened Macaroons
  import opened Verification
  import opened DischargeTrees

  /** `t` shows that `m` may be accepted, and uses exactly the given discharges. */
  ghost predicate Proves<K>(c: Crypto<K>, p: Policy, m: Macaroon<K>, key: K, discharges: seq<Macaroon<K>>, t: Tree<K>) {
    Shows(c, p, m.signature, m, key, 0, t) && multiset(Descendants(t)) == multiset(discharges)
  }

  // -------------------------------------------- distinct macaroons as bags

  lemma {:induction false} CountOne<K>(ms: seq<Macaroon<K>>, m: Macaroon<K>)
    requires Distinct(ms)
    ensures multiset(ms)[m] == if m in ms then 1 else 0
  {
    if ms != [] {
      var n := |ms| - 1;
      assert ms == ms[..n] + [ms[n]];
      CountOne(ms[..n], m);
    }
  }

  lemma CountTwo<T>(s: seq<T>, i: nat, j: nat)
    requires i < j < |s| && s[i] == s[j]
    ensures multiset(s)[s[i]] >= 2
  {
    assert s == s[..j] + s[j..];
    assert s[..j][i] in multiset(s[..j]) && s[j..][0] in multiset(s[j..]);
  }

  lemma SameBag<K>(a: seq<Macaroon<K>>, b: seq<Macaroon<K>>)
    requires Distinct(a) && Distinct(b)
    requires forall m :: m in a <==> m in b
    ensures multiset(a) == multiset(b)
  {
    forall m
      ensures multiset(a)[m] == multiset(b)[m]
    {
      CountOne(a, m);
      CountOne(b, m);
    }
  }

  lemma DistinctPermuted<K>(a: seq<Macaroon<K>>, b: seq<Macaroon<K>>)
    requires Distinct(a) && multiset(a) == multiset(b)
    ensures Distinct(b)
    ensures forall m :: m in a <==> m in b
  {
    assert forall m :: m in a <==> m in multiset(a);
    assert forall m :: m in b <==> m in multiset(b);
    forall i, j | 0 <= i < j < |b|
      ensures b[i].identifier != b[j].identifier
    {
      if b[i].identifier == b[j].identifier {
        assert b[i] in a && b[j] in a;
        CountTwo(b, i, j);
        CountOne(a, b[i]);
      }
    }
  }

  lemma {:induction false} ByIdDistinct<K>(ms: seq<Macaroon<K>>)
    requires Distinct(ms)
    ensures Keyed(ById(ms)) && Available(ById(ms), ms)
    ensures ById(ms).Keys == Ids(ms)
  {
    forall id
      ensures id in ById(ms) <==> id in Ids(ms)
      ensures id in ById(ms) ==> ById(ms)[id].identifier == id
    {
      ByIdKeys(ms, id);
    }
    forall i | 0 <= i < |ms|
      ensures ms[i].identifier in ById(ms) && ById(ms)[ms[i].identifier] == ms[i]
    {
      ByIdKeys(ms, ms[i].identifier);
      var j :| 0 <= j < |ms| && ms[j] == ById(ms)[ms[i].identifier];
      assert ms[j].identifier == ms[i].identifier;
    }
  }

  /** A list uses up the whole map of distinct discharges exactly when it is a permutation of them. */
  lemma ConsumesAll<K>(discharges: seq<Macaroon<K>>, ms: seq<Macaroon<K>>)
    requires Distinct(discharges)
    ensures Consumes(ById(discharges), ms, map[]) <==> multiset(ms) == multiset(discharges)
  {
    var ds := ById(discharges);
    ByIdDistinct(discharges);
    if Consumes(ds, ms, map[]) {
      assert Ids(discharges) <= Ids(ms) by {
        assert forall id :: id in ds && id !in Ids(ms) ==> id in ds - Ids(ms);
      }
      forall m
        ensures m in ms <==> m in discharges
      {
        if m in ms {
          ByIdKeys(discharges, m.identifier);
        }
        if i :| 0 <= i < |discharges| && discharges[i] == m {
          assert discharges[i].identifier in Ids(ms);
        }
      }
      SameBag(ms, discharges);
    }
    if multiset(ms) == multiset(discharges) {
      DistinctPermuted(discharges, ms);
      forall i | 0 <= i < |ms|
        ensures ms[i].identifier in ds && ds[ms[i].identifier] == ms[i]
      {
        assert ms[i] in discharges;
      }
      assert Ids(discharges) <= Ids(ms) by {
        forall i | 0 <= i < |discharges|
          ensures discharges[i].identifier in Ids(ms)
        {
          assert discharges[i] in ms;
        }
      }
      assert ds - Ids(ms) == map[];
    }
  }

  // ------------------------------------------------------- main theorems

  lemma VerdictSound<K>(c: Crypto<K>, p: Policy, m: Macaroon<K>, key: K, discharges: seq<Macaroon<K>>)
    returns (t: Tree<K>)
    requires Verdict(c, p, m, key, discharges) == Ok(())
    ensures Distinct(discharges) && Proves(c, p, m, key, discharges, t)
  {
    ByIdDistinct(discharges);
    t := NodeSound(c, p, m.signature, m, key, ById(discharges), 0);
    ConsumesAll(discharges, Descendants(t));
  }

  lemma VerdictComplete<K>(c: Crypto<K>, p: Policy, m: Macaroon<K>, key: K, discharges: seq<Macaroon<K>>, t: Tree<K>)
    requires Distinct(discharges) && Proves(c, p, m, key, discharges, t)
    ensures Verdict(c, p, m, key, discharges) == Ok(())
  {
    ConsumesAll(discharges, Descendants(t));
    NodeComplete(c, p, m.signature, t, ById(discharges), map[], 0);
  }

  /** Verification accepts exactly the macaroons with a valid discharge tree. */
  lemma VerdictExact<K>(c: Crypto<K>, p: Policy, m: Macaroon<K>, key: K, discharges: seq<Macaroon<K>>)
    ensures Verdict(c, p, m, key, discharges) == Ok(()) <==>
              Distinct(discharges) && exists t :: Proves(c, p, m, key, discharges, t)
  {
    if Verdict(c, p, m, key, discharges) == Ok(()) {
      var t := VerdictSound(c, p, m, key, discharges);
    }
    if Distinct(discharges) {
      if t :| Proves(c, p, m, key, discharges, t) {
        VerdictComplete(c, p, m, key, discharges, t);
      }
    }
  }

  /** The order in which discharges are supplied does not matter. */
  lemma VerdictPermuted<K>(c: Crypto<K>, p: Policy, m: Macaroon<K>, key: K, a: seq<Macaroon<K>>, b: seq<Macaroon<K>>)
    requires multiset(a) == multiset(b)
    ensures Verdict(c, p, m, key, a) == Ok(()) <==> Verdict(c, p, m, key, b) == Ok(())
  {
    VerdictExact(c, p, m, key, a);
    VerdictExact(c, p, m, key, b);
    if Distinct(a) {
      DistinctPermuted(a, b);
    }
    if Distinct(b) {
      DistinctPermuted(b, a);
    }
    assert forall t :: Proves(c, p, m, key, a, t) <==> Proves(c, p, m, key, b, t);
  }

  /** Every call after the first removed a discharge: the number of calls does not depend on the depth limit. */
  lemma {:induction false} WorkBound<K>(c: Crypto<K>, p: Policy, rootSig: K, m: Macaroon<K>, key: K,
                                        ds: Discharges<K>, depth: nat)
    ensures var r := RunNode(c, p, rootSig, m, key, ds, depth); r.entered == 1 + |ds| - |r.left|
    decreases ds.Keys, 2, 0
  {
    CaveatsWorkBound(c, p, rootSig, m.caveats, c.hmac(key, m.identifier), ds, depth);
  }

  lemma {:induction false} CaveatsWorkBound<K>(c: Crypto<K>, p: Policy, rootSig: K, cs: seq<Caveat>, sig: K,
                                               ds: Discharges<K>, depth: nat)
    ensures var r := RunCaveats(c, p, rootSig, cs, sig, ds, depth); r.entered == |ds| - |r.left|
    decreases ds.Keys, 1, |cs|
  {
    if cs != [] {
      var first := RunCaveat(c, p, rootSig, cs[0], sig, ds, depth);
      if cs[0].ThirdParty? && c.decrypt(sig, cs[0].verifierId).Some? && cs[0].id in ds {
        var less := ds - {cs[0].id};
        assert less.Keys == ds.Keys - {cs[0].id};
        assert |less| == |ds| - 1;
        WorkBound(c, p, rootSig, ds[cs[0].id], c.decrypt(sig, cs[0].verifierId).value, less, depth + 1);
      }
      if first.outcome.Ok? {
        CaveatsWorkBound(c, p, rootSig, cs[1..], Sign(c, cs[0], sig), first.left, depth);
      }
    }
  }

  // --------------------------------------- which discharges were checked

  /** The ids of the third-party caveats among `cs`, with repetitions. */
  ghost function CaveatIds(cs: seq<Caveat>): multiset<Bytes> {
    if cs == [] then multiset{}
    else (if cs[0].ThirdParty? then multiset{cs[0].id} else multiset{}) + CaveatIds(cs[1..])
  }

  ghost function IdOf<K>(m: Macaroon<K>): multiset<Bytes> {
    multiset{m.identifier}
  }

  ghost function CaveatIdsOf<K>(m: Macaroon<K>): multiset<Bytes> {
    CaveatIds(m.caveats)
  }

  ghost function Sum<K>(f: Macaroon<K> -> multiset<Bytes>, ms: seq<Macaroon<K>>): multiset<Bytes> {
    if ms == [] then multiset{} else f(ms[0]) + Sum(f, ms[1..])
  }

  lemma {:induction false} SumConcat<K>(f: Macaroon<K> -> multiset<Bytes>, a: seq<Macaroon<K>>, b: seq<Macaroon<K>>)
    ensures Sum(f, a + b) == Sum(f, a) + Sum(f, b)
  {
    if a == [] {
      assert a + b == b;
    } else {
      assert (a + b)[1..] == a[1..] + b;
      SumConcat(f, a[1..], b);
    }
  }

  lemma SumWithout<K>(f: Macaroon<K> -> multiset<Bytes>, ms: seq<Macaroon<K>>, i: nat)
    requires i < |ms|
    ensures Sum(f, ms) == f(ms[i]) + Sum(f, Without(ms, i))
  {
    var tail := [ms[i]] + ms[i + 1..];
    assert ms == ms[..i] + tail;
    assert tail[1..] == ms[i + 1..];
    SumConcat(f, ms[..i], tail);
    SumConcat(f, ms[..i], ms[i + 1..]);
  }

  lemma {:induction false} SumPermuted<K>(f: Macaroon<K> -> multiset<Bytes>, a: seq<Macaroon<K>>, b: seq<Macaroon<K>>)
    requires multiset(a) == multiset(b)
    ensures Sum(f, a) == Sum(f, b)
    decreases |a|
  {
    if a == [] {
      assert |multiset(b)| == |b|;
    } else {
      var i := SameElement(a, b);
      SumWithout(f, a, 0);
      SumWithout(f, b, i);
      SumPermuted(f, Without(a, 0), Without(b, i));
    }
  }

  lemma {:induction false} TreeBalance<K>(c: Crypto<K>, p: Policy, rootSig: K, t: Tree<K>)
    requires Valid(c, p, rootSig, t)
    ensures CaveatIds(t.m.caveats) + Sum(CaveatIdsOf, Descendants(t)) == Sum(IdOf, Descendants(t))
    decreases t, |t.kids| + 1
  {
    assert t.kids[0..] == t.kids && t.m.caveats[0..] == t.m.caveats;
    ForestBalance(c, p, rootSig, t, 0);
  }

  lemma {:induction false} ForestBalance<K>(c: Crypto<K>, p: Policy, rootSig: K, t: Tree<K>, i: nat)
    requires Valid(c, p, rootSig, t) && i <= |t.kids|
    ensures CaveatIds(t.m.caveats[i..]) + Sum(CaveatIdsOf, Forest(t.kids[i..])) == Sum(IdOf, Forest(t.kids[i..]))
    decreases t, |t.kids| - i
  {
    if i < |t.kids| {
      var kid, rest := t.kids[i], Forest(t.kids[i + 1..]);
      assert t.kids[i..][0] == kid && t.kids[i..][1..] == t.kids[i + 1..];
      assert t.m.caveats[i..][0] == t.m.caveats[i] && t.m.caveats[i..][1..] == t.m.caveats[i + 1..];
      ForestBalance(c, p, rootSig, t, i + 1);
      SumConcat(CaveatIdsOf, Members(kid), rest);
      SumConcat(IdOf, Members(kid), rest);
      if kid.Some? {
        TreeBalance(c, p, rootSig, kid.value);
        assert Members(kid)[0] == kid.value.m && Members(kid)[1..] == Descendants(kid.value);
      }
    }
  }

  lemma {:induction false} IdsOnce<K>(ms: seq<Macaroon<K>>, id: Bytes)
    requires Distinct(ms)
    ensures Sum(IdOf, ms)[id] == if id in Ids(ms) then 1 else 0
    ensures |Sum(IdOf, ms)| == |ms|
  {
    if ms != [] {
      IdsOnce(ms[1..], id);
      assert forall i :: 0 <= i < |ms| - 1 ==> ms[1..][i] == ms[i + 1];
      if id in Ids(ms) {
        var i :| 0 <= i < |ms| && ms[i].identifier == id;
        assert i > 0 ==> ms[1..][i - 1].identifier == id;
      }
      assert ms[0].identifier !in Ids(ms[1..]);
      if id in Ids(ms[1..]) {
        var i :| 0 <= i < |ms| - 1 && ms[1..][i].identifier == id;
        assert ms[i + 1].identifier == id;
      }
      assert id == ms[0].identifier ==> ms[0].identifier in Ids(ms);
    }
  }

  /** Every third-party caveat names a macaroon further down the list. */
  ghost predicate RefersForward<K>(ms: seq<Macaroon<K>>) {
    forall i, k :: 0 <= i < |ms| && 0 <= k < |ms[i].caveats| && ms[i].caveats[k].ThirdParty? ==>
                     ms[i].caveats[k].id in Ids(ms[i + 1..])
  }

  lemma IdsConcat<K>(a: seq<Macaroon<K>>, b: seq<Macaroon<K>>)
    ensures Ids(a + b) == Ids(a) + Ids(b)
  {
    var ab := a + b;
    assert forall i :: 0 <= i < |a| ==> ab[i] == a[i];
    assert forall i :: 0 <= i < |b| ==> ab[|a| + i] == b[i];
  }

  lemma RefersForwardConcat<K>(a: seq<Macaroon<K>>, b: seq<Macaroon<K>>)
    requires RefersForward(a) && RefersForward(b)
    ensures RefersForward(a + b)
  {
    var ab := a + b;
    forall i, k | 0 <= i < |ab| && 0 <= k < |ab[i].caveats| && ab[i].caveats[k].ThirdParty?
      ensures ab[i].caveats[k].id in Ids(ab[i + 1..])
    {
      if i < |a| {
        assert ab[i] == a[i] && ab[i + 1..] == a[i + 1..] + b;
        IdsConcat(a[i + 1..], b);
      } else {
        assert ab[i] == b[i - |a|] && ab[i + 1..] == b[i - |a| + 1..];
      }
    }
  }

  lemma {:induction false} TreeRefersForward<K>(c: Crypto<K>, p: Policy, rootSig: K, t: Tree<K>)
    requires Valid(c, p, rootSig, t)
    ensures RefersForward([t.m] + Descendants(t))
    decreases t, |t.kids| + 1
  {
    assert t.kids[0..] == t.kids;
    ForestRefersForward(c, p, rootSig, t, 0);
    var all := [t.m] + Descendants(t);
    assert all[1..] == Descendants(t);
    forall i, k | 0 <= i < |all| && 0 <= k < |all[i].caveats| && all[i].caveats[k].ThirdParty?
      ensures all[i].caveats[k].id in Ids(all[i + 1..])
    {
      if i > 0 {
        assert all[i] == Descendants(t)[i - 1] && all[i + 1..] == Descendants(t)[i - 1 + 1..];
      }
    }
  }

  lemma {:induction false} ForestRefersForward<K>(c: Crypto<K>, p: Policy, rootSig: K, t: Tree<K>, i: nat)
    requires Valid(c, p, rootSig, t) && i <= |t.kids|
    ensures RefersForward(Forest(t.kids[i..]))
    ensures forall k :: i <= k < |t.kids| && t.m.caveats[k].ThirdParty? ==>
              t.m.caveats[k].id in Ids(Forest(t.kids[i..]))
    decreases t, |t.kids| - i
  {
    if i < |t.kids| {
      var kid, rest := t.kids[i], Forest(t.kids[i + 1..]);
      assert t.kids[i..][0] == kid && t.kids[i..][1..] == t.kids[i + 1..];
      ForestRefersForward(c, p, rootSig, t, i + 1);
      if kid.Some? {
        TreeRefersForward(c, p, rootSig, kid.value);
        assert Members(kid)[0].identifier in Ids(Members(kid));
      }
      RefersForwardConcat(Members(kid), rest);
      IdsConcat(Members(kid), rest);
    }
  }

  /**
   When verification succeeds, the third-party caveats of the macaroon and of all its discharges name each
   discharge exactly once and nothing else, and the discharges can be ordered so that every caveat names a
   later one: no discharge leads back to itself.
   */
  lemma VerifiedDischarges<K>(c: Crypto<K>, p: Policy, m: Macaroon<K>, key: K, discharges: seq<Macaroon<K>>)
    requires Verdict(c, p, m, key, discharges) == Ok(())
    ensures forall id :: Sum(CaveatIdsOf, [m] + discharges)[id] == if id in Ids(discharges) then 1 else 0
    ensures |Sum(CaveatIdsOf, [m] + discharges)| == |discharges|
    ensures exists order :: multiset(order) == multiset(discharges) && RefersForward([m] + order)
  {
    var t := VerdictSound(c, p, m, key, discharges);
    TreeBalance(c, p, m.signature, t);
    TreeRefersForward(c, p, m.signature, t);
    SumPermuted(CaveatIdsOf, Descendants(t), discharges);
    SumPermuted(IdOf, Descendants(t), discharges);
    SumConcat(CaveatIdsOf, [m], discharges);
    assert Sum(CaveatIdsOf, [m] + discharges) == Sum(IdOf, discharges);
    IdsOnce(discharges, m.identifier);
    forall id
      ensures Sum(IdOf, discharges)[id] == if id in Ids(discharges) then 1 else 0
    {
      IdsOnce(discharges, id);
    }
  }

  // -------------------------------------------------- more satisfiers

  /** The policy after some calls that add predicates. */
  function After(p: Policy, calls: seq<SatisfierCall>): Policy
    decreases |calls|
  {
    if calls == [] then p else After(p.With(calls[0]), calls[1..])
  }

  lemma WithAccepts(p: Policy, call: SatisfierCall, pred: Bytes)
    ensures p.With(call).Accepts(pred) <==>
              p.Accepts(pred) || (if call.SatisfyExact? then call.b == pred else call.f(pred))
  {
    if call.SatisfyGeneral? {
      var general := p.With(call).general;
      assert forall i :: 0 <= i < |p.general| ==> general[i] == p.general[i];
      assert general[|p.general|] == call.f;
    }
  }

  lemma {:induction false} AfterAccepts(p: Policy, calls: seq<SatisfierCall>, pred: Bytes)
    requires p.Accepts(pred)
    ensures After(p, calls).Accepts(pred)
    decreases |calls|
  {
    if calls != [] {
      WithAccepts(p, calls[0], pred);
      AfterAccepts(p.With(calls[0]), calls[1..], pred);
    }
  }

  lemma {:induction false} ValidMonotone<K>(c: Crypto<K>, p: Policy, q: Policy, rootSig: K, t: Tree<K>)
    requires forall pred :: p.Accepts(pred) ==> q.Accepts(pred)
    requires Valid(c, p, rootSig, t)
    ensures Valid(c, q, rootSig, t)
  {
    forall i | 0 <= i < |t.kids|
      ensures Discharged(c, q, rootSig, t.m.caveats[i], Chain(c, t.key, t.m.identifier, t.m.caveats[..i]), t.kids[i])
    {
      assert Discharged(c, p, rootSig, t.m.caveats[i], Chain(c, t.key, t.m.identifier, t.m.caveats[..i]), t.kids[i]);
      if t.kids[i].Some? {
        ValidMonotone(c, p, q, rootSig, t.kids[i].value);
      }
    }
  }

  /** Adding predicates to a verifier never makes it reject what it accepted. */
  lemma SatisfiersOnlyWiden<K>(c: Crypto<K>, p: Policy, calls: seq<SatisfierCall>, m: Macaroon<K>, key: K,
                               discharges: seq<Macaroon<K>>)
    requires Verdict(c, p, m, key, discharges) == Ok(())
    ensures Verdict(c, After(p, calls), m, key, discharges) == Ok(())
  {
    var q := After(p, calls);
    var t := VerdictSound(c, p, m, key, discharges);
    forall pred | p.Accepts(pred)
      ensures q.Accepts(pred)
    {
      AfterAccepts(p, calls, pred);
    }
    ValidMonotone(c, p, q, m.signature, t);
    VerdictComplete(c, q, m, key, discharges, t);
  }
}
