/** Macaroons built by the calls of the crate: when they verify, and what one more caveat does to them. */
module HonestPlans {
  import opened Prelude
  import opened Crypto
  import opened Caveats
  import opened Macaroons
  import opened Verification
  import opened DischargeTrees
  import opened VerdictTheorems

  /** A run of calls: create a macaroon, then add caveats to it one after the other. */
  datatype Plan<K> = Plan(location: Option<Str>, identifier: Bytes, steps: seq<Step<K>>)

  /** A third-party caveat comes with the plan by which the third party makes the discharge, under the caveat key. */
  datatype Step<K> =
    | AddFirstParty(pred: Bytes)
    | AddThirdParty(location: Str, caveatKey: K, nonce: Option<Nonce>, discharge: Plan<K>)

  function Perform<K>(c: Crypto<K>, m: Macaroon<K>, step: Step<K>): Result<Macaroon<K>> {
    match step
    case AddFirstParty(pred) => WithFirstParty(c, m, pred)
    case AddThirdParty(location, caveatKey, nonce, discharge) =>
      WithThirdParty(c, m, location, caveatKey, discharge.identifier, nonce)
  }

  function PerformAll<K>(c: Crypto<K>, m: Macaroon<K>, steps: seq<Step<K>>): Result<Macaroon<K>>
    decreases |steps|
  {
    if steps == [] then Ok(m)
    else
      var next :- Perform(c, m, steps[0]);
      PerformAll(c, next, steps[1..])
  }

  function Build<K>(c: Crypto<K>, key: K, plan: Plan<K>): Result<Macaroon<K>> {
    var m :- Created(c, plan.location, key, plan.identifier);
    PerformAll(c, m, plan.steps)
  }

  /** All calls succeed, those of the third parties included. */
  ghost predicate Succeeds<K>(c: Crypto<K>, key: K, plan: Plan<K>)
    decreases plan
  {
    Build(c, key, plan).Ok? && StepsSucceed(c, plan.steps)
  }

  ghost predicate StepsSucceed<K>(c: Crypto<K>, steps: seq<Step<K>>)
    decreases steps
  {
    forall i :: 0 <= i < |steps| && steps[i].AddThirdParty? ==> Succeeds(c, steps[i].caveatKey, steps[i].discharge)
  }

  /** The discharges made for a plan, nested ones included, not bound yet. */
  ghost function Issued<K>(c: Crypto<K>, steps: seq<Step<K>>): seq<Macaroon<K>>
    requires StepsSucceed(c, steps)
    decreases steps
  {
    if steps == [] then [] else IssuedFor(c, steps[0]) + Issued(c, steps[1..])
  }

  ghost function IssuedFor<K>(c: Crypto<K>, step: Step<K>): seq<Macaroon<K>>
    requires step.AddThirdParty? ==> Succeeds(c, step.caveatKey, step.discharge)
    decreases step
  {
    match step
    case AddFirstParty(_) => []
    case AddThirdParty(_, caveatKey, _, discharge) =>
      [Build(c, caveatKey, discharge).value] + Issued(c, discharge.steps)
  }

  ghost function BindAll<K>(c: Crypto<K>, rootSig: K, ms: seq<Macaroon<K>>): (r: seq<Macaroon<K>>)
    ensures |r| == |ms|
    ensures forall i :: 0 <= i < |ms| ==> r[i] == Bound(c, rootSig, ms[i])
  {
    if ms == [] then [] else [Bound(c, rootSig, ms[0])] + BindAll(c, rootSig, ms[1..])
  }

  /** Every predicate in the plan, at any depth, is accepted. */
  ghost predicate PlanAccepted<K>(p: Policy, steps: seq<Step<K>>)
    decreases steps
  {
    forall i :: 0 <= i < |steps| ==> StepAccepted(p, steps[i])
  }

  ghost predicate StepAccepted<K>(p: Policy, step: Step<K>)
    decreases step
  {
    match step
    case AddFirstParty(pred) => p.Accepts(pred)
    case AddThirdParty(_, _, _, discharge) => PlanAccepted(p, discharge.steps)
  }

  /** Discharges are nested at most `h` deep. */
  ghost predicate NestedAtMost<K>(steps: seq<Step<K>>, h: int)
    decreases steps
  {
    h >= 0 && forall i :: 0 <= i < |steps| && steps[i].AddThirdParty? ==> NestedAtMost(steps[i].discharge.steps, h - 1)
  }

  // ------------------------------------------- what the calls construct

  /** The caveat that a step adds after the signature `sig`. */
  ghost function CaveatOf<K>(c: Crypto<K>, sig: K, step: Step<K>): Caveat
    requires step.AddThirdParty? ==> step.nonce.Some?
  {
    match step
    case AddFirstParty(pred) => FirstParty(pred)
    case AddThirdParty(location, caveatKey, nonce, discharge) =>
      ThirdParty(discharge.identifier, c.encrypt(sig, caveatKey, nonce.value), location)
  }

  /** The caveats of `m` are those of the steps, each made from the chain value before it. */
  ghost predicate Follows<K>(c: Crypto<K>, key: K, m: Macaroon<K>, done: nat, steps: seq<Step<K>>) {
    && done + |steps| == |m.caveats|
    && (forall i :: 0 <= i < |steps| ==>
          && (steps[i].AddThirdParty? ==> steps[i].nonce.Some?)
          && m.caveats[done + i] == CaveatOf(c, Chain(c, key, m.identifier, m.caveats[..done + i]), steps[i]))
  }

  lemma FollowsCons<K>(c: Crypto<K>, key: K, m: Macaroon<K>, done: nat, steps: seq<Step<K>>)
    requires steps != [] && done < |m.caveats| && Follows(c, key, m, done + 1, steps[1..])
    requires steps[0].AddThirdParty? ==> steps[0].nonce.Some?
    requires m.caveats[done] == CaveatOf(c, Chain(c, key, m.identifier, m.caveats[..done]), steps[0])
    ensures Follows(c, key, m, done, steps)
  {
    forall i | 0 <= i < |steps|
      ensures steps[i].AddThirdParty? ==> steps[i].nonce.Some?
      ensures m.caveats[done + i] == CaveatOf(c, Chain(c, key, m.identifier, m.caveats[..done + i]), steps[i])
    {
      if i > 0 {
        assert steps[i] == steps[1..][i - 1] && done + 1 + (i - 1) == done + i;
      }
    }
  }

  lemma PerformFollows<K>(c: Crypto<K>, key: K, m: Macaroon<K>, step: Step<K>)
    requires m.signature == Chain(c, key, m.identifier, m.caveats)
    requires Perform(c, m, step).Ok?
    ensures step.AddThirdParty? ==> step.nonce.Some?
    ensures var next := Perform(c, m, step).value;
            && next.identifier == m.identifier && next.location == m.location
            && next.caveats == m.caveats + [CaveatOf(c, m.signature, step)]
            && next.signature == Chain(c, key, m.identifier, next.caveats)
  {
    match step
    case AddFirstParty(pred) =>
      assert Perform(c, m, step).value == Extended(c, m, FirstParty(pred));
      ChainSnoc(c, key, m.identifier, m.caveats, FirstParty(pred));
    case AddThirdParty(location, caveatKey, nonce, discharge) =>
      var caveat := CaveatOf(c, m.signature, step);
      assert Perform(c, m, step).value == Extended(c, m, caveat);
      ChainSnoc(c, key, m.identifier, m.caveats, caveat);
  }

  lemma {:induction false} PerformAllFollows<K>(c: Crypto<K>, key: K, m: Macaroon<K>, steps: seq<Step<K>>)
    requires m.signature == Chain(c, key, m.identifier, m.caveats)
    requires PerformAll(c, m, steps).Ok?
    ensures var r := PerformAll(c, m, steps).value;
            && r.identifier == m.identifier && r.location == m.location
            && m.caveats <= r.caveats
            && r.signature == Chain(c, key, r.identifier, r.caveats)
            && Follows(c, key, r, |m.caveats|, steps)
    decreases |steps|
  {
    if steps != [] {
      PerformFollows(c, key, m, steps[0]);
      var next := Perform(c, m, steps[0]).value;
      PerformAllFollows(c, key, next, steps[1..]);
      var r := PerformAll(c, next, steps[1..]).value;
      assert r.caveats[..|m.caveats|] == m.caveats;
      assert r.caveats[|m.caveats|] == next.caveats[|m.caveats|];
      FollowsCons(c, key, r, |m.caveats|, steps);
    }
  }

  /** What a run of successful calls constructs; in particular the signature is the chain over all caveats. */
  lemma BuildFollows<K>(c: Crypto<K>, key: K, plan: Plan<K>)
    requires Build(c, key, plan).Ok?
    ensures var m := Build(c, key, plan).value;
            && m.identifier == plan.identifier && m.location == plan.location
            && m.signature == Chain(c, key, m.identifier, m.caveats)
            && Follows(c, key, m, 0, plan.steps)
  {
    PerformAllFollows(c, key, Created(c, plan.location, key, plan.identifier).value, plan.steps);
  }

  // ------------------------------------------------ verifying a plan

  lemma BindAllConcat<K>(c: Crypto<K>, rootSig: K, a: seq<Macaroon<K>>, b: seq<Macaroon<K>>)
    ensures BindAll(c, rootSig, a + b) == BindAll(c, rootSig, a) + BindAll(c, rootSig, b)
  {
  }

  /** A step is accepted, and what it nests stays within `h` levels. */
  ghost predicate StepVerifies<K>(p: Policy, step: Step<K>, h: int) {
    StepAccepted(p, step) && (step.AddThirdParty? ==> NestedAtMost(step.discharge.steps, h - 1))
  }

  ghost predicate StepsVerify<K>(p: Policy, steps: seq<Step<K>>, i: nat, h: int)
    requires i <= |steps|
    decreases |steps| - i
  {
    i < |steps| ==> StepVerifies(p, steps[i], h) && StepsVerify(p, steps, i + 1, h)
  }

  lemma {:induction false} StepsVerifyFrom<K>(p: Policy, steps: seq<Step<K>>, i: nat, h: nat)
    requires i <= |steps|
    ensures StepsVerify(p, steps, i, h) <==> forall j :: i <= j < |steps| ==> StepVerifies(p, steps[j], h)
    decreases |steps| - i
  {
    if i < |steps| {
      StepsVerifyFrom(p, steps, i + 1, h);
    }
  }

  lemma StepsVerifyAll<K>(p: Policy, steps: seq<Step<K>>, h: nat)
    ensures StepsVerify(p, steps, 0, h) <==> PlanAccepted(p, steps) && NestedAtMost(steps, h)
  {
    StepsVerifyFrom(p, steps, 0, h);
  }

  /**
   One node: `m` has the identifier and caveats that the plan builds, and its signature is the root's or bound to
   it.
   */
  lemma {:induction false} PlanRun<K(!new)>(c: Crypto<K>, p: Policy, rootSig: K, key: K, plan: Plan<K>, m: Macaroon<K>,
                                            ds: Discharges<K>, left: Discharges<K>, depth: nat)
    requires DecryptsEncrypted(c) && Succeeds(c, key, plan)
    requires m.identifier == plan.identifier && m.caveats == Build(c, key, plan).value.caveats
    requires Accepted(c, rootSig, Build(c, key, plan).value.signature, m)
    requires Consumes(ds, BindAll(c, rootSig, Issued(c, plan.steps)), left)
    ensures var r := RunNode(c, p, rootSig, m, key, ds, depth);
            && (r.outcome.Ok? <==>
                  depth <= MAX_VERIFICATION_DEPTH && StepsVerify(p, plan.steps, 0, MAX_VERIFICATION_DEPTH - depth))
            && (r.outcome.Ok? ==> r.left == left)
    decreases plan, |plan.steps| + 1
  {
    BuildFollows(c, key, plan);
    assert m.caveats[0..] == m.caveats && plan.steps[0..] == plan.steps;
    if depth <= MAX_VERIFICATION_DEPTH {
      StepsRun(c, p, rootSig, key, plan, 0, m, ds, left, depth);
    }
  }

  lemma IssuedForConsumed<K>(c: Crypto<K>, rootSig: K, step: Step<K>, bound: Macaroon<K>, ds: Discharges<K>,
                             left: Discharges<K>)
    requires step.AddThirdParty? && Succeeds(c, step.caveatKey, step.discharge)
    requires bound == Bound(c, rootSig, Build(c, step.caveatKey, step.discharge).value)
    requires Consumes(ds, BindAll(c, rootSig, IssuedFor(c, step)), left)
    ensures bound.identifier in ds && ds[bound.identifier] == bound
    ensures Consumes(ds - {bound.identifier}, BindAll(c, rootSig, Issued(c, step.discharge.steps)), left)
  {
    var d, nested := Build(c, step.caveatKey, step.discharge).value, Issued(c, step.discharge.steps);
    BindAllConcat(c, rootSig, [d], nested);
    var one := BindAll(c, rootSig, [d]);
    assert (one + BindAll(c, rootSig, nested))[0] == one[0] == bound;
    assert Ids(one) == {bound.identifier} by {
      assert one[0].identifier in Ids(one);
    }
    ConsumesConcat(ds, one, ds - {bound.identifier}, BindAll(c, rootSig, nested), left);
  }

  lemma {:induction false} StepRun<K(!new)>(c: Crypto<K>, p: Policy, rootSig: K, step: Step<K>, sig: K,
                                            ds: Discharges<K>, left: Discharges<K>, depth: nat)
    requires DecryptsEncrypted(c)
    requires step.AddThirdParty? ==> step.nonce.Some? && Succeeds(c, step.caveatKey, step.discharge)
    requires depth <= MAX_VERIFICATION_DEPTH
    requires Consumes(ds, BindAll(c, rootSig, IssuedFor(c, step)), left)
    ensures var r := RunCaveat(c, p, rootSig, CaveatOf(c, sig, step), sig, ds, depth);
            && (r.outcome.Ok? <==> StepVerifies(p, step, MAX_VERIFICATION_DEPTH - depth))
            && (r.outcome.Ok? ==> r.left == left)
    decreases step
  {
    match step
    case AddFirstParty(_) =>
      assert Ids<K>([]) == {};
    case AddThirdParty(_, caveatKey, _, discharge) =>
      var bound := Bound(c, rootSig, Build(c, caveatKey, discharge).value);
      BuildFollows(c, caveatKey, discharge);
      IssuedForConsumed(c, rootSig, step, bound, ds, left);
      PlanRun(c, p, rootSig, caveatKey, discharge, bound, ds - {bound.identifier}, left, depth + 1);
      if depth < MAX_VERIFICATION_DEPTH {
        StepsVerifyAll(p, discharge.steps, MAX_VERIFICATION_DEPTH - depth - 1);
      }
  }

  lemma StepsConsume<K>(c: Crypto<K>, rootSig: K, steps: seq<Step<K>>, i: nat, ds: Discharges<K>, left: Discharges<K>)
    returns (mid: Discharges<K>)
    requires i < |steps| && StepsSucceed(c, steps[i..])
    requires Consumes(ds, BindAll(c, rootSig, Issued(c, steps[i..])), left)
    ensures StepsSucceed(c, steps[i + 1..])
    ensures steps[i].AddThirdParty? ==> Succeeds(c, steps[i].caveatKey, steps[i].discharge)
    ensures Consumes(ds, BindAll(c, rootSig, IssuedFor(c, steps[i])), mid)
    ensures Consumes(mid, BindAll(c, rootSig, Issued(c, steps[i + 1..])), left)
  {
    var all, rest := steps[i..], steps[i + 1..];
    assert all[0] == steps[i] && all[1..] == rest;
    assert forall j :: 0 <= j < |rest| ==> rest[j] == all[j + 1];
    var mine := BindAll(c, rootSig, IssuedFor(c, steps[i]));
    mid := ds - Ids(mine);
    BindAllConcat(c, rootSig, IssuedFor(c, steps[i]), Issued(c, rest));
    ConsumesConcat(ds, mine, mid, BindAll(c, rootSig, Issued(c, rest)), left);
  }

  lemma {:induction false} StepsRun<K(!new)>(c: Crypto<K>, p: Policy, rootSig: K, key: K, plan: Plan<K>, i: nat,
                                             m: Macaroon<K>, ds: Discharges<K>, left: Discharges<K>, depth: nat)
    requires DecryptsEncrypted(c)
    requires i <= |plan.steps| && Follows(c, key, m, 0, plan.steps)
    requires depth <= MAX_VERIFICATION_DEPTH
    requires StepsSucceed(c, plan.steps[i..])
    requires Consumes(ds, BindAll(c, rootSig, Issued(c, plan.steps[i..])), left)
    ensures var r := RunCaveats(c, p, rootSig, m.caveats[i..], Chain(c, key, m.identifier, m.caveats[..i]), ds, depth);
            && (r.outcome.Ok? <==> StepsVerify(p, plan.steps, i, MAX_VERIFICATION_DEPTH - depth))
            && (r.outcome.Ok? ==> r.outcome.value == Chain(c, key, m.identifier, m.caveats) && r.left == left)
    decreases plan, |plan.steps| - i
  {
    if i == |plan.steps| {
      assert m.caveats[..i] == m.caveats;
      assert Ids<K>([]) == {};
    } else {
      var step, sig := plan.steps[i], Chain(c, key, m.identifier, m.caveats[..i]);
      RunCaveatsAt(c, p, rootSig, m, key, i, ds, depth);
      assert m.caveats[0 + i] == CaveatOf(c, sig, step);
      var mid := StepsConsume(c, rootSig, plan.steps, i, ds, left);
      StepRun(c, p, rootSig, step, sig, ds, mid, depth);
      StepsRun(c, p, rootSig, key, plan, i + 1, m, mid, left, depth);
    }
  }

  lemma RootRun<K(!new)>(c: Crypto<K>, p: Policy, key: K, plan: Plan<K>, m: Macaroon<K>, discharges: seq<Macaroon<K>>)
    requires DecryptsEncrypted(c) && Succeeds(c, key, plan) && m == Build(c, key, plan).value
    requires multiset(discharges) == multiset(BindAll(c, m.signature, Issued(c, plan.steps)))
    ensures Verdict(c, p, m, key, discharges) == Ok(()) <==>
              Distinct(discharges) && StepsVerify(p, plan.steps, 0, MAX_VERIFICATION_DEPTH)
  {
    if Distinct(discharges) {
      BuildFollows(c, key, plan);
      ConsumesAll(discharges, BindAll(c, m.signature, Issued(c, plan.steps)));
      PlanRun(c, p, m.signature, key, plan, m, ById(discharges), map[], 0);
    }
  }

  /**
   A macaroon and discharges made by successful calls, with the discharges bound to the finished macaroon and
   supplied in any order, verify exactly when the discharges have different identifiers, every predicate is
   accepted, and discharges are nested at most 32 deep.
   */
  lemma HonestVerdict<K(!new)>(c: Crypto<K>, p: Policy, key: K, plan: Plan<K>, discharges: seq<Macaroon<K>>)
    requires DecryptsEncrypted(c) && Succeeds(c, key, plan)
    requires multiset(discharges) == multiset(BindAll(c, Build(c, key, plan).value.signature, Issued(c, plan.steps)))
    ensures Verdict(c, p, Build(c, key, plan).value, key, discharges) == Ok(()) <==>
              && Distinct(discharges)
              && PlanAccepted(p, plan.steps)
              && NestedAtMost(plan.steps, 32)
  {
    RootRun(c, p, key, plan, Build(c, key, plan).value, discharges);
    StepsVerifyAll(p, plan.steps, MAX_VERIFICATION_DEPTH);
  }

  // ------------------------------------------------------ attenuation

  lemma {:induction false} PerformAllSnoc<K>(c: Crypto<K>, m: Macaroon<K>, steps: seq<Step<K>>, step: Step<K>)
    requires PerformAll(c, m, steps).Ok?
    ensures PerformAll(c, m, steps + [step]) == Perform(c, PerformAll(c, m, steps).value, step)
    decreases |steps|
  {
    var longer := steps + [step];
    if steps == [] {
      assert longer[1..] == [];
    } else {
      assert longer[1..] == steps[1..] + [step];
      PerformAllSnoc(c, Perform(c, m, steps[0]).value, steps[1..], step);
    }
  }

  lemma {:induction false} IssuedSnoc<K>(c: Crypto<K>, steps: seq<Step<K>>, pred: Bytes)
    requires StepsSucceed(c, steps)
    ensures StepsSucceed(c, steps + [AddFirstParty(pred)])
    ensures Issued(c, steps + [AddFirstParty(pred)]) == Issued(c, steps)
    decreases |steps|
  {
    var longer := steps + [AddFirstParty(pred)];
    assert forall i :: 0 <= i < |steps| ==> longer[i] == steps[i];
    if steps == [] {
      assert longer[1..] == [];
    } else {
      assert longer[1..] == steps[1..] + [AddFirstParty(pred)];
      IssuedSnoc(c, steps[1..], pred);
    }
  }

  lemma DistinctBound<K>(c: Crypto<K>, r1: K, r2: K, ms: seq<Macaroon<K>>)
    requires Distinct(BindAll(c, r1, ms))
    ensures Distinct(BindAll(c, r2, ms))
  {
    var a, b := BindAll(c, r1, ms), BindAll(c, r2, ms);
    assert forall i :: 0 <= i < |ms| ==> a[i].identifier == b[i].identifier;
  }

  lemma StepsSnoc<K>(p: Policy, steps: seq<Step<K>>, pred: Bytes, h: nat)
    ensures PlanAccepted(p, steps + [AddFirstParty(pred)]) <==> PlanAccepted(p, steps) && p.Accepts(pred)
    ensures NestedAtMost(steps + [AddFirstParty(pred)], h) <==> NestedAtMost(steps, h)
  {
    var longer := steps + [AddFirstParty(pred)];
    assert longer[|steps|] == AddFirstParty(pred);
    assert forall i :: 0 <= i < |steps| ==> longer[i] == steps[i];
  }

  /**
   One more first-party caveat only narrows: the extended macaroon verifies exactly when the original does and
   the new predicate is accepted, each with the same discharges bound to it.
   */
  lemma Attenuation<K(!new)>(c: Crypto<K>, p: Policy, key: K, plan: Plan<K>, pred: Bytes)
    requires DecryptsEncrypted(c) && Succeeds(c, key, plan)
    requires WithFirstParty(c, Build(c, key, plan).value, pred).Ok?
    ensures var m := Build(c, key, plan).value;
            var narrow := WithFirstParty(c, m, pred).value;
            var discharges := Issued(c, plan.steps);
            Verdict(c, p, narrow, key, BindAll(c, narrow.signature, discharges)) == Ok(()) <==>
              Verdict(c, p, m, key, BindAll(c, m.signature, discharges)) == Ok(()) && p.Accepts(pred)
  {
    var m := Build(c, key, plan).value;
    var narrow := WithFirstParty(c, m, pred).value;
    var longer := plan.(steps := plan.steps + [AddFirstParty(pred)]);
    var discharges := Issued(c, plan.steps);
    PerformAllSnoc(c, Created(c, plan.location, key, plan.identifier).value, plan.steps, AddFirstParty(pred));
    assert Build(c, key, longer) == Ok(narrow);
    IssuedSnoc(c, plan.steps, pred);
    HonestVerdict(c, p, key, plan, BindAll(c, m.signature, discharges));
    HonestVerdict(c, p, key, longer, BindAll(c, narrow.signature, discharges));
    StepsSnoc(p, plan.steps, pred, MAX_VERIFICATION_DEPTH);
    if Distinct(BindAll(c, m.signature, discharges)) {
      DistinctBound(c, m.signature, narrow.signature, discharges);
    }
    if Distinct(BindAll(c, narrow.signature, discharges)) {
      DistinctBound(c, narrow.signature, m.signature, discharges);
    }
  }
}
