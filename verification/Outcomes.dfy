/**
 When the calls of the crate succeed, and what comes of verifying: stated over the calls and their arguments alone.
 */
module Outcomes {
  import opened Prelude
  import opened Crypto
  import opened Caveats
  import opened Macaroons
  import opened Verification
  import opened DischargeTrees
  import opened VerdictTheorems
  import opened HonestPlans

  // -------------------------------------------------- which calls succeed

  /** At most 65535 bytes. */
  predicate InCap(b: Bytes) {
    |b| <= 65535
  }

  /** When a macaroon is created, and how it is refused otherwise. */
  lemma CreatedExact<K>(c: Crypto<K>, location: Option<Str>, key: K, identifier: Bytes)
    ensures var tooLarge := !InCap(identifier) || (location.Some? && !InCap(location.value));
            Created(c, location, key, identifier) ==
              if tooLarge then Err(FieldTooLarge)
              else if identifier == [] then Err(IncompleteMacaroon)
              else Ok(Macaroon(identifier, location, c.hmac(key, identifier), []))
  {
  }

  /** When a caveat is added, and how it is refused otherwise. */
  lemma AddedExact<K>(c: Crypto<K>, m: Macaroon<K>, pred: Bytes, place: Str, caveatKey: K, id: Bytes,
                      nonce: Option<Nonce>)
    ensures var r := WithFirstParty(c, m, pred);
            && (r.Ok? <==> InCap(pred) && |m.caveats| < 1000)
            && (r.Err? ==> r.error == if !InCap(pred) then FieldTooLarge else TooManyCaveats)
    ensures var r := WithThirdParty(c, m, place, caveatKey, id, nonce);
            && (r.Ok? <==> InCap(id) && InCap(place) && |m.caveats| < 1000 && nonce.Some?)
            && (r.Err? ==> r.error == if !InCap(id) || !InCap(place) then FieldTooLarge
                                      else if |m.caveats| >= 1000 then TooManyCaveats else RngError)
  {
  }

  ghost predicate StepInCap<K>(step: Step<K>) {
    match step
    case AddFirstParty(pred) => InCap(pred)
    case AddThirdParty(location, _, nonce, discharge) => InCap(discharge.identifier) && InCap(location) && nonce.Some?
  }

  ghost predicate StepsInCap<K>(steps: seq<Step<K>>) {
    forall i :: 0 <= i < |steps| ==> StepInCap(steps[i])
  }

  lemma StepsInCapCons<K>(steps: seq<Step<K>>)
    requires steps != []
    ensures StepsInCap(steps) <==> StepInCap(steps[0]) && StepsInCap(steps[1..])
  {
    assert steps == [steps[0]] + steps[1..];
  }

  lemma PerformExact<K>(c: Crypto<K>, m: Macaroon<K>, step: Step<K>)
    ensures Perform(c, m, step).Ok? <==> StepInCap(step) && |m.caveats| < 1000
    ensures Perform(c, m, step).Ok? ==> |Perform(c, m, step).value.caveats| == |m.caveats| + 1
  {
  }

  lemma {:induction false} PerformAllExact<K>(c: Crypto<K>, m: Macaroon<K>, steps: seq<Step<K>>)
    requires |m.caveats| <= 1000
    ensures PerformAll(c, m, steps).Ok? <==> StepsInCap(steps) && |m.caveats| + |steps| <= 1000
    decreases |steps|
  {
    if steps != [] {
      PerformExact(c, m, steps[0]);
      StepsInCapCons(steps);
      if Perform(c, m, steps[0]).Ok? {
        PerformAllExact(c, Perform(c, m, steps[0]).value, steps[1..]);
      }
    }
  }

  /**
   Creating a macaroon and adding caveats succeeds exactly when there is an identifier, every field has at most
   65535 bytes, there are at most 1000 caveats, and the random number generator works.
   */
  lemma BuildExact<K>(c: Crypto<K>, key: K, plan: Plan<K>)
    ensures Build(c, key, plan).Ok? <==>
              && plan.identifier != [] && InCap(plan.identifier)
              && (plan.location.Some? ==> InCap(plan.location.value))
              && |plan.steps| <= 1000 && StepsInCap(plan.steps)
  {
    CreatedExact(c, plan.location, key, plan.identifier);
    if Created(c, plan.location, key, plan.identifier).Ok? {
      PerformAllExact(c, Created(c, plan.location, key, plan.identifier).value, plan.steps);
    }
  }

  // ---------------------------------------------- what a verifier accepts

  const FRESH := Policy({}, [])

  ghost predicate Supplies(call: SatisfierCall, pred: Bytes) {
    match call
    case SatisfyExact(b) => b == pred
    case SatisfyGeneral(f) => f(pred)
  }

  /** Some call supplied the predicate itself, or a function that accepts it. */
  ghost predicate Supplied(calls: seq<SatisfierCall>, pred: Bytes) {
    exists i :: 0 <= i < |calls| && Supplies(calls[i], pred)
  }

  lemma {:induction false} AcceptsAfter(p: Policy, calls: seq<SatisfierCall>, pred: Bytes)
    ensures After(p, calls).Accepts(pred) <==> p.Accepts(pred) || Supplied(calls, pred)
    decreases |calls|
  {
    if calls != [] {
      WithAccepts(p, calls[0], pred);
      AcceptsAfter(p.With(calls[0]), calls[1..], pred);
      SuppliedCons(calls, pred);
    }
  }

  lemma SuppliedCons(calls: seq<SatisfierCall>, pred: Bytes)
    requires calls != []
    ensures Supplied(calls, pred) <==> Supplies(calls[0], pred) || Supplied(calls[1..], pred)
  {
    if i :| 0 <= i < |calls| && Supplies(calls[i], pred) {
      assert i > 0 ==> calls[1..][i - 1] == calls[i];
    }
    if i :| 0 <= i < |calls| - 1 && Supplies(calls[1..][i], pred) {
      assert calls[i + 1] == calls[1..][i];
    }
  }

  /** A verifier accepts what its satisfiers supply, and nothing else: without any it accepts no predicate. */
  lemma AcceptsExact(calls: seq<SatisfierCall>, pred: Bytes)
    ensures After(FRESH, calls).Accepts(pred) <==> Supplied(calls, pred)
  {
    AcceptsAfter(FRESH, calls, pred);
  }

  /** The predicate is that of some first-party caveat in the plan, at any depth. */
  ghost predicate Occurs<K>(pred: Bytes, steps: seq<Step<K>>)
    decreases steps
  {
    exists i :: 0 <= i < |steps| && OccursIn(pred, steps[i])
  }

  ghost predicate OccursIn<K>(pred: Bytes, step: Step<K>)
    decreases step
  {
    match step
    case AddFirstParty(mine) => mine == pred
    case AddThirdParty(_, _, _, discharge) => Occurs(pred, discharge.steps)
  }

  lemma {:induction false} PlanAcceptedExact<K>(p: Policy, steps: seq<Step<K>>)
    ensures PlanAccepted(p, steps) <==> forall pred :: Occurs(pred, steps) ==> p.Accepts(pred)
    decreases steps
  {
    forall i | 0 <= i < |steps|
      ensures StepAccepted(p, steps[i]) <==> forall pred :: OccursIn(pred, steps[i]) ==> p.Accepts(pred)
    {
      StepAcceptedExact(p, steps[i]);
    }
  }

  lemma {:induction false} StepAcceptedExact<K>(p: Policy, step: Step<K>)
    ensures StepAccepted(p, step) <==> forall pred :: OccursIn(pred, step) ==> p.Accepts(pred)
    decreases step
  {
    match step
    case AddFirstParty(mine) => assert OccursIn(mine, step);
    case AddThirdParty(_, _, _, discharge) => PlanAcceptedExact(p, discharge.steps);
  }

  /**
   A macaroon and discharges made by successful calls, with the discharges bound to the finished macaroon, verify
   exactly when the discharges have different identifiers, some satisfier of the verifier was supplied for every
   predicate, and discharges are nested at most 32 deep.
   */
  lemma HonestOutcome<K(!new)>(c: Crypto<K>, calls: seq<SatisfierCall>, key: K, plan: Plan<K>,
                               discharges: seq<Macaroon<K>>)
    requires DecryptsEncrypted(c) && Succeeds(c, key, plan)
    requires multiset(discharges) == multiset(BindAll(c, Build(c, key, plan).value.signature, Issued(c, plan.steps)))
    ensures Verdict(c, After(FRESH, calls), Build(c, key, plan).value, key, discharges) == Ok(()) <==>
              && Distinct(discharges)
              && (forall pred :: Occurs(pred, plan.steps) ==> Supplied(calls, pred))
              && NestedAtMost(plan.steps, 32)
  {
    HonestVerdict(c, After(FRESH, calls), key, plan, discharges);
    PlanAcceptedExact(After(FRESH, calls), plan.steps);
    forall pred | Occurs(pred, plan.steps)
      ensures After(FRESH, calls).Accepts(pred) <==> Supplied(calls, pred)
    {
      AcceptsExact(calls, pred);
    }
  }

  ghost predicate PredicatesAccepted<K>(p: Policy, m: Macaroon<K>) {
    forall i :: 0 <= i < |m.caveats| && m.caveats[i].FirstParty? ==> p.Accepts(m.caveats[i].pred)
  }

  ghost predicate AllAccepted<K>(p: Policy, ms: seq<Macaroon<K>>) {
    forall i :: 0 <= i < |ms| ==> PredicatesAccepted(p, ms[i])
  }

  lemma {:induction false} TreeAccepted<K>(c: Crypto<K>, p: Policy, rootSig: K, t: Tree<K>)
    requires Valid(c, p, rootSig, t)
    ensures PredicatesAccepted(p, t.m) && AllAccepted(p, Descendants(t))
    decreases t, |t.kids| + 1
  {
    forall i | 0 <= i < |t.m.caveats| && t.m.caveats[i].FirstParty?
      ensures p.Accepts(t.m.caveats[i].pred)
    {
      var sig := Chain(c, t.key, t.m.identifier, t.m.caveats[..i]);
      assert Discharged(c, p, rootSig, t.m.caveats[i], sig, t.kids[i]);
    }
    assert t.kids[0..] == t.kids;
    ForestAccepted(c, p, rootSig, t, 0);
  }

  lemma {:induction false} ForestAccepted<K>(c: Crypto<K>, p: Policy, rootSig: K, t: Tree<K>, i: nat)
    requires Valid(c, p, rootSig, t) && i <= |t.kids|
    ensures AllAccepted(p, Forest(t.kids[i..]))
    decreases t, |t.kids| - i
  {
    if i < |t.kids| {
      var kid, rest := t.kids[i], Forest(t.kids[i + 1..]);
      assert t.kids[i..][0] == kid && t.kids[i..][1..] == t.kids[i + 1..];
      ForestAccepted(c, p, rootSig, t, i + 1);
      if kid.Some? {
        TreeAccepted(c, p, rootSig, kid.value);
        AllAcceptedConcat(p, [kid.value.m], Descendants(kid.value));
      }
      AllAcceptedConcat(p, Members(kid), rest);
    }
  }

  lemma AllAcceptedConcat<K>(p: Policy, a: seq<Macaroon<K>>, b: seq<Macaroon<K>>)
    requires AllAccepted(p, a) && AllAccepted(p, b)
    ensures AllAccepted(p, a + b)
  {
  }

  /** What is accepted holds no predicate, in the macaroon or any discharge, that no satisfier was supplied for. */
  lemma AcceptedIsSupplied<K>(c: Crypto<K>, calls: seq<SatisfierCall>, m: Macaroon<K>, key: K,
                              discharges: seq<Macaroon<K>>)
    requires Verdict(c, After(FRESH, calls), m, key, discharges) == Ok(())
    ensures forall x, i :: x in [m] + discharges && 0 <= i < |x.caveats| && x.caveats[i].FirstParty? ==>
                             Supplied(calls, x.caveats[i].pred)
  {
    var p := After(FRESH, calls);
    var t := VerdictSound(c, p, m, key, discharges);
    TreeAccepted(c, p, m.signature, t);
    forall x, i | x in [m] + discharges && 0 <= i < |x.caveats| && x.caveats[i].FirstParty?
      ensures Supplied(calls, x.caveats[i].pred)
    {
      assert x == m || x in multiset(Descendants(t));
      AcceptsExact(calls, x.caveats[i].pred);
    }
  }

  // ------------------------------------------------- how it is refused

  /** The refusals of the recursive check. */
  predicate CheckRefusal(e: Error) {
    e == CaveatNotSatisfied || e == CryptoError || e == InvalidSignature
  }

  lemma {:induction false} NodeRefusal<K>(c: Crypto<K>, p: Policy, rootSig: K, m: Macaroon<K>, key: K,
                                          ds: Discharges<K>, depth: nat)
    ensures var r := RunNode(c, p, rootSig, m, key, ds, depth).outcome; r.Err? ==> CheckRefusal(r.error)
    decreases ds.Keys, 2, 0
  {
    if depth <= MAX_VERIFICATION_DEPTH {
      CaveatsRefusal(c, p, rootSig, m.caveats, c.hmac(key, m.identifier), ds, depth);
    }
  }

  lemma {:induction false} CaveatsRefusal<K>(c: Crypto<K>, p: Policy, rootSig: K, cs: seq<Caveat>, sig: K,
                                             ds: Discharges<K>, depth: nat)
    ensures var r := RunCaveats(c, p, rootSig, cs, sig, ds, depth).outcome; r.Err? ==> CheckRefusal(r.error)
    decreases ds.Keys, 1, |cs|
  {
    if cs != [] {
      var first := RunCaveat(c, p, rootSig, cs[0], sig, ds, depth);
      CaveatRefusal(c, p, rootSig, cs[0], sig, ds, depth);
      if first.outcome.Ok? {
        CaveatsRefusal(c, p, rootSig, cs[1..], Sign(c, cs[0], sig), first.left, depth);
      }
    }
  }

  lemma {:induction false} CaveatRefusal<K>(c: Crypto<K>, p: Policy, rootSig: K, caveat: Caveat, sig: K,
                                            ds: Discharges<K>, depth: nat)
    ensures var r := RunCaveat(c, p, rootSig, caveat, sig, ds, depth).outcome; r.Err? ==> CheckRefusal(r.error)
    decreases ds.Keys, 0, 0
  {
    if caveat.ThirdParty? && c.decrypt(sig, caveat.verifierId).Some? && caveat.id in ds {
      NodeRefusal(c, p, rootSig, ds[caveat.id], c.decrypt(sig, caveat.verifierId).value, ds - {caveat.id}, depth + 1);
    }
  }

  lemma InBag<T>(s: seq<T>, x: T)
    ensures x in s <==> x in multiset(s)
  {
  }

  /** Some discharges can be taken from the supplied ones exactly when they are among them. */
  lemma ConsumesSome<K>(discharges: seq<Macaroon<K>>, ms: seq<Macaroon<K>>)
    requires Distinct(discharges)
    ensures Consumes(ById(discharges), ms, ById(discharges) - Ids(ms)) <==> multiset(ms) <= multiset(discharges)
  {
    var ds := ById(discharges);
    ByIdDistinct(discharges);
    if Consumes(ds, ms, ds - Ids(ms)) {
      forall x
        ensures multiset(ms)[x] <= multiset(discharges)[x]
      {
        CountOne(ms, x);
        CountOne(discharges, x);
        if x in ms {
          ByIdKeys(discharges, x.identifier);
        }
      }
    }
    if multiset(ms) <= multiset(discharges) {
      forall i | 0 <= i < |ms|
        ensures ms[i] in discharges
      {
        InBag(ms, ms[i]);
        InBag(discharges, ms[i]);
      }
      SubbagDistinct(discharges, ms);
    }
  }

  lemma SubbagDistinct<K>(discharges: seq<Macaroon<K>>, ms: seq<Macaroon<K>>)
    requires Distinct(discharges) && multiset(ms) <= multiset(discharges)
    requires forall i :: 0 <= i < |ms| ==> ms[i] in discharges
    ensures Distinct(ms)
  {
    forall i, j | 0 <= i < j < |ms|
      ensures ms[i].identifier != ms[j].identifier
    {
      if ms[i] == ms[j] {
        CountTwo(ms, i, j);
        CountOne(discharges, ms[i]);
      }
    }
  }

  /** Discharges are left over exactly when a valid discharge tree uses some but not all of them. */
  lemma LeftoverExact<K>(c: Crypto<K>, p: Policy, m: Macaroon<K>, key: K, discharges: seq<Macaroon<K>>)
    ensures Verdict(c, p, m, key, discharges) == Err(DischargeNotUsed) <==>
              && Distinct(discharges)
              && exists t :: Shows(c, p, m.signature, m, key, 0, t) && multiset(Descendants(t)) < multiset(discharges)
    ensures !Distinct(discharges) ==> Verdict(c, p, m, key, discharges) == Err(CaveatNotSatisfied)
  {
    if Distinct(discharges) {
      var ds := ById(discharges);
      ByIdDistinct(discharges);
      NodeRefusal(c, p, m.signature, m, key, ds, 0);
      if Verdict(c, p, m, key, discharges) == Err(DischargeNotUsed) {
        var t := NodeSound(c, p, m.signature, m, key, ds, 0);
        ConsumesSome(discharges, Descendants(t));
        ConsumesAll(discharges, Descendants(t));
      }
      if t :| Shows(c, p, m.signature, m, key, 0, t) && multiset(Descendants(t)) < multiset(discharges) {
        ConsumesSome(discharges, Descendants(t));
        ConsumesAll(discharges, Descendants(t));
        NodeComplete(c, p, m.signature, t, ds, ds - Ids(Descendants(t)), 0);
      }
    }
  }

  /** The first caveats of `m` are first-party caveats with accepted predicates. */
  ghost predicate AcceptedUpTo<K>(p: Policy, m: Macaroon<K>, i: nat)
    requires i <= |m.caveats|
  {
    forall j :: 0 <= j < i ==> m.caveats[j].FirstParty? && p.Accepts(m.caveats[j].pred)
  }

  lemma {:induction false} SkipAccepted<K>(c: Crypto<K>, p: Policy, m: Macaroon<K>, key: K, ds: Discharges<K>, i: nat)
    requires i <= |m.caveats| && AcceptedUpTo(p, m, i)
    ensures RunCaveats(c, p, m.signature, m.caveats, c.hmac(key, m.identifier), ds, 0).outcome ==
              RunCaveats(c, p, m.signature, m.caveats[i..], Chain(c, key, m.identifier, m.caveats[..i]), ds, 0).outcome
  {
    if i == 0 {
      assert m.caveats[0..] == m.caveats && m.caveats[..0] == [];
    } else {
      SkipAccepted(c, p, m, key, ds, i - 1);
      RunCaveatsAt(c, p, m.signature, m, key, i - 1, ds, 0);
    }
  }

  /** How the first caveat that cannot be satisfied is refused, and a signature that does not fit. */
  lemma FirstRefusal<K>(c: Crypto<K>, p: Policy, m: Macaroon<K>, key: K, discharges: seq<Macaroon<K>>, i: nat)
    requires Distinct(discharges) && i <= |m.caveats| && AcceptedUpTo(p, m, i)
    ensures var sig := Chain(c, key, m.identifier, m.caveats[..i]);
            && (i == |m.caveats| && !Accepted(c, m.signature, sig, m) ==>
                  Verdict(c, p, m, key, discharges) == Err(InvalidSignature))
            && (i < |m.caveats| && m.caveats[i].FirstParty? && !p.Accepts(m.caveats[i].pred) ==>
                  Verdict(c, p, m, key, discharges) == Err(CaveatNotSatisfied))
            && (i < |m.caveats| && m.caveats[i].ThirdParty? && c.decrypt(sig, m.caveats[i].verifierId).None? ==>
                  Verdict(c, p, m, key, discharges) == Err(CryptoError))
            && (i < |m.caveats| && m.caveats[i].ThirdParty? && c.decrypt(sig, m.caveats[i].verifierId).Some?
                && m.caveats[i].id !in Ids(discharges) ==>
                  Verdict(c, p, m, key, discharges) == Err(CaveatNotSatisfied))
  {
    var ds := ById(discharges);
    ByIdDistinct(discharges);
    SkipAccepted(c, p, m, key, ds, i);
    if i < |m.caveats| {
      RunCaveatsAt(c, p, m.signature, m, key, i, ds, 0);
    } else {
      assert m.caveats[..i] == m.caveats && m.caveats[i..] == [];
    }
  }
}
