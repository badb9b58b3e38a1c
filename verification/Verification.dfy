/** The verifier: depth-first verification that consumes a shared set of discharges. */
module Verification {
  import opened Prelude
  import opened Crypto
  import opened Caveats
  import opened Macaroons

  const MAX_VERIFICATION_DEPTH: nat := 32

  /** The predicates a verifier accepts. */
  datatype Policy = Policy(exact: set<Bytes>, general: seq<Bytes -> bool>) {
    predicate AcceptsGeneral(value: Bytes) {
      exists i :: 0 <= i < |general| && general[i](value)
    }

    predicate Accepts(pred: Bytes) {
      pred in exact || AcceptsGeneral(pred)
    }

    function With(call: SatisfierCall): Policy {
      match call
      case SatisfyExact(b) => Policy(exact + {b}, general)
      case SatisfyGeneral(f) => Policy(exact, general + [f])
    }
  }

  datatype SatisfierCall = SatisfyExact(b: Bytes) | SatisfyGeneral(f: Bytes -> bool)

  type Discharges<K> = map<Bytes, Macaroon<K>>

  /** What one call did: its outcome, the discharges it left, and how many nodes were entered. */
  datatype Run<K, T> = Run(outcome: Result<T>, left: Discharges<K>, entered: nat)

  predicate Accepted<K(==)>(c: Crypto<K>, rootSig: K, sig: K, m: Macaroon<K>) {
    rootSig == sig || c.bind(rootSig, sig) == m.signature
  }

  function RunNode<K(==)>(c: Crypto<K>, p: Policy, rootSig: K, m: Macaroon<K>, key: K, ds: Discharges<K>, depth: nat)
    : (r: Run<K, ()>)
    ensures r.left.Keys <= ds.Keys
    decreases ds.Keys, 2, 0
  {
    if depth > MAX_VERIFICATION_DEPTH then Run(Err(CaveatNotSatisfied), ds, 1)
    else
      var r := RunCaveats(c, p, rootSig, m.caveats, c.hmac(key, m.identifier), ds, depth);
      match r.outcome
      case Err(e) => Run(Err(e), r.left, r.entered + 1)
      case Ok(sig) => Run(if Accepted(c, rootSig, sig, m) then Ok(()) else Err(InvalidSignature), r.left, r.entered + 1)
  }

  /** Checks the caveats `cs` that follow the signature `sig`; gives the signature after them. */
  function RunCaveats<K(==)>(c: Crypto<K>, p: Policy, rootSig: K, cs: seq<Caveat>, sig: K, ds: Discharges<K>,
                             depth: nat)
    : (r: Run<K, K>)
    ensures r.left.Keys <= ds.Keys
    decreases ds.Keys, 1, |cs|
  {
    if cs == [] then Run(Ok(sig), ds, 0)
    else
      var first := RunCaveat(c, p, rootSig, cs[0], sig, ds, depth);
      match first.outcome
      case Err(e) => Run(Err(e), first.left, first.entered)
      case Ok(_) =>
        var rest := RunCaveats(c, p, rootSig, cs[1..], Sign(c, cs[0], sig), first.left, depth);
        rest.(entered := first.entered + rest.entered)
  }

  function RunCaveat<K(==)>(c: Crypto<K>, p: Policy, rootSig: K, caveat: Caveat, sig: K, ds: Discharges<K>, depth: nat)
    : (r: Run<K, ()>)
    ensures r.left.Keys <= ds.Keys
    decreases ds.Keys, 0, 0
  {
    match caveat
    case FirstParty(pred) => Run(if p.Accepts(pred) then Ok(()) else Err(CaveatNotSatisfied), ds, 0)
    case ThirdParty(id, vid, _) =>
      match c.decrypt(sig, vid)
      case None => Run(Err(CryptoError), ds, 0)
      case Some(caveatKey) =>
        if id !in ds then Run(Err(CaveatNotSatisfied), ds, 0)
        else RunNode(c, p, rootSig, ds[id], caveatKey, ds - {id}, depth + 1)
  }

  /** No two macaroons with the same identifier. */
  ghost predicate Distinct<K>(ms: seq<Macaroon<K>>) {
    forall i, j :: 0 <= i < j < |ms| ==> ms[i].identifier != ms[j].identifier
  }

  /** The macaroons by identifier, later ones first. */
  function ById<K>(ms: seq<Macaroon<K>>): Discharges<K> {
    if ms == [] then map[]
    else
      var n := |ms| - 1;
      ById(ms[..n])[ms[n].identifier := ms[n]]
  }

  /** What `verify` answers. */
  ghost function Verdict<K>(c: Crypto<K>, p: Policy, m: Macaroon<K>, key: K, discharges: seq<Macaroon<K>>): Result<()> {
    if !Distinct(discharges) then Err(CaveatNotSatisfied)
    else
      var r := RunNode(c, p, m.signature, m, key, ById(discharges), 0);
      match r.outcome
      case Err(e) => Err(e)
      case Ok(_) => if r.left != map[] then Err(DischargeNotUsed) else Ok(())
  }

  /** The map of discharges that one verification consumes. */
  class DischargeSet<K> {
    var entries: Discharges<K>

    constructor ()
      ensures entries == map[]
    {
      entries := map[];
    }

    method Insert(m: Macaroon<K>)
      modifies this
      ensures entries == old(entries)[m.identifier := m]
    {
      entries := entries[m.identifier := m];
    }

    method Remove(id: Bytes) returns (r: Option<Macaroon<K>>)
      modifies this
      ensures entries == old(entries) - {id}
      ensures r == if id in old(entries) then Some(old(entries)[id]) else None
    {
      if id in entries {
        r := Some(entries[id]);
        entries := entries - {id};
      } else {
        r := None;
      }
    }
  }

  class Verifier {
    var exact: set<Bytes>
    var general: seq<Bytes -> bool>

    function Value(): Policy
      reads this
    {
      Policy(exact, general)
    }

    constructor ()
      ensures Value() == Policy({}, [])
    {
      exact, general := {}, [];
    }

    method SatisfyExact(b: Bytes)
      modifies this
      ensures Value() == old(Value()).With(SatisfierCall.SatisfyExact(b))
    {
      exact := exact + {b};
    }

    method SatisfyGeneral(f: Bytes -> bool)
      modifies this
      ensures Value() == old(Value()).With(SatisfierCall.SatisfyGeneral(f))
    {
      general := general + [f];
    }

    method Verify<K(==)>(c: Crypto<K>, m: Macaroon<K>, key: K, discharges: seq<Macaroon<K>>) returns (r: Result<()>)
      ensures r == Verdict(c, Value(), m, key, discharges)
    {
      var dischargeSet := new DischargeSet<K>();
      var i := 0;
      while i < |discharges|
        invariant 0 <= i <= |discharges|
        invariant Distinct(discharges[..i])
        invariant dischargeSet.entries == ById(discharges[..i])
        invariant fresh(dischargeSet)
      {
        ByIdKeys(discharges[..i], discharges[i].identifier);
        if discharges[i].identifier in dischargeSet.entries {
          assert !Distinct(discharges);
          return Err(CaveatNotSatisfied);
        }
        dischargeSet.Insert(discharges[i]);
        assert discharges[..i + 1][..i] == discharges[..i];
        i := i + 1;
      }
      assert discharges[..i] == discharges;
      ghost var entered;
      r, entered := VerifyWithSig(c, m.signature, m, key, dischargeSet, 0);
      var _ :- r;
      if dischargeSet.entries != map[] {
        return Err(DischargeNotUsed);
      }
      return Ok(());
    }

    /** `entered` counts the calls of this method, this one included. */
    method VerifyWithSig<K(==)>(c: Crypto<K>, rootSig: K, m: Macaroon<K>, key: K, dischargeSet: DischargeSet<K>,
                                depth: nat)
      returns (r: Result<()>, ghost entered: nat)
      modifies dischargeSet
      ensures RunNode(c, Value(), rootSig, m, key, old(dischargeSet.entries), depth) ==
                Run(r, dischargeSet.entries, entered)
      decreases dischargeSet.entries.Keys, 1
    {
      entered := 1;
      if depth > MAX_VERIFICATION_DEPTH {
        return Err(CaveatNotSatisfied), entered;
      }
      var sig := c.hmac(key, m.identifier);
      ghost var p, run := Value(), RunCaveats(c, Value(), rootSig, m.caveats, sig, dischargeSet.entries, depth);
      var i := 0;
      while i < |m.caveats|
        invariant 0 <= i <= |m.caveats|
        invariant dischargeSet.entries.Keys <= old(dischargeSet.entries.Keys)
        invariant var rest := RunCaveats(c, p, rootSig, m.caveats[i..], sig, dischargeSet.entries, depth);
                  rest.(entered := rest.entered + entered) == run.(entered := run.entered + 1)
      {
        var caveat := m.caveats[i];
        assert m.caveats[i..][0] == caveat && m.caveats[i..][1..] == m.caveats[i + 1..];
        ghost var below;
        r, below := VerifyCaveat(c, rootSig, caveat, sig, dischargeSet, depth);
        entered := entered + below;
        if r.Err? {
          return r, entered;
        }
        sig := Sign(c, caveat, sig);
        i := i + 1;
      }
      if Accepted(c, rootSig, sig, m) {
        return Ok(()), entered;
      }
      return Err(InvalidSignature), entered;
    }

    /** Checks one caveat that follows the signature `sig`. */
    method VerifyCaveat<K(==)>(c: Crypto<K>, rootSig: K, caveat: Caveat, sig: K, dischargeSet: DischargeSet<K>,
                               depth: nat)
      returns (r: Result<()>, ghost entered: nat)
      modifies dischargeSet
      ensures RunCaveat(c, Value(), rootSig, caveat, sig, old(dischargeSet.entries), depth) ==
                Run(r, dischargeSet.entries, entered)
      decreases dischargeSet.entries.Keys, 0
    {
      entered := 0;
      match caveat {
        case ThirdParty(id, vid, _) =>
          var caveatKey := c.decrypt(sig, vid);
          if caveatKey.None? {
            return Err(CryptoError), entered;
          }
          var dm := dischargeSet.Remove(id);
          if dm.None? {
            assert dischargeSet.entries == old(dischargeSet.entries);
            return Err(CaveatNotSatisfied), entered;
          }
          r, entered := VerifyWithSig(c, rootSig, dm.value, caveatKey.value, dischargeSet, depth + 1);
        case FirstParty(pred) =>
          r := if Value().Accepts(pred) then Ok(()) else Err(CaveatNotSatisfied);
      }
    }
  }

  lemma {:induction false} ByIdKeys<K>(ms: seq<Macaroon<K>>, id: Bytes)
    ensures id in ById(ms) <==> exists i :: 0 <= i < |ms| && ms[i].identifier == id
    ensures id in ById(ms) ==> ById(ms)[id] in ms && ById(ms)[id].identifier == id
  {
    if ms != [] {
      var n := |ms| - 1;
      ByIdKeys(ms[..n], id);
      if i :| 0 <= i < |ms| && ms[i].identifier == id {
        assert i < n ==> ms[..n][i].identifier == id;
      }
    }
  }
}
