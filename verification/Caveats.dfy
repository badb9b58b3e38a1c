/** Caveats: one link of the signature chain, and the builder the parsers use. */
module Caveats {
  import opened Prelude
  import opened Crypto

  datatype Caveat =
    | FirstParty(pred: Bytes)
    | ThirdParty(id: Bytes, verifierId: Bytes, location: Str)

  /** The signature that follows `sig` when `caveat` is appended. The location is not signed. */
  function Sign<K>(c: Crypto<K>, caveat: Caveat, sig: K): K {
    match caveat
    case FirstParty(p) => c.hmac(sig, p)
    case ThirdParty(id, vid, _) => c.hmac2(sig, vid, id)
  }

  /** What the signature covers of a caveat: everything but the location of a third party. */
  function Signed(caveat: Caveat): Caveat {
    match caveat
    case FirstParty(_) => caveat
    case ThirdParty(id, vid, _) => ThirdParty(id, vid, [])
  }

  ghost predicate SameSigned(a: seq<Caveat>, b: seq<Caveat>) {
    |a| == |b| && forall i :: 0 <= i < |a| ==> Signed(a[i]) == Signed(b[i])
  }

  /** The fields a parser has seen so far. */
  datatype Parts = Parts(id: Option<Bytes>, verifierId: Option<Bytes>, location: Option<Str>)

  const NO_PARTS := Parts(None, None, None)

  function Assemble(p: Parts): Result<Caveat> {
    if p.id.None? then Err(IncompleteCaveat)
    else match (p.verifierId, p.location)
      case (None, None) => Ok(FirstParty(p.id.value))
      case (Some(vid), Some(location)) => Ok(ThirdParty(p.id.value, vid, location))
      case _ => Err(IncompleteCaveat)
  }

  /** The fields that make up a caveat. */
  function Disassemble(caveat: Caveat): Parts {
    match caveat
    case FirstParty(p) => Parts(Some(p), None, None)
    case ThirdParty(id, vid, location) => Parts(Some(id), Some(vid), Some(location))
  }

  lemma AssembleExact(p: Parts, caveat: Caveat)
    ensures Assemble(p) == Ok(caveat) <==> p == Disassemble(caveat)
  {
  }

  class CaveatBuilder {
    var id: Option<Bytes>
    var verifierId: Option<Bytes>
    var location: Option<Str>

    function Value(): Parts
      reads this
    {
      Parts(id, verifierId, location)
    }

    constructor ()
      ensures Value() == NO_PARTS
    {
      id, verifierId, location := None, None, None;
    }

    method AddId(id: Bytes)
      modifies this
      ensures Value() == old(Value()).(id := Some(id))
    {
      this.id := Some(id);
    }

    predicate HasId()
      reads this
    {
      id.Some?
    }

    method AddVerifierId(vid: Bytes)
      modifies this
      ensures Value() == old(Value()).(verifierId := Some(vid))
    {
      verifierId := Some(vid);
    }

    predicate HasVerifierId()
      reads this
    {
      verifierId.Some?
    }

    method AddLocation(location: Str)
      modifies this
      ensures Value() == old(Value()).(location := Some(location))
    {
      this.location := Some(location);
    }

    predicate HasLocation()
      reads this
    {
      location.Some?
    }

    method Build() returns (r: Result<Caveat>)
      ensures r == Assemble(Value())
      ensures r.Err? ==> r.error == IncompleteCaveat
    {
      if id.None? {
        return Err(IncompleteCaveat);
      }
      if verifierId.None? && location.None? {
        return Ok(FirstParty(id.value));
      } else if verifierId.Some? && location.Some? {
        return Ok(ThirdParty(id.value, verifierId.value, location.value));
      } else {
        return Err(IncompleteCaveat);
      }
    }
  }
}
