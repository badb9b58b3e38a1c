/** The builder in which parsers collect a macaroon, and the buffer that serializers append to. */
module MacaroonBuilders {
  import opened Prelude
  import opened Caveats
  import opened Macaroons

  /** The fields seen so far. */
  datatype Draft = Draft(identifier: Bytes, location: Option<Str>, signature: Option<Key>, caveats: seq<Caveat>)

  const EMPTY_DRAFT := Draft([], None, None, [])

  function Append(cs: seq<Caveat>, caveat: Caveat): Result<seq<Caveat>> {
    if |cs| >= MAX_CAVEATS then Err(TooManyCaveats) else Ok(cs + [caveat])
  }

  function WithCaveat(d: Draft, caveat: Caveat): Result<Draft> {
    var caveats :- Append(d.caveats, caveat);
    Ok(d.(caveats := caveats))
  }

  function Finish(d: Draft): Result<Macaroon<Key>> {
    if d.identifier == [] || d.signature.None? then Err(IncompleteMacaroon)
    else Ok(Macaroon(d.identifier, d.location, d.signature.value, d.caveats))
  }

  class MacaroonBuilder {
    var identifier: Bytes
    var location: Option<Str>
    var signature: Option<Key>
    var caveats: seq<Caveat>

    function Value(): Draft
      reads this
    {
      Draft(identifier, location, signature, caveats)
    }

    constructor ()
      ensures Value() == EMPTY_DRAFT
    {
      identifier, location, signature, caveats := [], None, None, [];
    }

    method SetIdentifier(identifier: Bytes)
      modifies this
      ensures Value() == old(Value()).(identifier := identifier)
    {
      this.identifier := identifier;
    }

    method SetLocation(location: Str)
      modifies this
      ensures Value() == old(Value()).(location := Some(location))
    {
      this.location := Some(location);
    }

    predicate HasLocation()
      reads this
    {
      location.Some?
    }

    method SetSignature(signature: Bytes)
      requires |signature| == 32
      modifies this
      ensures Value() == old(Value()).(signature := Some(signature))
    {
      this.signature := Some(signature);
    }

    method AddCaveat(caveat: Caveat) returns (r: Result<()>)
      modifies this
      ensures match WithCaveat(old(Value()), caveat)
              case Ok(d) => r == Ok(()) && Value() == d
              case Err(e) => r == Err(e) && Value() == old(Value())
      ensures if |old(caveats)| < 1000 then r == Ok(()) && caveats == old(caveats) + [caveat]
              else r == Err(TooManyCaveats)
    {
      if |caveats| >= MAX_CAVEATS {
        return Err(TooManyCaveats);
      }
      caveats := caveats + [caveat];
      return Ok(());
    }

    method Build() returns (r: Result<Macaroon<Key>>)
      ensures r == Finish(Value())
      ensures if identifier != [] && signature.Some? then
                r == Ok(Macaroon(identifier, location, signature.value, caveats))
              else r == Err(IncompleteMacaroon)
    {
      if identifier == [] {
        return Err(IncompleteMacaroon);
      }
      if signature.None? {
        return Err(IncompleteMacaroon);
      }
      return Ok(Macaroon(identifier, location, signature.value, caveats));
    }
  }

  class Buffer {
    var bytes: Bytes

    constructor (bytes: Bytes)
      ensures this.bytes == bytes
    {
      this.bytes := bytes;
    }

    method Push(b: byte)
      modifies this
      ensures bytes == old(bytes) + [b]
    {
      bytes := bytes + [b];
    }

    method Extend(b: Bytes)
      modifies this
      ensures bytes == old(bytes) + b
    {
      bytes := bytes + b;
    }
  }
}
