/** Macaroons and the calls that make them. */
module Macaroons {
  import opened Prelude
  import opened Crypto
  import opened Caveats

  datatype Macaroon<+K> = Macaroon(identifier: Bytes, location: Option<Str>, signature: K, caveats: seq<Caveat>)

  /** The signature chain over an identifier and its caveats, outermost caveat last. */
  function Chain<K>(c: Crypto<K>, key: K, identifier: Bytes, caveats: seq<Caveat>): K {
    if caveats == [] then c.hmac(key, identifier)
    else
      var n := |caveats| - 1;
      Sign(c, caveats[n], Chain(c, key, identifier, caveats[..n]))
  }

  lemma ChainSnoc<K>(c: Crypto<K>, key: K, identifier: Bytes, caveats: seq<Caveat>, caveat: Caveat)
    ensures Chain(c, key, identifier, caveats + [caveat]) == Sign(c, caveat, Chain(c, key, identifier, caveats))
  {
    assert (caveats + [caveat])[..|caveats|] == caveats;
  }

  function Validate<K>(m: Macaroon<K>): Result<Macaroon<K>> {
    if m.identifier == [] then Err(IncompleteMacaroon) else Ok(m)
  }

  function Created<K>(c: Crypto<K>, location: Option<Str>, key: K, identifier: Bytes): Result<Macaroon<K>> {
    var _ :- CheckFieldSize(|identifier|);
    var _ :- if location.Some? then CheckFieldSize(|location.value|) else Ok(());
    Validate(Macaroon(identifier, location, c.hmac(key, identifier), []))
  }

  function CheckCaveatCapacity<K>(m: Macaroon<K>): Result<()> {
    if |m.caveats| >= MAX_CAVEATS then Err(TooManyCaveats) else Ok(())
  }

  /** `m` with one more caveat, signed. */
  function Extended<K>(c: Crypto<K>, m: Macaroon<K>, caveat: Caveat): Macaroon<K> {
    m.(signature := Sign(c, caveat, m.signature), caveats := m.caveats + [caveat])
  }

  function WithFirstParty<K>(c: Crypto<K>, m: Macaroon<K>, pred: Bytes): Result<Macaroon<K>> {
    var _ :- CheckFieldSize(|pred|);
    var _ :- CheckCaveatCapacity(m);
    Ok(Extended(c, m, FirstParty(pred)))
  }

  /** `nonce` is what the random number generator gave; None when it failed. */
  function WithThirdParty<K>(c: Crypto<K>, m: Macaroon<K>, location: Str, key: K, id: Bytes, nonce: Option<Nonce>)
    : Result<Macaroon<K>>
  {
    var _ :- CheckFieldSize(|id|);
    var _ :- CheckFieldSize(|location|);
    var _ :- CheckCaveatCapacity(m);
    match nonce
    case None => Err(RngError)
    case Some(n) => Ok(Extended(c, m, ThirdParty(id, c.encrypt(m.signature, key, n), location)))
  }

  function Bound<K>(c: Crypto<K>, rootSig: K, discharge: Macaroon<K>): Macaroon<K> {
    discharge.(signature := c.bind(rootSig, discharge.signature))
  }

  predicate FitsField(b: Bytes) {
    |b| <= MAX_FIELD_SIZE_BYTES
  }

  predicate CaveatFits(caveat: Caveat) {
    match caveat
    case FirstParty(pred) => FitsField(pred)
    case ThirdParty(id, vid, location) => FitsField(id) && FitsField(vid) && FitsField(location)
  }

  /** The limits of the crate: an identifier, fields within the cap, and not too many caveats. */
  predicate WellFormed<K>(m: Macaroon<K>) {
    && m.identifier != [] && FitsField(m.identifier)
    && (m.location.Some? ==> FitsField(m.location.value))
    && |m.caveats| <= MAX_CAVEATS
    && (forall i :: 0 <= i < |m.caveats| ==> CaveatFits(m.caveats[i]))
  }

  /** A macaroon that is changed in place by the calls of the crate. */
  class MutableMacaroon<K> {
    const c: Crypto<K>
    var identifier: Bytes
    var location: Option<Str>
    var signature: K
    var caveats: seq<Caveat>

    function Value(): Macaroon<K>
      reads this
    {
      Macaroon(identifier, location, signature, caveats)
    }

    constructor (c: Crypto<K>, m: Macaroon<K>)
      ensures this.c == c && Value() == m
    {
      this.c := c;
      identifier, location, signature, caveats := m.identifier, m.location, m.signature, m.caveats;
    }

    static method Create(c: Crypto<K>, location: Option<Str>, key: K, identifier: Bytes)
      returns (r: Result<MutableMacaroon<K>>)
      ensures r.Err? ==> Created(c, location, key, identifier) == Err(r.error)
      ensures r.Ok? ==>
        fresh(r.value) && r.value.c == c && Created(c, location, key, identifier) == Ok(r.value.Value())
    {
      var _ :- CheckFieldSize(|identifier|);
      if location.Some? {
        var _ :- CheckFieldSize(|location.value|);
      }
      var signature := c.hmac(key, identifier);
      var m :- Validate(Macaroon(identifier, location, signature, []));
      var cell := new MutableMacaroon(c, m);
      return Ok(cell);
    }

    method AddFirstPartyCaveat(pred: Bytes) returns (r: Result<()>)
      modifies `signature, `caveats
      ensures match WithFirstParty(c, old(Value()), pred)
              case Ok(m) => r == Ok(()) && Value() == m
              case Err(e) => r == Err(e) && Value() == old(Value())
    {
      var _ :- CheckFieldSize(|pred|);
      var _ :- CheckCaveatCapacity(Value());
      var caveat := FirstParty(pred);
      signature := Sign(c, caveat, signature);
      caveats := caveats + [caveat];
      return Ok(());
    }

    method AddThirdPartyCaveat(location: Str, key: K, id: Bytes, nonce: Option<Nonce>) returns (r: Result<()>)
      modifies `signature, `caveats
      ensures match WithThirdParty(c, old(Value()), location, key, id, nonce)
              case Ok(m) => r == Ok(()) && Value() == m
              case Err(e) => r == Err(e) && Value() == old(Value())
    {
      var _ :- CheckFieldSize(|id|);
      var _ :- CheckFieldSize(|location|);
      var _ :- CheckCaveatCapacity(Value());
      if nonce.None? {
        return Err(RngError);
      }
      var vid := c.encrypt(signature, key, nonce.value);
      var caveat := ThirdParty(id, vid, location);
      signature := Sign(c, caveat, signature);
      caveats := caveats + [caveat];
      return Ok(());
    }

    /** Binds `discharge` to this macaroon. */
    method Bind(discharge: MutableMacaroon<K>)
      modifies discharge`signature
      ensures discharge.Value() == Bound(c, old(signature), old(discharge.Value()))
    {
      discharge.signature := c.bind(signature, discharge.signature);
    }
  }
}
