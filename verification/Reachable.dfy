/** What holds of every macaroon that a program can hold, whatever it called before. */
module Reachable {
  import opened Prelude
  import opened Crypto
  import opened Caveats
  import opened Macaroons
  import opened FieldSizes
  import opened Tokens

  datatype Call =
    | Create(location: Option<Str>, key: Key, identifier: Bytes)
    | AddFirstPartyCaveat(pred: Bytes)
    | AddThirdPartyCaveat(place: Str, caveatKey: Key, id: Bytes, nonce: Option<Nonce>)
    | BindTo(rootSig: Key)
    | DeserializeToken(token: Bytes)
    | DeserializeBinaryToken(binary: Bytes)

  /**
   The macaroon at hand after a call: a failed call leaves it as it was, and only three calls can make the first
   one.
   */
  function After(c: Crypto<Key>, serde: Serde, w: Word, m: Option<Macaroon<Key>>, call: Call): Option<Macaroon<Key>> {
    var r := match call
      case Create(location, key, identifier) => Created(c, location, key, identifier)
      case DeserializeToken(token) => Deserialize(serde, w, token)
      case DeserializeBinaryToken(binary) => DeserializeBinary(w, binary)
      case _ => if m.Some? then Change(c, m.value, call) else Err(IncompleteMacaroon);
    if r.Ok? then Some(r.value) else m
  }

  function Change(c: Crypto<Key>, m: Macaroon<Key>, call: Call): Result<Macaroon<Key>> {
    match call
    case AddFirstPartyCaveat(pred) => WithFirstParty(c, m, pred)
    case AddThirdPartyCaveat(place, caveatKey, id, nonce) => WithThirdParty(c, m, place, caveatKey, id, nonce)
    case BindTo(rootSig) => Ok(Bound(c, rootSig, m))
    case _ => Ok(m)
  }

  function Run(c: Crypto<Key>, serde: Serde, w: Word, m: Option<Macaroon<Key>>, calls: seq<Call>): Option<Macaroon<Key>>
    decreases |calls|
  {
    if calls == [] then m else Run(c, serde, w, After(c, serde, w, m, calls[0]), calls[1..])
  }

  lemma ExtendedWellFormed(c: Crypto<Key>, m: Macaroon<Key>, caveat: Caveat)
    requires WellFormed(m) && |m.caveats| < MAX_CAVEATS && CaveatFits(caveat)
    ensures WellFormed(Extended(c, m, caveat))
  {
  }

  lemma ChangeWellFormed(c: Crypto<Key>, m: Macaroon<Key>, call: Call)
    requires CiphertextSized(c) && WellFormed(m) && Change(c, m, call).Ok?
    ensures WellFormed(Change(c, m, call).value)
  {
    match call
    case AddFirstPartyCaveat(pred) => ExtendedWellFormed(c, m, FirstParty(pred));
    case AddThirdPartyCaveat(place, caveatKey, id, nonce) =>
      ExtendedWellFormed(c, m, ThirdParty(id, c.encrypt(m.signature, caveatKey, nonce.value), place));
    case _ =>
  }

  lemma AfterWellFormed(c: Crypto<Key>, serde: Serde, w: Word, m: Option<Macaroon<Key>>, call: Call)
    requires CiphertextSized(c)
    requires m.Some? ==> WellFormed(m.value)
    ensures var next := After(c, serde, w, m, call); next.Some? ==> WellFormed(next.value)
  {
    match call
    case Create(_, _, _) =>
    case DeserializeToken(token) => DeserializedWellFormed(serde, w, token);
    case DeserializeBinaryToken(binary) => BinaryWellFormed(w, binary);
    case _ =>
      if m.Some? && Change(c, m.value, call).Ok? {
        ChangeWellFormed(c, m.value, call);
      }
  }

  /** Every macaroon that some run of calls leads to is within the limits of the crate. */
  lemma {:induction false} ReachableWellFormed(c: Crypto<Key>, serde: Serde, w: Word, m: Option<Macaroon<Key>>,
                                               calls: seq<Call>)
    requires CiphertextSized(c)
    requires m.Some? ==> WellFormed(m.value)
    ensures var r := Run(c, serde, w, m, calls); r.Some? ==> WellFormed(r.value)
    decreases |calls|
  {
    if calls != [] {
      AfterWellFormed(c, serde, w, m, calls[0]);
      ReachableWellFormed(c, serde, w, After(c, serde, w, m, calls[0]), calls[1..]);
    }
  }
}
