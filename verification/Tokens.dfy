/** Tokens: the entry points that serialize in a chosen format and deserialize by sniffing. */
module Tokens {
  import opened Prelude
  import opened Macaroons
  import Base64
  import FieldSizes
  import Base64Text
  import V1Format
  import V1Grammar
  import V1Theorems
  import V2Format
  import V2Json
  import V2JsonGrammar

  datatype Format = V1 | V2 | V2JSON

  /** The JSON library: writing and reading the text of a V2JSON object. */
  datatype Serde = Serde(write: V2Json.Json<Str> -> Bytes, read: Bytes -> Option<V2Json.Json<Str>>)

  const OPEN_BRACE: byte := 0x7B

  /** What is written is an object, and is read back. */
  ghost predicate Faithful(serde: Serde) {
    forall j :: serde.write(j) != [] && serde.write(j)[0] == OPEN_BRACE && serde.read(serde.write(j)) == Some(j)
  }

  function ToBase64(b: Bytes): Bytes {
    Base64.Encode(Base64.UrlSafe, true, b)
  }

  function Serialize(serde: Serde, m: Macaroon<Key>, f: Format): Result<Bytes> {
    match f
    case V1 =>
      var b :- V1Format.Serialize(m);
      Ok(ToBase64(b))
    case V2 => Ok(ToBase64(V2Format.Encode(m)))
    case V2JSON => Ok(serde.write(V2Json.Serialize(m)))
  }

  function DeserializeBinary(w: FieldSizes.Word, token: Bytes): Result<Macaroon<Key>> {
    if token == [] then Err(DeserializationError)
    else
      var m :- if token[0] == V2Format.VERSION then V2Format.Parse(w, token)
               else if V1Format.HexValue(token[0]).Some? then V1Format.Parse(token)
               else Err(DeserializationError);
      Validate(m)
  }

  function DeserializeJson(serde: Serde, token: Bytes): Result<Macaroon<Key>> {
    match serde.read(token)
    case Some(j) => V2Json.Parse(j)
    case None => Err(DeserializationError)
  }

  function DeserializeBase64(w: FieldSizes.Word, token: Bytes): Result<Macaroon<Key>> {
    var binary :- Base64.DecodeFlexible(token);
    DeserializeBinary(w, binary)
  }

  function Deserialize(serde: Serde, w: FieldSizes.Word, token: Bytes): Result<Macaroon<Key>> {
    if token == [] then Err(DeserializationError)
    else
      var m :- if token[0] == OPEN_BRACE then DeserializeJson(serde, token) else DeserializeBase64(w, token);
      Validate(m)
  }

  // ------------------------------------------------------------- proofs

  /** The macaroons that a format can carry. */
  predicate InDomain(m: Macaroon<Key>, f: Format) {
    match f
    case V1 => V1Theorems.MacaroonFitsV1(m)
    case V2 => true
    case V2JSON => V2Json.BytesPresent(m)
  }

  lemma NotAnObject(b: Bytes)
    requires b != []
    ensures ToBase64(b) != [] && ToBase64(b)[0] != OPEN_BRACE
  {
    var token := ToBase64(b);
    Base64.EncodeNonempty(Base64.UrlSafe, true, b);
    Base64.EncodeBounds(Base64.UrlSafe, b);
    assert token[0] in token;
  }

  lemma Base64Token(w: FieldSizes.Word, serde: Serde, b: Bytes)
    requires b != []
    ensures Deserialize(serde, w, ToBase64(b)) ==
              match DeserializeBinary(w, b)
              case Ok(m) => Validate(m)
              case Err(e) => Err(e)
  {
    NotAnObject(b);
    Base64.FlexibleDecodesEncode(Base64.UrlSafe, true, b);
  }

  lemma V1FirstByte(m: Macaroon<Key>)
    requires V1Format.Serialize(m).Ok?
    ensures var b := V1Format.Serialize(m).value; b != [] && V1Format.HexValue(b[0]).Some?
  {
    var ps := V1Format.PacketsOf(m);
    assert ps != [];
  }

  lemma V1RoundTrip(serde: Serde, w: FieldSizes.Word, m: Macaroon<Key>)
    requires WellFormed(m)
    ensures if InDomain(m, V1) then
              Serialize(serde, m, V1).Ok? && Deserialize(serde, w, Serialize(serde, m, V1).value) == Ok(m)
            else Serialize(serde, m, V1).Err?
  {
    V1Theorems.SerializeExact(m);
    if InDomain(m, V1) {
      V1Theorems.RoundTrip(m);
      V1FirstByte(m);
      Base64Token(w, serde, V1Format.Serialize(m).value);
    }
  }

  lemma V2RoundTrip(serde: Serde, w: FieldSizes.Word, m: Macaroon<Key>)
    requires WellFormed(m)
    ensures Serialize(serde, m, V2).Ok? && Deserialize(serde, w, Serialize(serde, m, V2).value) == Ok(m)
  {
    V2Format.ParseComplete(w, m);
    assert V2Format.Encode(m)[0] == V2Format.VERSION;
    Base64Token(w, serde, V2Format.Encode(m));
  }

  /** The first byte selects the parser of the format in which a macaroon was written, and the macaroon comes back. */
  lemma TokenRoundTrip(serde: Serde, w: FieldSizes.Word, m: Macaroon<Key>, f: Format)
    requires Faithful(serde) && WellFormed(m)
    ensures InDomain(m, f) ==>
              Serialize(serde, m, f).Ok? && Deserialize(serde, w, Serialize(serde, m, f).value) == Ok(m)
    ensures !InDomain(m, f) ==> Serialize(serde, m, f).Err? || Deserialize(serde, w, Serialize(serde, m, f).value).Err?
  {
    match f
    case V1 => V1RoundTrip(serde, w, m);
    case V2 => V2RoundTrip(serde, w, m);
    case V2JSON => V2Json.RoundTripExact(m);
  }

  /** Writes and reads a macaroon in one format after the other. */
  function Transcode(serde: Serde, w: FieldSizes.Word, m: Macaroon<Key>, fs: seq<Format>): Result<Macaroon<Key>>
    decreases |fs|
  {
    if fs == [] then Ok(m)
    else
      var token :- Serialize(serde, m, fs[0]);
      var next :- Deserialize(serde, w, token);
      Transcode(serde, w, next, fs[1..])
  }

  /** Any chain of formats gives the same macaroon back, as long as each of them can carry it; otherwise it fails. */
  lemma {:induction false} TranscodeExact(serde: Serde, w: FieldSizes.Word, m: Macaroon<Key>, fs: seq<Format>)
    requires Faithful(serde) && WellFormed(m)
    ensures (forall i :: 0 <= i < |fs| ==> InDomain(m, fs[i])) ==> Transcode(serde, w, m, fs) == Ok(m)
    ensures (exists i :: 0 <= i < |fs| && !InDomain(m, fs[i])) ==> Transcode(serde, w, m, fs).Err?
    decreases |fs|
  {
    if fs != [] {
      TokenRoundTrip(serde, w, m, fs[0]);
      TranscodeExact(serde, w, m, fs[1..]);
      assert forall i :: 1 <= i < |fs| ==> fs[i] == fs[1..][i - 1];
      if i :| 0 <= i < |fs| && !InDomain(m, fs[i]) {
        if i > 0 {
          assert !InDomain(m, fs[1..][i - 1]);
        }
      }
    }
  }

  /** Every token that is accepted, in whatever format, gives a macaroon within the limits of the crate. */
  lemma DeserializedWellFormed(serde: Serde, w: FieldSizes.Word, token: Bytes)
    ensures Deserialize(serde, w, token).Ok? ==> WellFormed(Deserialize(serde, w, token).value)
  {
    if Deserialize(serde, w, token).Ok? {
      if token[0] == OPEN_BRACE {
        V2Json.ParsedWellFormed(V2Json.OfText(serde.read(token).value).value);
      } else {
        BinaryWellFormed(w, Base64.DecodeFlexible(token).value);
      }
    }
  }

  lemma BinaryWellFormed(w: FieldSizes.Word, token: Bytes)
    ensures DeserializeBinary(w, token).Ok? ==> WellFormed(DeserializeBinary(w, token).value)
  {
    if DeserializeBinary(w, token).Ok? {
      var m := DeserializeBinary(w, token).value;
      if token[0] == V2Format.VERSION {
        V2Format.ParseSound(w, token, m);
      } else {
        var strays := V1Theorems.Normalizes(token, m);
      }
    }
  }

  // ------------------------------------------- which tokens say what

  const HEX_DIGITS := "0123456789abcdefABCDEF"

  ghost predicate V1Says(binary: Bytes, m: Macaroon<Key>) {
    exists ps :: V1Format.Consists(binary, ps) && V1Grammar.Spells(ps, m)
  }

  /** A V2 token is the encoding of a macaroon; a V1 token starts with a hexadecimal digit and spells it. */
  ghost predicate BinarySays(binary: Bytes, m: Macaroon<Key>) {
    || (WellFormed(m) && binary == V2Format.Encode(m))
    || (binary != [] && binary[0] in Ascii(HEX_DIGITS) && V1Says(binary, m))
  }

  /** A token in braces is a V2JSON object; any other is base64, in any of its spellings, of a V2 or V1 token. */
  ghost predicate TokenSays(serde: Serde, token: Bytes, m: Macaroon<Key>) {
    token != [] && if token[0] == Ascii("{")[0] then ObjectSays(serde, token, m) else Base64Says(token, m)
  }

  ghost predicate ObjectSays(serde: Serde, token: Bytes, m: Macaroon<Key>) {
    serde.read(token).Some? && V2JsonGrammar.TextSays(serde.read(token).value, m) && WellFormed(m)
  }

  ghost predicate Base64Says(token: Bytes, m: Macaroon<Key>) {
    exists b, a, pads: nat :: b != [] && Base64Text.RepresentsWith(a, pads, token, b) && BinarySays(b, m)
  }

  function HexCode(i: nat): int {
    if i < 10 then 0x30 + i else if i < 16 then 0x61 + (i - 10) else 0x41 + (i - 16)
  }

  lemma HexAt(i: nat)
    requires i < 22
    ensures |HEX_DIGITS| == 22 && HEX_DIGITS[i] as int == HexCode(i)
  {
  }

  lemma HexByte(i: nat)
    requires i < 22
    ensures |Ascii(HEX_DIGITS)| == 22 && Ascii(HEX_DIGITS)[i] == HexCode(i)
  {
    HexAt(i);
  }

  lemma HexText(c: byte)
    ensures V1Format.HexValue(c).Some? <==> c in Ascii(HEX_DIGITS)
  {
    var t := Ascii(HEX_DIGITS);
    HexByte(0);
    if V1Format.HexValue(c).Some? {
      var i := if c <= 0x39 then c - 0x30 else if c >= 0x61 then c - 0x61 + 10 else c - 0x41 + 16;
      HexByte(i);
      assert t[i] == c;
    }
    forall i | 0 <= i < |t|
      ensures V1Format.HexValue(t[i]).Some?
    {
      HexByte(i);
    }
  }

  lemma BinaryExact(w: FieldSizes.Word, binary: Bytes, m: Macaroon<Key>)
    ensures DeserializeBinary(w, binary) == Ok(m) <==> BinarySays(binary, m)
  {
    if binary != [] {
      HexText(binary[0]);
    }
    V2Exact(w, binary, m);
    V1Exact(binary, m);
  }

  lemma V2Exact(w: FieldSizes.Word, binary: Bytes, m: Macaroon<Key>)
    ensures V2Format.Parse(w, binary) == Ok(m) <==> WellFormed(m) && binary == V2Format.Encode(m)
    ensures V2Format.Encode(m) != [] && V2Format.Encode(m)[0] == 2
  {
    V2Format.ParseExact(w, binary, m);
  }

  lemma V1Exact(binary: Bytes, m: Macaroon<Key>)
    ensures V1Format.Parse(binary) == Ok(m) <==> V1Says(binary, m)
    ensures V1Says(binary, m) ==> m.identifier != []
  {
    V1Theorems.ParseExact(binary, m);
  }

  lemma Base64Exact(w: FieldSizes.Word, token: Bytes, m: Macaroon<Key>)
    ensures DeserializeBase64(w, token) == Ok(m) <==> Base64Says(token, m)
  {
    if DeserializeBase64(w, token) == Ok(m) {
      var b := Base64.DecodeFlexible(token).value;
      Base64Text.ReadExact(token, b);
      BinaryExact(w, b, m);
    }
    if b, a, pads: nat :| b != [] && Base64Text.RepresentsWith(a, pads, token, b) && BinarySays(b, m) {
      Base64Text.ReadExact(token, b);
      BinaryExact(w, b, m);
    }
  }

  lemma JsonExact(serde: Serde, token: Bytes, m: Macaroon<Key>)
    ensures DeserializeJson(serde, token) == Ok(m) <==> ObjectSays(serde, token, m)
  {
    if serde.read(token).Some? {
      V2JsonGrammar.ParseExact(serde.read(token).value, m);
    }
  }

  lemma SaidHasIdentifier(token: Bytes, m: Macaroon<Key>)
    requires Base64Says(token, m)
    ensures m.identifier != []
  {
    var b, a, pads: nat :| b != [] && Base64Text.RepresentsWith(a, pads, token, b) && BinarySays(b, m);
  }

  lemma Brace()
    ensures Ascii("{")[0] == OPEN_BRACE
  {
  }

  lemma ObjectExact(serde: Serde, w: FieldSizes.Word, token: Bytes, m: Macaroon<Key>)
    requires token != [] && token[0] == OPEN_BRACE
    ensures Deserialize(serde, w, token) == Ok(m) <==> DeserializeJson(serde, token) == Ok(m) && m.identifier != []
  {
  }

  lemma OtherExact(serde: Serde, w: FieldSizes.Word, token: Bytes, m: Macaroon<Key>)
    requires token != [] && token[0] != OPEN_BRACE
    ensures Deserialize(serde, w, token) == Ok(m) <==> DeserializeBase64(w, token) == Ok(m) && m.identifier != []
  {
  }

  /** A token is read as a macaroon exactly when it says that macaroon. */
  lemma TokenExact(serde: Serde, w: FieldSizes.Word, token: Bytes, m: Macaroon<Key>)
    ensures Deserialize(serde, w, token) == Ok(m) <==> TokenSays(serde, token, m)
  {
    Brace();
    if token == [] {
      assert Deserialize(serde, w, token).Err?;
    } else if token[0] == OPEN_BRACE {
      ObjectExact(serde, w, token, m);
      JsonExact(serde, token, m);
    } else {
      OtherExact(serde, w, token, m);
      Base64Exact(w, token, m);
      if Base64Says(token, m) {
        SaidHasIdentifier(token, m);
      }
    }
  }

  /** Binary tokens are written in the URL-safe alphabet with padding. */
  lemma WrittenTokens(serde: Serde, m: Macaroon<Key>)
    ensures var token := Serialize(serde, m, V2);
            token.Ok? && Base64Text.Represents(Base64.UrlSafe, true, token.value, V2Format.Encode(m))
    ensures var token, binary := Serialize(serde, m, V1), V1Format.Serialize(m);
            if binary.Ok? then token.Ok? && Base64Text.Represents(Base64.UrlSafe, true, token.value, binary.value)
            else token == Err(binary.error)
  {
    Base64Text.EncodeRepresents(Base64.UrlSafe, true, V2Format.Encode(m));
    if V1Format.Serialize(m).Ok? {
      Base64Text.EncodeRepresents(Base64.UrlSafe, true, V1Format.Serialize(m).value);
    }
  }
}
