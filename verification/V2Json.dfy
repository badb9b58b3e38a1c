/** The V2JSON format, from the JSON object on; the JSON text itself is left to the JSON library. */
module V2Json {
  import opened Prelude
  import opened Base64
  import opened Crypto
  import opened Caveats
  import opened Macaroons
  import opened MacaroonBuilders

  /** `B` is the type of the byte fields: bytes in the parsed object, base64 strings in the JSON text. */
  datatype JsonCaveat<+B> =
    JsonCaveat(i: Option<Str>, i64: Option<B>, l: Option<Str>, l64: Option<Str>, v: Option<Str>, v64: Option<B>)

  datatype Json<+B> =
    Json(version: byte, i: Option<Str>, i64: Option<B>, l: Option<Str>, l64: Option<Str>, c: seq<JsonCaveat<B>>,
         s: Option<Bytes>, s64: Option<Str>)

  const VERSION: byte := 2

  lemma {:induction false} EncodeIsAscii(a: Alphabet, padded: bool, b: Bytes)
    ensures forall i :: 0 <= i < |Encode(a, padded, b)| ==> Encode(a, padded, b)[i] < 0x80
  {
    if |b| >= 3 {
      EncodeIsAscii(a, padded, b[3..]);
    }
  }

  /** URL-safe base64 without padding, as a string. */
  function Text(b: Bytes): Str {
    EncodeIsAscii(UrlSafe, false, b);
    AsciiIsUtf8(Encode(UrlSafe, false, b), 0);
    Encode(UrlSafe, false, b)
  }

  function DecodeText(t: Str): Result<Str> {
    var b :- DecodeFlexible(t);
    FromUtf8(b)
  }

  // ------------------------------------------------------------ writing

  function CaveatToJson(caveat: Caveat): JsonCaveat<Bytes> {
    match caveat
    case FirstParty(pred) => JsonCaveat(None, Some(pred), None, None, None, None)
    case ThirdParty(id, vid, location) => JsonCaveat(None, Some(id), Some(location), None, None, Some(vid))
  }

  function CaveatsToJson(cs: seq<Caveat>): (r: seq<JsonCaveat<Bytes>>)
    ensures |r| == |cs|
  {
    if cs == [] then []
    else
      var n := |cs| - 1;
      CaveatsToJson(cs[..n]) + [CaveatToJson(cs[n])]
  }

  function ToJson(m: Macaroon<Key>): Json<Bytes> {
    Json(VERSION, None, Some(m.identifier), m.location, None, CaveatsToJson(m.caveats), None, Some(Text(m.signature)))
  }

  method FromMacaroon(m: Macaroon<Key>) returns (r: Json<Bytes>)
    ensures r == ToJson(m)
  {
    var serialized: Json<Bytes> :=
      Json(VERSION, None, Some(m.identifier), m.location, None, [], None, Some(Text(m.signature)));
    var k := 0;
    while k < |m.caveats|
      invariant 0 <= k <= |m.caveats|
      invariant serialized == ToJson(m).(c := CaveatsToJson(m.caveats[..k]))
    {
      var c: JsonCaveat<Bytes>;
      match m.caveats[k] {
        case FirstParty(pred) =>
          c := JsonCaveat(None, Some(pred), None, None, None, None);
        case ThirdParty(id, vid, location) =>
          c := JsonCaveat(None, Some(id), Some(location), None, None, Some(vid));
      }
      assert m.caveats[..k + 1][..k] == m.caveats[..k];
      serialized := serialized.(c := serialized.c + [c]);
      k := k + 1;
    }
    assert m.caveats[..k] == m.caveats;
    return serialized;
  }

  // ------------------------------------------------------------ reading

  function RejectBoth<A, B>(a: Option<A>, b: Option<B>): Result<()> {
    if a.Some? && b.Some? then Err(DeserializationError) else Ok(())
  }

  /** The plain field if there is one, else the other. */
  function Either(plain: Option<Bytes>, other: Option<Bytes>): Option<Bytes> {
    if plain.Some? then plain else other
  }

  function Required(field: Option<Bytes>): Result<Bytes> {
    if field.Some? then Ok(field.value) else Err(DeserializationError)
  }

  /** A location, from its plain field or decoded from its base64 field, within the cap. */
  function GetLocation(l: Option<Str>, l64: Option<Str>): Result<Option<Str>> {
    if l.Some? then
      var _ :- CheckFieldSize(|l.value|);
      Ok(l)
    else if l64.Some? then
      var location :- DecodeText(l64.value);
      var _ :- CheckFieldSize(|location|);
      Ok(Some(location))
    else Ok(None)
  }

  function GetSignature(s: Option<Bytes>, s64: Option<Str>): Result<Key> {
    var raw :- if s.Some? then Ok(s.value)
               else if s64.Some? then DecodeFlexible(s64.value)
               else Err(DeserializationError);
    if |raw| != 32 then Err(DeserializationError) else Ok(raw)
  }

  function CaveatOfJson(c: JsonCaveat<Bytes>): Result<Caveat> {
    var _ :- RejectBoth(c.i, c.i64);
    var _ :- RejectBoth(c.l, c.l64);
    var _ :- RejectBoth(c.v, c.v64);
    var id :- Required(Either(c.i, c.i64));
    var _ :- CheckFieldSize(|id|);
    var location :- GetLocation(c.l, c.l64);
    var vid := Either(c.v, c.v64);
    var _ :- if vid.Some? then CheckFieldSize(|vid.value|) else Ok(());
    Assemble(Parts(Some(id), vid, location))
  }

  function AddCaveats(d: Draft, cs: seq<JsonCaveat<Bytes>>): Result<Draft>
    decreases |cs|
  {
    if cs == [] then Ok(d)
    else
      var caveat :- CaveatOfJson(cs[0]);
      var next :- WithCaveat(d, caveat);
      AddCaveats(next, cs[1..])
  }

  /** Everything but the caveats. */
  function GetFields(j: Json<Bytes>): Result<Draft> {
    if j.version != VERSION then Err(DeserializationError)
    else
      var _ :- RejectBoth(j.i, j.i64);
      var _ :- RejectBoth(j.l, j.l64);
      var _ :- RejectBoth(j.s, j.s64);
      var id :- Required(Either(j.i, j.i64));
      var _ :- CheckFieldSize(|id|);
      var location :- GetLocation(j.l, j.l64);
      var sig :- GetSignature(j.s, j.s64);
      Ok(Draft(id, location, Some(sig), []))
  }

  function OfJson(j: Json<Bytes>): Result<Macaroon<Key>> {
    var fields :- GetFields(j);
    var d :- AddCaveats(fields, j.c);
    Finish(d)
  }

  method ReadCaveat(c: JsonCaveat<Bytes>, builder: CaveatBuilder) returns (r: Result<Caveat>)
    requires builder.Value() == NO_PARTS
    modifies builder
    ensures r == CaveatOfJson(c)
  {
    var _ :- RejectBoth(c.i, c.i64);
    var _ :- RejectBoth(c.l, c.l64);
    var _ :- RejectBoth(c.v, c.v64);
    var id :- Required(Either(c.i, c.i64));
    var _ :- CheckFieldSize(|id|);
    builder.AddId(id);
    var location :- GetLocation(c.l, c.l64);
    if location.Some? {
      builder.AddLocation(location.value);
    }
    var vid := Either(c.v, c.v64);
    if vid.Some? {
      var _ :- CheckFieldSize(|vid.value|);
      builder.AddVerifierId(vid.value);
    }
    r := builder.Build();
  }

  method FromJson(j: Json<Bytes>) returns (r: Result<Macaroon<Key>>)
    ensures r == OfJson(j)
  {
    if j.version != VERSION {
      return Err(DeserializationError);
    }
    var _ :- RejectBoth(j.i, j.i64);
    var _ :- RejectBoth(j.l, j.l64);
    var _ :- RejectBoth(j.s, j.s64);
    var builder := new MacaroonBuilder();
    var id :- Required(Either(j.i, j.i64));
    var _ :- CheckFieldSize(|id|);
    builder.SetIdentifier(id);
    var location :- GetLocation(j.l, j.l64);
    if location.Some? {
      builder.SetLocation(location.value);
    }
    var sig :- GetSignature(j.s, j.s64);
    builder.SetSignature(sig);
    ghost var draft := builder.Value();
    var k := 0;
    while k < |j.c|
      invariant 0 <= k <= |j.c|
      invariant fresh(builder)
      invariant AddCaveats(builder.Value(), j.c[k..]) == AddCaveats(draft, j.c)
    {
      assert j.c[k..][0] == j.c[k] && j.c[k..][1..] == j.c[k + 1..];
      var caveatBuilder := new CaveatBuilder();
      var caveat :- ReadCaveat(j.c[k], caveatBuilder);
      var _ :- builder.AddCaveat(caveat);
      k := k + 1;
    }
    r := builder.Build();
  }

  // ------------------------------------------- byte fields as JSON text

  function CaveatToText(c: JsonCaveat<Bytes>): JsonCaveat<Str> {
    JsonCaveat(c.i, TextField(c.i64), c.l, c.l64, c.v, TextField(c.v64))
  }

  function TextField(f: Option<Bytes>): Option<Str> {
    if f.Some? then Some(Text(f.value)) else None
  }

  function ToText(j: Json<Bytes>): Json<Str> {
    var cs := seq(|j.c|, k requires 0 <= k < |j.c| => CaveatToText(j.c[k]));
    Json(j.version, j.i, TextField(j.i64), j.l, j.l64, cs, j.s, j.s64)
  }

  function BytesField(f: Option<Str>): Result<Option<Bytes>> {
    if f.None? then Ok(None)
    else
      var b :- DecodeFlexible(f.value);
      Ok(Some(b))
  }

  function CaveatOfText(c: JsonCaveat<Str>): Result<JsonCaveat<Bytes>> {
    var i64 :- BytesField(c.i64);
    var v64 :- BytesField(c.v64);
    Ok(JsonCaveat(c.i, i64, c.l, c.l64, c.v, v64))
  }

  function CaveatsOfText(cs: seq<JsonCaveat<Str>>): Result<seq<JsonCaveat<Bytes>>> {
    if cs == [] then Ok([])
    else
      var first :- CaveatOfText(cs[0]);
      var rest :- CaveatsOfText(cs[1..]);
      Ok([first] + rest)
  }

  function OfText(j: Json<Str>): Result<Json<Bytes>> {
    var i64 :- BytesField(j.i64);
    var c :- CaveatsOfText(j.c);
    Ok(Json(j.version, j.i, i64, j.l, j.l64, c, j.s, j.s64))
  }

  function Serialize(m: Macaroon<Key>): Json<Str> {
    ToText(ToJson(m))
  }

  function Parse(j: Json<Str>): Result<Macaroon<Key>> {
    var parsed :- OfText(j);
    OfJson(parsed)
  }

  // ------------------------------------------------------------- proofs

  lemma TextDecodes(b: Bytes)
    ensures DecodeFlexible(Text(b)) == if b != [] then Ok(b) else Err(DeserializationError)
  {
    if b != [] {
      FlexibleDecodesEncode(UrlSafe, false, b);
    }
  }

  lemma CaveatOfToJson(caveat: Caveat)
    ensures CaveatOfJson(CaveatToJson(caveat)) == if CaveatFits(caveat) then Ok(caveat) else Err(FieldTooLarge)
  {
  }

  lemma {:induction false} CaveatsToJsonCons(cs: seq<Caveat>)
    requires cs != []
    ensures CaveatsToJson(cs) == [CaveatToJson(cs[0])] + CaveatsToJson(cs[1..])
  {
    var n := |cs| - 1;
    if n > 0 {
      CaveatsToJsonCons(cs[..n]);
      assert cs[..n][1..] == cs[1..][..n - 1];
    }
  }

  lemma {:induction false} AddCaveatsToJson(d: Draft, cs: seq<Caveat>)
    ensures var fits := |d.caveats| + |cs| <= MAX_CAVEATS && forall k :: 0 <= k < |cs| ==> CaveatFits(cs[k]);
            var r := AddCaveats(d, CaveatsToJson(cs));
            && (r.Ok? <==> cs == [] || fits)
            && (r.Ok? ==> r.value == d.(caveats := d.caveats + cs))
    decreases |cs|
  {
    if cs == [] {
      assert d.caveats + cs == d.caveats;
    } else {
      CaveatsToJsonCons(cs);
      CaveatOfToJson(cs[0]);
      assert CaveatsToJson(cs)[1..] == CaveatsToJson(cs[1..]);
      assert forall k :: 1 <= k < |cs| ==> cs[k] == cs[1..][k - 1];
      if CaveatFits(cs[0]) && |d.caveats| < MAX_CAVEATS {
        var next := d.(caveats := d.caveats + [cs[0]]);
        AddCaveatsToJson(next, cs[1..]);
        assert next.caveats + cs[1..] == d.caveats + cs;
      }
    }
  }

  lemma SignatureOfText(sig: Key)
    ensures GetSignature(None, Some(Text(sig))) == Ok(sig)
  {
    TextDecodes(sig);
  }

  lemma ToJsonDraft(m: Macaroon<Key>)
    ensures AddCaveats(Draft(m.identifier, m.location, Some(m.signature), []), ToJson(m).c).Ok? <==>
              |m.caveats| <= MAX_CAVEATS && forall k :: 0 <= k < |m.caveats| ==> CaveatFits(m.caveats[k])
    ensures var r := AddCaveats(Draft(m.identifier, m.location, Some(m.signature), []), ToJson(m).c);
            r.Ok? ==> r.value == Draft(m.identifier, m.location, Some(m.signature), m.caveats)
  {
    AddCaveatsToJson(Draft(m.identifier, m.location, Some(m.signature), []), m.caveats);
    assert [] + m.caveats == m.caveats;
  }

  /** An object made from a macaroon is read back exactly when the macaroon is within the limits of the crate. */
  lemma JsonRoundTrip(m: Macaroon<Key>)
    ensures OfJson(ToJson(m)).Ok? <==> WellFormed(m)
    ensures WellFormed(m) ==> OfJson(ToJson(m)) == Ok(m)
  {
    SignatureOfText(m.signature);
    ToJsonDraft(m);
  }

  predicate CaveatBytesPresent(caveat: Caveat) {
    match caveat
    case FirstParty(pred) => pred != []
    case ThirdParty(id, vid, _) => id != [] && vid != []
  }

  /** No byte field is empty: neither the identifier nor a predicate, caveat id or verifier id. */
  predicate BytesPresent(m: Macaroon<Key>) {
    m.identifier != [] && forall k :: 0 <= k < |m.caveats| ==> CaveatBytesPresent(m.caveats[k])
  }

  lemma CaveatTextRoundTrip(caveat: Caveat)
    ensures CaveatOfText(CaveatToText(CaveatToJson(caveat))) ==
              if CaveatBytesPresent(caveat) then Ok(CaveatToJson(caveat)) else Err(DeserializationError)
  {
    match caveat
    case FirstParty(pred) => TextDecodes(pred);
    case ThirdParty(id, vid, _) => TextDecodes(id); TextDecodes(vid);
  }

  lemma {:induction false} CaveatsTextRoundTrip(cs: seq<Caveat>, texts: seq<JsonCaveat<Str>>)
    requires |texts| == |cs|
    requires forall k :: 0 <= k < |cs| ==> texts[k] == CaveatToText(CaveatToJson(cs[k]))
    ensures CaveatsOfText(texts) ==
              if forall k :: 0 <= k < |cs| ==> CaveatBytesPresent(cs[k]) then Ok(CaveatsToJson(cs))
              else Err(DeserializationError)
  {
    if cs != [] {
      CaveatTextRoundTrip(cs[0]);
      CaveatsTextRoundTrip(cs[1..], texts[1..]);
      CaveatsToJsonCons(cs);
      assert forall k :: 1 <= k < |cs| ==> cs[k] == cs[1..][k - 1];
    }
  }

  lemma {:induction false} CaveatsToJsonAt(cs: seq<Caveat>, k: nat)
    requires k < |cs|
    ensures CaveatsToJson(cs)[k] == CaveatToJson(cs[k])
  {
    var n := |cs| - 1;
    if k < n {
      CaveatsToJsonAt(cs[..n], k);
    }
  }

  /**
   A macaroon within the limits survives V2JSON exactly when none of its byte fields is empty: an empty one is
   written as an empty string, which the base64 decoder rejects.
   */
  lemma RoundTripExact(m: Macaroon<Key>)
    requires WellFormed(m)
    ensures Parse(Serialize(m)) == if BytesPresent(m) then Ok(m) else Err(DeserializationError)
  {
    var j := ToJson(m);
    forall k | 0 <= k < |m.caveats|
      ensures Serialize(m).c[k] == CaveatToText(CaveatToJson(m.caveats[k]))
    {
      CaveatsToJsonAt(m.caveats, k);
    }
    TextDecodes(m.identifier);
    CaveatsTextRoundTrip(m.caveats, Serialize(m).c);
    JsonRoundTrip(m);
  }

  /** A macaroon that the crate builds and writes, but does not read back: one caveat with an empty predicate. */
  lemma EmptyPredicateIsLost(c: Crypto<Key>, key: Key, identifier: Bytes) returns (m: Macaroon<Key>)
    requires identifier != [] && FitsField(identifier)
    ensures Created(c, None, key, identifier).Ok?
    ensures WithFirstParty(c, Created(c, None, key, identifier).value, []) == Ok(m)
    ensures WellFormed(m) && Parse(Serialize(m)) == Err(DeserializationError)
  {
    m := WithFirstParty(c, Created(c, None, key, identifier).value, []).value;
    assert m.caveats == [FirstParty([])];
    assert !CaveatBytesPresent(m.caveats[0]);
    RoundTripExact(m);
  }

  // --------------------------------------------------- limits of what is read

  lemma {:induction false} AddedFit(d: Draft, cs: seq<JsonCaveat<Bytes>>)
    requires |d.caveats| <= MAX_CAVEATS && forall k :: 0 <= k < |d.caveats| ==> CaveatFits(d.caveats[k])
    requires AddCaveats(d, cs).Ok?
    ensures var r := AddCaveats(d, cs).value;
            && r == d.(caveats := r.caveats)
            && |r.caveats| <= MAX_CAVEATS && forall k :: 0 <= k < |r.caveats| ==> CaveatFits(r.caveats[k])
    decreases |cs|
  {
    if cs != [] {
      AddedFit(WithCaveat(d, CaveatOfJson(cs[0]).value).value, cs[1..]);
    }
  }

  /** Whatever is read is within the limits of the crate. */
  lemma ParsedWellFormed(j: Json<Bytes>)
    requires OfJson(j).Ok?
    ensures WellFormed(OfJson(j).value)
  {
    AddedFit(GetFields(j).value, j.c);
  }

  // ------------------------------------------------- plain and base64 twins

  /** Moves a plain byte field to its base64 twin, if that is free. */
  function TwinBytes(plain: Option<Bytes>, other: Option<Bytes>): (Option<Str>, Option<Bytes>)
    requires plain.Some? ==> ValidUtf8(plain.value)
  {
    if plain.Some? && other.None? then (None, plain) else (plain, other)
  }

  /** The one text, of all that spell the same bytes, that the writer uses; an unreadable text is left alone. */
  function Standardized(t: Str): Str {
    match DecodeFlexible(t)
    case Ok(b) => Text(b)
    case Err(_) => t
  }

  /** Moves a plain field with a base64 text as its twin there, unless it is empty or the twin is present too. */
  function TwinText(plain: Option<Bytes>, other: Option<Str>): (r: (Option<Bytes>, Option<Str>))
    ensures r.0 == plain || r.0 == None
  {
    match (plain, other)
    case (Some(b), None) => if b != [] then (None, Some(Text(b))) else (plain, other)
    case (None, Some(t)) => (None, Some(Standardized(t)))
    case _ => (plain, other)
  }

  function TwinCaveat(c: JsonCaveat<Bytes>): JsonCaveat<Bytes> {
    var (i, i64) := TwinBytes(c.i, c.i64);
    var (l, l64) := TwinText(c.l, c.l64);
    var (v, v64) := TwinBytes(c.v, c.v64);
    JsonCaveat(i, i64, l, l64, v, v64)
  }

  function TwinCaveats(cs: seq<JsonCaveat<Bytes>>): seq<JsonCaveat<Bytes>> {
    if cs == [] then [] else [TwinCaveat(cs[0])] + TwinCaveats(cs[1..])
  }

  /**
   The object with every non-empty plain field moved to its base64 twin, and every base64 text as the writer spells
   it.
   */
  function Twin(j: Json<Bytes>): Json<Bytes> {
    var (i, i64) := TwinBytes(j.i, j.i64);
    var (l, l64) := TwinText(j.l, j.l64);
    var (s, s64) := TwinText(j.s, j.s64);
    Json(j.version, i, i64, l, l64, TwinCaveats(j.c), s, s64)
  }

  lemma StandardizedSame(t: Str)
    ensures DecodeFlexible(Standardized(t)) == DecodeFlexible(t)
  {
    if DecodeFlexible(t).Ok? {
      var b := DecodeFlexible(t).value;
      FlexibleExact(t, b);
      TextDecodes(b);
    }
  }

  lemma TwinLocation(l: Option<Str>, l64: Option<Str>)
    ensures var (k, k64) := TwinText(l, l64);
            && RejectBoth(k, k64) == RejectBoth(l, l64)
            && (RejectBoth(l, l64).Ok? ==> GetLocation(k, k64) == GetLocation(l, l64))
  {
    if l.Some? {
      TextDecodes(l.value);
    } else if l64.Some? {
      StandardizedSame(l64.value);
    }
  }

  lemma TwinSignature(s: Option<Bytes>, s64: Option<Str>)
    ensures var (k, k64) := TwinText(s, s64);
            && RejectBoth(k, k64) == RejectBoth(s, s64)
            && (RejectBoth(s, s64).Ok? ==> GetSignature(k, k64) == GetSignature(s, s64))
  {
    if s.Some? {
      TextDecodes(s.value);
    } else if s64.Some? {
      StandardizedSame(s64.value);
    }
  }

  lemma TwinCaveatSame(c: JsonCaveat<Bytes>)
    ensures CaveatOfJson(TwinCaveat(c)) == CaveatOfJson(c)
  {
    TwinLocation(c.l, c.l64);
  }

  lemma {:induction false} TwinCaveatsSame(d: Draft, cs: seq<JsonCaveat<Bytes>>)
    ensures AddCaveats(d, TwinCaveats(cs)) == AddCaveats(d, cs)
    decreases |cs|
  {
    if cs != [] {
      TwinCaveatSame(cs[0]);
      assert TwinCaveats(cs)[1..] == TwinCaveats(cs[1..]);
      var caveat := CaveatOfJson(cs[0]);
      if caveat.Ok? && WithCaveat(d, caveat.value).Ok? {
        TwinCaveatsSame(WithCaveat(d, caveat.value).value, cs[1..]);
      }
    }
  }

  lemma TwinFieldsSame(j: Json<Bytes>)
    ensures GetFields(Twin(j)) == GetFields(j)
  {
    TwinLocation(j.l, j.l64);
    TwinSignature(j.s, j.s64);
  }

  lemma TwinSame(j: Json<Bytes>)
    ensures OfJson(Twin(j)) == OfJson(j)
  {
    TwinFieldsSame(j);
    if GetFields(j).Ok? {
      TwinCaveatsSame(GetFields(j).value, j.c);
    }
  }

  /**
   It does not matter which fields of an object are plain and which are base64: success or error, the result is the
   same.
   */
  lemma TwinsAgree(j: Json<Bytes>, k: Json<Bytes>)
    requires Twin(j) == Twin(k)
    ensures OfJson(j) == OfJson(k)
  {
    TwinSame(j);
    TwinSame(k);
  }
}
