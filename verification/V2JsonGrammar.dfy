/** Which V2JSON objects are read as which macaroon, field by field, and which object is written. */
module V2JsonGrammar {
  import opened Prelude
  import opened Base64
  import opened Base64Text
  import opened Caveats
  import opened Macaroons
  import opened MacaroonBuilders
  import opened V2Json

  /** One of a plain field and its base64 twin is present, and it is the given bytes. */
  predicate BytesAre(plain: Option<Bytes>, other: Option<Bytes>, value: Bytes) {
    (plain == Some(value) && other == None) || (plain == None && other == Some(value))
  }

  /** The same when the base64 twin is still a text. */
  predicate TextIs(plain: Option<Bytes>, text: Option<Str>, value: Bytes) {
    || (plain == Some(value) && text == None)
    || (plain == None && text.Some? && DecodeFlexible(text.value) == Ok(value))
  }

  predicate LocationIs(plain: Option<Str>, text: Option<Str>, location: Option<Str>) {
    match location
    case None => plain == None && text == None
    case Some(l) => TextIs(plain, text, l)
  }

  predicate CaveatIs(c: JsonCaveat<Bytes>, caveat: Caveat) {
    match caveat
    case FirstParty(pred) =>
      BytesAre(c.i, c.i64, pred) && c.l == None && c.l64 == None && c.v == None && c.v64 == None
    case ThirdParty(id, vid, location) =>
      BytesAre(c.i, c.i64, id) && TextIs(c.l, c.l64, location) && BytesAre(c.v, c.v64, vid)
  }

  ghost predicate AllAre(cs: seq<JsonCaveat<Bytes>>, caveats: seq<Caveat>) {
    |cs| == |caveats| && forall k :: 0 <= k < |cs| ==> CaveatIs(cs[k], caveats[k])
  }

  /** The object says `m`: of each pair of fields one is present, and the caveats correspond one by one. */
  ghost predicate Says(j: Json<Bytes>, m: Macaroon<Key>) {
    && j.version == 2
    && BytesAre(j.i, j.i64, m.identifier)
    && LocationIs(j.l, j.l64, m.location)
    && TextIs(j.s, j.s64, m.signature)
    && AllAre(j.c, m.caveats)
  }

  // -------------------------------------------------------------- proofs

  lemma LocationExact(l: Option<Str>, l64: Option<Str>, location: Option<Str>)
    ensures RejectBoth(l, l64).Ok? && GetLocation(l, l64) == Ok(location) <==>
              LocationIs(l, l64, location) && (location.Some? ==> FitsField(location.value))
  {
  }

  lemma CaveatExact(c: JsonCaveat<Bytes>, caveat: Caveat)
    ensures CaveatOfJson(c) == Ok(caveat) <==> CaveatIs(c, caveat) && CaveatFits(caveat)
  {
    var location := match caveat case FirstParty(_) => None case ThirdParty(_, _, l) => Some(l);
    LocationExact(c.l, c.l64, location);
    if CaveatOfJson(c) == Ok(caveat) {
      var id, vid := Either(c.i, c.i64).value, Either(c.v, c.v64);
      AssembleExact(Parts(Some(id), vid, GetLocation(c.l, c.l64).value), caveat);
    }
  }

  ghost predicate AllRead(cs: seq<JsonCaveat<Bytes>>, caveats: seq<Caveat>) {
    |cs| == |caveats| && forall k :: 0 <= k < |cs| ==> CaveatOfJson(cs[k]) == Ok(caveats[k])
  }

  lemma {:induction false} AddedSound(d: Draft, cs: seq<JsonCaveat<Bytes>>) returns (added: seq<Caveat>)
    requires AddCaveats(d, cs).Ok? && |d.caveats| <= MAX_CAVEATS
    ensures AddCaveats(d, cs).value == d.(caveats := d.caveats + added)
    ensures AllRead(cs, added) && |d.caveats| + |added| <= MAX_CAVEATS
    decreases |cs|
  {
    if cs == [] {
      added := [];
      assert d.caveats + added == d.caveats;
    } else {
      var caveat := CaveatOfJson(cs[0]).value;
      var rest := AddedSound(WithCaveat(d, caveat).value, cs[1..]);
      added := [caveat] + rest;
      Assoc(d.caveats, [caveat], rest);
      assert forall k :: 1 <= k < |cs| ==> cs[k] == cs[1..][k - 1] && added[k] == rest[k - 1];
    }
  }

  lemma {:induction false} AddedComplete(d: Draft, cs: seq<JsonCaveat<Bytes>>, added: seq<Caveat>)
    requires AllRead(cs, added) && |d.caveats| + |added| <= MAX_CAVEATS
    ensures AddCaveats(d, cs) == Ok(d.(caveats := d.caveats + added))
    decreases |cs|
  {
    if cs == [] {
      assert d.caveats + added == d.caveats;
    } else {
      assert added == [added[0]] + added[1..];
      Assoc(d.caveats, [added[0]], added[1..]);
      assert forall k :: 1 <= k < |cs| ==> cs[k] == cs[1..][k - 1];
      AddedComplete(WithCaveat(d, added[0]).value, cs[1..], added[1..]);
    }
  }

  lemma AllReadExact(cs: seq<JsonCaveat<Bytes>>, caveats: seq<Caveat>)
    ensures AllRead(cs, caveats) <==> AllAre(cs, caveats) && forall k :: 0 <= k < |caveats| ==> CaveatFits(caveats[k])
  {
    if |cs| == |caveats| {
      forall k | 0 <= k < |cs|
        ensures CaveatOfJson(cs[k]) == Ok(caveats[k]) <==> CaveatIs(cs[k], caveats[k]) && CaveatFits(caveats[k])
      {
        CaveatExact(cs[k], caveats[k]);
      }
    }
  }

  lemma FieldsExact(j: Json<Bytes>, id: Bytes, location: Option<Str>, sig: Key)
    ensures GetFields(j) == Ok(Draft(id, location, Some(sig), [])) <==>
              && j.version == 2 && BytesAre(j.i, j.i64, id) && LocationIs(j.l, j.l64, location)
              && TextIs(j.s, j.s64, sig)
              && FitsField(id) && (location.Some? ==> FitsField(location.value))
  {
    LocationExact(j.l, j.l64, location);
  }

  /** An object is read as a macaroon exactly when it says that macaroon, within the limits of the crate. */
  lemma ReadExact(j: Json<Bytes>, m: Macaroon<Key>)
    ensures OfJson(j) == Ok(m) <==> Says(j, m) && WellFormed(m)
  {
    FieldsExact(j, m.identifier, m.location, m.signature);
    AllReadExact(j.c, m.caveats);
    if OfJson(j) == Ok(m) {
      var added := AddedSound(GetFields(j).value, j.c);
      assert [] + added == added;
    }
    if Says(j, m) && WellFormed(m) {
      AddedComplete(GetFields(j).value, j.c, m.caveats);
      assert [] + m.caveats == m.caveats;
    }
  }

  // ------------------------------------------------ byte fields as text

  predicate CaveatTextIs(c: JsonCaveat<Str>, caveat: Caveat) {
    match caveat
    case FirstParty(pred) =>
      TextIs(c.i, c.i64, pred) && c.l == None && c.l64 == None && c.v == None && c.v64 == None
    case ThirdParty(id, vid, location) =>
      TextIs(c.i, c.i64, id) && TextIs(c.l, c.l64, location) && TextIs(c.v, c.v64, vid)
  }

  ghost predicate AllTextsAre(cs: seq<JsonCaveat<Str>>, caveats: seq<Caveat>) {
    |cs| == |caveats| && forall k :: 0 <= k < |cs| ==> CaveatTextIs(cs[k], caveats[k])
  }

  /** The same as `Says`, for the object as it stands in the JSON text. */
  ghost predicate TextSays(j: Json<Str>, m: Macaroon<Key>) {
    && j.version == 2
    && TextIs(j.i, j.i64, m.identifier)
    && LocationIs(j.l, j.l64, m.location)
    && TextIs(j.s, j.s64, m.signature)
    && AllTextsAre(j.c, m.caveats)
  }

  lemma BytesFieldExact(plain: Option<Bytes>, text: Option<Str>, value: Bytes)
    ensures BytesField(text).Ok? && BytesAre(plain, BytesField(text).value, value) <==> TextIs(plain, text, value)
  {
  }

  lemma CaveatTextExact(c: JsonCaveat<Str>, caveat: Caveat)
    ensures CaveatOfText(c).Ok? && CaveatIs(CaveatOfText(c).value, caveat) <==> CaveatTextIs(c, caveat)
  {
    match caveat
    case FirstParty(pred) => BytesFieldExact(c.i, c.i64, pred);
    case ThirdParty(id, vid, _) => BytesFieldExact(c.i, c.i64, id); BytesFieldExact(c.v, c.v64, vid);
  }

  lemma {:induction false} CaveatsTextExact(cs: seq<JsonCaveat<Str>>, caveats: seq<Caveat>)
    ensures CaveatsOfText(cs).Ok? && AllAre(CaveatsOfText(cs).value, caveats) <==> AllTextsAre(cs, caveats)
    decreases |cs|
  {
    if cs != [] && caveats != [] {
      CaveatTextExact(cs[0], caveats[0]);
      CaveatsTextExact(cs[1..], caveats[1..]);
      TextsCons(cs, caveats);
      if CaveatOfText(cs[0]).Ok? && CaveatsOfText(cs[1..]).Ok? {
        AreCons(CaveatsOfText(cs).value, caveats);
      }
    }
  }

  lemma TextsCons(cs: seq<JsonCaveat<Str>>, caveats: seq<Caveat>)
    requires cs != [] && caveats != []
    ensures AllTextsAre(cs, caveats) <==> CaveatTextIs(cs[0], caveats[0]) && AllTextsAre(cs[1..], caveats[1..])
  {
    if CaveatTextIs(cs[0], caveats[0]) && AllTextsAre(cs[1..], caveats[1..]) {
      assert forall k :: 1 <= k < |cs| ==> cs[k] == cs[1..][k - 1] && caveats[k] == caveats[1..][k - 1];
    }
  }

  lemma AreCons(cs: seq<JsonCaveat<Bytes>>, caveats: seq<Caveat>)
    requires cs != [] && caveats != []
    ensures AllAre(cs, caveats) <==> CaveatIs(cs[0], caveats[0]) && AllAre(cs[1..], caveats[1..])
  {
    if CaveatIs(cs[0], caveats[0]) && AllAre(cs[1..], caveats[1..]) {
      assert forall k :: 1 <= k < |cs| ==> cs[k] == cs[1..][k - 1] && caveats[k] == caveats[1..][k - 1];
    }
  }

  /** The same as `ReadExact`, for the object as it stands in the JSON text. */
  lemma ParseExact(j: Json<Str>, m: Macaroon<Key>)
    ensures Parse(j) == Ok(m) <==> TextSays(j, m) && WellFormed(m)
  {
    BytesFieldExact(j.i, j.i64, m.identifier);
    CaveatsTextExact(j.c, m.caveats);
    if OfText(j).Ok? {
      ReadExact(OfText(j).value, m);
    }
  }

  // ----------------------------------------------------- what is written

  /** The field is present only as URL-safe base64 without padding. */
  ghost predicate WrittenAs(plain: Option<Bytes>, text: Option<Str>, value: Bytes) {
    plain == None && text.Some? && Represents(UrlSafe, false, text.value, value)
  }

  ghost predicate CaveatWritten(c: JsonCaveat<Str>, caveat: Caveat) {
    && c.l64 == None
    && match caveat
       case FirstParty(pred) => WrittenAs(c.i, c.i64, pred) && c.l == None && c.v == None && c.v64 == None
       case ThirdParty(id, vid, location) =>
         WrittenAs(c.i, c.i64, id) && c.l == Some(location) && WrittenAs(c.v, c.v64, vid)
  }

  /** The object that is written: byte fields in base64, strings as they are, caveats in order. */
  lemma Written(m: Macaroon<Key>)
    ensures var j := Serialize(m);
            && j.version == 2
            && WrittenAs(j.i, j.i64, m.identifier)
            && j.l == m.location && j.l64 == None
            && WrittenAs(j.s, j.s64, m.signature)
            && |j.c| == |m.caveats| && forall k :: 0 <= k < |j.c| ==> CaveatWritten(j.c[k], m.caveats[k])
  {
    EncodeRepresents(UrlSafe, false, m.identifier);
    EncodeRepresents(UrlSafe, false, m.signature);
    forall k | 0 <= k < |m.caveats|
      ensures CaveatWritten(Serialize(m).c[k], m.caveats[k])
    {
      CaveatsToJsonAt(m.caveats, k);
      match m.caveats[k]
      case FirstParty(pred) => EncodeRepresents(UrlSafe, false, pred);
      case ThirdParty(id, vid, _) => EncodeRepresents(UrlSafe, false, id); EncodeRepresents(UrlSafe, false, vid);
    }
  }
}
