/** The V2 binary format: the grammar, the parser as a function, and the proof that they agree. */
module V2Format {
  import opened Prelude
  import opened FieldSizes
  import opened Caveats
  import opened Macaroons
  import opened MacaroonBuilders

  const EOS: byte := 0
  const LOCATION: byte := 1
  const IDENTIFIER: byte := 2
  const VID: byte := 4
  const SIGNATURE: byte := 6
  const VERSION: byte := 2

  // ------------------------------------------------------------ grammar

  function Sized(value: Bytes): Bytes {
    Varint(|value|) + value
  }

  function Field(tag: byte, value: Bytes): Bytes {
    [tag] + Sized(value)
  }

  function OptionalField(tag: byte, value: Option<Bytes>): Bytes {
    match value
    case None => []
    case Some(v) => Field(tag, v)
  }

  function EncodeCaveat(caveat: Caveat): (r: Bytes)
    ensures r != []
  {
    match caveat
    case FirstParty(pred) => Field(IDENTIFIER, pred) + [EOS]
    case ThirdParty(id, vid, location) => Field(LOCATION, location) + Field(IDENTIFIER, id) + Field(VID, vid) + [EOS]
  }

  function EncodeCaveats(cs: seq<Caveat>): Bytes {
    if cs == [] then [] else EncodeCaveat(cs[0]) + EncodeCaveats(cs[1..])
  }

  function EncodeHeader(m: Macaroon<Key>): Bytes {
    OptionalField(LOCATION, m.location) + Field(IDENTIFIER, m.identifier) + [EOS]
  }

  function Encode(m: Macaroon<Key>): Bytes {
    [VERSION] + EncodeHeader(m) + EncodeCaveats(m.caveats) + [EOS] + Field(SIGNATURE, m.signature)
  }

  // ------------------------------------------------------------- parser

  function GetEos(s: Bytes): Result<Bytes> {
    var (b, rest) :- GetByte(s);
    if b == EOS then Ok(rest) else Err(DeserializationError)
  }

  function GetField(w: Word, s: Bytes): (r: Result<(Bytes, Bytes)>)
    ensures r.Ok? ==> |r.value.1| < |s|
  {
    var (n, rest) :- GetFieldSize(w, s);
    if n > |rest| then Err(DeserializationError) else Ok((rest[..n], rest[n..]))
  }

  /** A location and an identifier, or an identifier alone, when `tag` has been read already. */
  function GetNames(w: Word, tag: byte, s: Bytes): (r: Result<(Option<Str>, Bytes, Bytes)>)
    ensures r.Ok? ==> |r.value.2| < |s|
  {
    if tag == LOCATION then
      var (field, s1) :- GetField(w, s);
      var location :- FromUtf8(field);
      var (next, s2) :- GetByte(s1);
      if next == IDENTIFIER then
        var (id, s3) :- GetField(w, s2);
        Ok((Some(location), id, s3))
      else Err(DeserializationError)
    else if tag == IDENTIFIER then
      var (id, s1) :- GetField(w, s);
      Ok((None, id, s1))
    else Err(DeserializationError)
  }

  function AppendBuilt(cs: seq<Caveat>, parts: Parts): Result<seq<Caveat>> {
    var caveat :- Assemble(parts);
    Append(cs, caveat)
  }

  /** One caveat, and the tag after it. */
  function GetCaveat(w: Word, tag: byte, s: Bytes, cs: seq<Caveat>): (r: Result<(seq<Caveat>, byte, Bytes)>)
    ensures r.Ok? ==> |r.value.2| < |s|
  {
    var (location, id, s1) :- GetNames(w, tag, s);
    var (next, s2) :- GetByte(s1);
    if next == VID then
      var (vid, s3) :- GetField(w, s2);
      var more :- AppendBuilt(cs, Parts(Some(id), Some(vid), location));
      var s4 :- GetEos(s3);
      var (after, s5) :- GetByte(s4);
      Ok((more, after, s5))
    else if next == EOS then
      var more :- AppendBuilt(cs, Parts(Some(id), None, location));
      var (after, s3) :- GetByte(s2);
      Ok((more, after, s3))
    else Err(DeserializationError)
  }

  function GetCaveats(w: Word, tag: byte, s: Bytes, cs: seq<Caveat>): Result<(seq<Caveat>, Bytes)>
    decreases |s|
  {
    if tag == EOS then Ok((cs, s))
    else
      var (more, after, rest) :- GetCaveat(w, tag, s, cs);
      GetCaveats(w, after, rest, more)
  }

  /** The version byte, the names of the macaroon, and an end-of-section mark. */
  function GetPreamble(w: Word, data: Bytes): Result<(Option<Str>, Bytes, Bytes)> {
    var (version, s1) :- GetByte(data);
    if version != VERSION then Err(DeserializationError)
    else
      var (tag, s2) :- GetByte(s1);
      var (location, identifier, s3) :- GetNames(w, tag, s2);
      var s4 :- GetEos(s3);
      Ok((location, identifier, s4))
  }

  /** The signature, which must be the last field. */
  function GetSignature(w: Word, s: Bytes): Result<Key> {
    var (tag, s1) :- GetByte(s);
    if tag != SIGNATURE then Err(DeserializationError)
    else
      var (sig, s2) :- GetField(w, s1);
      if |sig| != 32 || s2 != [] then Err(DeserializationError) else Ok(sig)
  }

  function Parse(w: Word, data: Bytes): Result<Macaroon<Key>> {
    var (location, identifier, s1) :- GetPreamble(w, data);
    var (first, s2) :- GetByte(s1);
    var (caveats, s3) :- GetCaveats(w, first, s2, []);
    var sig :- GetSignature(w, s3);
    Finish(Draft(identifier, location, Some(sig), caveats))
  }

  // ------------------------------------------------------------- proofs

  lemma FieldExact(w: Word, s: Bytes, value: Bytes, rest: Bytes)
    ensures GetField(w, s) == Ok((value, rest)) <==> FitsField(value) && s == Sized(value) + rest
  {
    Assoc(Varint(|value|), value, rest);
    FieldSizeExact(w, s, |value|, value + rest);
    if GetField(w, s) == Ok((value, rest)) {
      var after := GetFieldSize(w, s).value.1;
      assert after == after[..|value|] + after[|value|..];
    }
  }

  /** Reading a tagged field. */
  lemma TaggedExact(w: Word, tag: byte, s: Bytes, value: Bytes, rest: Bytes)
    ensures s != [] && s[0] == tag && GetField(w, s[1..]) == Ok((value, rest)) <==>
              FitsField(value) && s == Field(tag, value) + rest
  {
    Assoc([tag], Sized(value), rest);
    if s != [] {
      assert s == [s[0]] + s[1..];
      FieldExact(w, s[1..], value, rest);
    }
  }

  ghost predicate NamesFit(location: Option<Bytes>, id: Bytes) {
    FitsField(id) && (location.Some? ==> FitsField(location.value) && ValidUtf8(location.value))
  }

  lemma NamesExact(w: Word, tag: byte, s: Bytes, location: Option<Bytes>, id: Bytes, rest: Bytes)
    ensures GetNames(w, tag, s) == Ok((location, id, rest)) <==>
              NamesFit(location, id) && [tag] + s == OptionalField(LOCATION, location) + Field(IDENTIFIER, id) + rest
  {
    var all := [tag] + s;
    assert all[1..] == s;
    match location
    case None =>
      TaggedExact(w, IDENTIFIER, all, id, rest);
      assert OptionalField(LOCATION, location) + Field(IDENTIFIER, id) + rest == Field(IDENTIFIER, id) + rest;
    case Some(loc) =>
      var after := Field(IDENTIFIER, id) + rest;
      assert OptionalField(LOCATION, location) + Field(IDENTIFIER, id) + rest == Field(LOCATION, loc) + after;
      TaggedExact(w, LOCATION, all, loc, after);
      TaggedExact(w, IDENTIFIER, after, id, rest);
      if GetNames(w, tag, s) == Ok((location, id, rest)) {
        var s1 := GetField(w, s).value.1;
        TaggedExact(w, IDENTIFIER, s1, id, rest);
      }
  }

  lemma EosExact(s: Bytes, rest: Bytes)
    ensures GetEos(s) == Ok(rest) <==> s == [EOS] + rest
  {
    if s != [] {
      assert s == [s[0]] + s[1..];
    }
  }

  lemma ByteExact(s: Bytes, b: byte, rest: Bytes)
    ensures GetByte(s) == Ok((b, rest)) <==> s == [b] + rest
  {
    if s != [] {
      assert s == [s[0]] + s[1..];
    }
  }

  /** The names, then what comes after the identifier of a caveat. */
  function Names(location: Option<Bytes>, id: Bytes): Bytes {
    OptionalField(LOCATION, location) + Field(IDENTIFIER, id)
  }

  function Tail(vid: Option<Bytes>): Bytes {
    OptionalField(VID, vid) + [EOS]
  }

  lemma EncodeCaveatParts(caveat: Caveat)
    ensures var p := Disassemble(caveat); EncodeCaveat(caveat) == Names(p.location, p.id.value) + Tail(p.verifierId)
  {
    if caveat.ThirdParty? {
      var l, i, v := Field(LOCATION, caveat.location), Field(IDENTIFIER, caveat.id), Field(VID, caveat.verifierId);
      Assoc(l + i, v, [EOS]);
    }
  }

  lemma GetCaveatSound(w: Word, tag: byte, s: Bytes, cs: seq<Caveat>, more: seq<Caveat>, after: byte, rest: Bytes)
    returns (caveat: Caveat)
    requires GetCaveat(w, tag, s, cs) == Ok((more, after, rest))
    ensures |cs| < MAX_CAVEATS && more == cs + [caveat] && CaveatFits(caveat)
    ensures [tag] + s == EncodeCaveat(caveat) + ([after] + rest)
  {
    var (location, id, s1) := GetNames(w, tag, s).value;
    NamesExact(w, tag, s, location, id, s1);
    var (next, s2) := GetByte(s1).value;
    caveat := more[|cs|];
    EncodeCaveatParts(caveat);
    if next == VID {
      var (vid, s3) := GetField(w, s2).value;
      TaggedExact(w, VID, s1, vid, s3);
      var s4 := GetEos(s3).value;
      EosExact(s3, s4);
      ByteExact(s4, after, rest);
      Assoc(Field(VID, vid), [EOS], [after] + rest);
      Assoc(Names(location, id), Tail(Some(vid)), [after] + rest);
    } else {
      ByteExact(s1, EOS, s2);
      ByteExact(s2, after, rest);
      assert s1 == Tail(None) + ([after] + rest);
      Assoc(Names(location, id), Tail(None), [after] + rest);
    }
  }

  lemma GetCaveatComplete(w: Word, tag: byte, s: Bytes, cs: seq<Caveat>, caveat: Caveat, after: byte, rest: Bytes)
    requires |cs| < MAX_CAVEATS && CaveatFits(caveat)
    requires [tag] + s == EncodeCaveat(caveat) + ([after] + rest)
    ensures GetCaveat(w, tag, s, cs) == Ok((cs + [caveat], after, rest))
  {
    var p := Disassemble(caveat);
    var s1 := Tail(p.verifierId) + ([after] + rest);
    EncodeCaveatParts(caveat);
    Assoc(Names(p.location, p.id.value), Tail(p.verifierId), [after] + rest);
    NamesExact(w, tag, s, p.location, p.id.value, s1);
    match p.verifierId
    case Some(vid) =>
      Assoc(Field(VID, vid), [EOS], [after] + rest);
      TaggedExact(w, VID, s1, vid, [EOS] + ([after] + rest));
      EosExact([EOS] + ([after] + rest), [after] + rest);
      ByteExact([after] + rest, after, rest);
    case None =>
      assert s1 == [EOS] + ([after] + rest);
      ByteExact(s1, EOS, [after] + rest);
      ByteExact([after] + rest, after, rest);
  }

  lemma EncodeCaveatsCons(caveat: Caveat, cs: seq<Caveat>, tail: Bytes)
    ensures EncodeCaveats([caveat] + cs) + tail == EncodeCaveat(caveat) + (EncodeCaveats(cs) + tail)
  {
    assert ([caveat] + cs)[1..] == cs;
    Assoc(EncodeCaveat(caveat), EncodeCaveats(cs), tail);
  }

  ghost predicate AllFit(cs: seq<Caveat>) {
    forall i :: 0 <= i < |cs| ==> CaveatFits(cs[i])
  }

  lemma {:induction false} GetCaveatsSound(w: Word, tag: byte, s: Bytes, cs: seq<Caveat>, all: seq<Caveat>, rest: Bytes)
    returns (added: seq<Caveat>)
    requires GetCaveats(w, tag, s, cs) == Ok((all, rest)) && |cs| <= MAX_CAVEATS
    ensures all == cs + added && |all| <= MAX_CAVEATS && AllFit(added)
    ensures [tag] + s == EncodeCaveats(added) + ([EOS] + rest)
    decreases |s|
  {
    if tag == EOS {
      added := [];
    } else {
      var (more, after, s1) := GetCaveat(w, tag, s, cs).value;
      var caveat := GetCaveatSound(w, tag, s, cs, more, after, s1);
      var others := GetCaveatsSound(w, after, s1, more, all, rest);
      added := [caveat] + others;
      Assoc(cs, [caveat], others);
      EncodeCaveatsCons(caveat, others, [EOS] + rest);
    }
  }

  lemma {:induction false} GetCaveatsComplete(w: Word, tag: byte, s: Bytes, cs: seq<Caveat>, added: seq<Caveat>,
                                              rest: Bytes)
    requires |cs| + |added| <= MAX_CAVEATS && AllFit(added)
    requires [tag] + s == EncodeCaveats(added) + ([EOS] + rest)
    ensures GetCaveats(w, tag, s, cs) == Ok((cs + added, rest))
    decreases |added|
  {
    if added == [] {
      assert EncodeCaveats(added) + ([EOS] + rest) == [EOS] + rest;
      ByteExact([tag] + s, tag, s);
      ByteExact([tag] + s, EOS, rest);
      assert cs + added == cs;
    } else {
      var caveat, others := added[0], added[1..];
      assert added == [caveat] + others;
      EncodeCaveatsCons(caveat, others, [EOS] + rest);
      var next := EncodeCaveats(others) + ([EOS] + rest);
      assert next == [next[0]] + next[1..];
      GetCaveatComplete(w, tag, s, cs, caveat, next[0], next[1..]);
      GetCaveatsComplete(w, next[0], next[1..], cs + [caveat], others, rest);
      Assoc(cs, [caveat], others);
    }
  }

  lemma PreambleExact(w: Word, data: Bytes, location: Option<Bytes>, id: Bytes, rest: Bytes)
    ensures GetPreamble(w, data) == Ok((location, id, rest)) <==>
              NamesFit(location, id) && data == [VERSION] + (Names(location, id) + ([EOS] + rest))
  {
    var s1, s3 := Names(location, id) + ([EOS] + rest), [EOS] + rest;
    if GetPreamble(w, data) == Ok((location, id, rest)) {
      var (version, r1) := GetByte(data).value;
      ByteExact(data, version, r1);
      var (tag, r2) := GetByte(r1).value;
      ByteExact(r1, tag, r2);
      var r3 := GetNames(w, tag, r2).value.2;
      NamesExact(w, tag, r2, location, id, r3);
      EosExact(r3, rest);
    }
    if NamesFit(location, id) && data == [VERSION] + s1 {
      ByteExact(data, VERSION, s1);
      assert s1 == [s1[0]] + s1[1..];
      NamesExact(w, s1[0], s1[1..], location, id, s3);
      EosExact(s3, rest);
    }
  }

  lemma SignatureExact(w: Word, s: Bytes, sig: Bytes)
    ensures GetSignature(w, s) == Ok(sig) <==> |sig| == 32 && s == Field(SIGNATURE, sig)
  {
    TaggedExact(w, SIGNATURE, s, sig, []);
    assert Field(SIGNATURE, sig) + [] == Field(SIGNATURE, sig);
  }

  lemma EncodeParts(m: Macaroon<Key>)
    ensures Encode(m) ==
              [VERSION] + (Names(m.location, m.identifier)
                + ([EOS] + (EncodeCaveats(m.caveats) + ([EOS] + Field(SIGNATURE, m.signature)))))
  {
    var header, names, caveats, sig :=
      EncodeHeader(m), Names(m.location, m.identifier), EncodeCaveats(m.caveats), Field(SIGNATURE, m.signature);
    assert header == names + [EOS];
    Assoc([VERSION] + header + caveats, [EOS], sig);
    Assoc([VERSION] + header, caveats, [EOS] + sig);
    Assoc([VERSION], header, caveats + ([EOS] + sig));
    Assoc(names, [EOS], caveats + ([EOS] + sig));
  }

  lemma ParseSound(w: Word, data: Bytes, m: Macaroon<Key>)
    requires Parse(w, data) == Ok(m)
    ensures WellFormed(m) && data == Encode(m)
  {
    var s1 := GetPreamble(w, data).value.2;
    PreambleExact(w, data, m.location, m.identifier, s1);
    var (first, s2) := GetByte(s1).value;
    ByteExact(s1, first, s2);
    var s3 := GetCaveats(w, first, s2, []).value.1;
    var added := GetCaveatsSound(w, first, s2, [], m.caveats, s3);
    assert added == m.caveats;
    SignatureExact(w, s3, m.signature);
    EncodeParts(m);
  }

  /** The caveats that are written, up to the mark that ends them. */
  lemma SectionRead(w: Word, cs: seq<Caveat>, rest: Bytes) returns (first: byte, others: Bytes)
    requires AllFit(cs) && |cs| <= MAX_CAVEATS
    ensures GetByte(EncodeCaveats(cs) + ([EOS] + rest)) == Ok((first, others))
    ensures GetCaveats(w, first, others, []) == Ok((cs, rest))
  {
    var s := EncodeCaveats(cs) + ([EOS] + rest);
    first, others := s[0], s[1..];
    ByteExact(s, first, others);
    GetCaveatsComplete(w, first, others, [], cs, rest);
    assert [] + cs == cs;
  }

  lemma ParseComplete(w: Word, m: Macaroon<Key>)
    requires WellFormed(m)
    ensures Parse(w, Encode(m)) == Ok(m)
  {
    var sig := Field(SIGNATURE, m.signature);
    EncodeParts(m);
    PreambleExact(w, Encode(m), m.location, m.identifier, EncodeCaveats(m.caveats) + ([EOS] + sig));
    var first, others := SectionRead(w, m.caveats, sig);
    SignatureExact(w, sig, m.signature);
  }

  /** The accepted byte strings are exactly the encodings of the well-formed macaroons, each read back as itself. */
  lemma ParseExact(w: Word, data: Bytes, m: Macaroon<Key>)
    ensures Parse(w, data) == Ok(m) <==> WellFormed(m) && data == Encode(m)
  {
    if Parse(w, data) == Ok(m) {
      ParseSound(w, data, m);
    }
    if WellFormed(m) && data == Encode(m) {
      ParseComplete(w, m);
    }
  }

  /** No macaroon has two accepted encodings, also across machines of different word width. */
  lemma ParseInjective(w1: Word, data1: Bytes, w2: Word, data2: Bytes)
    requires Parse(w1, data1).Ok?
    ensures Parse(w1, data1) == Parse(w2, data2) <==> data1 == data2
  {
    var m := Parse(w1, data1).value;
    ParseSound(w1, data1, m);
    ParseExact(w2, data2, m);
  }

  /** A field is its tag, its size and its bytes. */
  lemma FieldBytes(tag: byte, value: Bytes)
    ensures Field(tag, value) == [tag] + Varint(|value|) + value
  {
    Assoc([tag], Varint(|value|), value);
  }

  /** The version, the tags and the end marks, in numbers, around arbitrary values. */
  lemma EncodedBytes(m: Macaroon<Key>)
    ensures Encode(m) ==
              [2] + ((if m.location.Some? then Field(1, m.location.value) else []) + Field(2, m.identifier) + [0])
              + EncodeCaveats(m.caveats) + [0] + Field(6, m.signature)
  {
  }

  /** The same for the caveats. */
  lemma EncodedCaveats(caveat: Caveat, others: seq<Caveat>)
    ensures EncodeCaveats([]) == []
    ensures EncodeCaveats([caveat] + others) ==
              (match caveat
               case FirstParty(pred) => Field(2, pred) + [0]
               case ThirdParty(id, vid, location) => Field(1, location) + Field(2, id) + Field(4, vid) + [0])
              + EncodeCaveats(others)
  {
    assert ([caveat] + others)[1..] == others;
  }
}
