/** What the V1 format does to macaroons: which bytes are read as which macaroon, round trips, and normal forms. */
module V1Theorems {
  import opened Prelude
  import opened Caveats
  import opened Macaroons
  import opened V1Format
  import opened V1Grammar

  // -------------------------------------------------- no packet is lost

  lemma {:induction false} Partition(ps: seq<Packet>)
    requires Unsigned(ps)
    ensures multiset(ps) ==
              multiset(WithKey(ps, LOCATION)) + multiset(WithKey(ps, IDENTIFIER)) + multiset(OfCaveats(ps))
  {
    if ps != [] {
      var n := |ps| - 1;
      assert ps == ps[..n] + [ps[n]];
      UnsignedSnoc(ps[..n], ps[n]);
      Partition(ps[..n]);
    }
  }

  lemma BagConcat(a: seq<Packet>, b: seq<Packet>, c: seq<Packet>, d: seq<Packet>)
    requires multiset(a) == multiset(c) && multiset(b) == multiset(d)
    ensures multiset(a + b) == multiset(c + d)
  {
  }

  lemma {:induction false} GroupsBag(ps: seq<Packet>, cs: seq<Caveat>, parts: Parts)
    requires InGroups(ps, cs, parts)
    ensures multiset(ps) == multiset(CaveatPackets(cs) + PartsPackets(parts))
    decreases |cs|
  {
    if cs == [] {
      assert CaveatPackets(cs) + PartsPackets(parts) == PartsPackets(parts);
    } else {
      var n := |cs| - 1;
      var before, group :| ps == before + group && LastGroup(before, group, cs, parts);
      GroupsBag(before, cs[..n], Disassemble(cs[n]));
      CaveatPacketsInit(cs);
      BagConcat(before, group, CaveatPackets(cs), PartsPackets(parts));
    }
  }

  /** The packets that belong to no caveat. */
  lemma SpelledBag(ps: seq<Packet>, cs: seq<Caveat>) returns (strays: seq<Packet>)
    requires SpellsCaveats(ps, cs)
    ensures Stray(strays) && (cs != [] ==> strays == [])
    ensures multiset(ps) == multiset(CaveatPackets(cs) + strays)
  {
    if cs == [] {
      strays := ps;
      Nothing(ps);
    } else {
      strays := [];
      NoStrays();
      var n := |cs| - 1;
      GroupsBag(ps, cs[..n], Disassemble(cs[n]));
      CaveatPacketsInit(cs);
      Nothing(CaveatPackets(cs));
    }
  }

  lemma Nothing<T>(s: seq<T>)
    ensures [] + s == s && s + [] == s
  {
  }

  lemma PacketsBag(m: Macaroon<Key>, strays: seq<Packet>)
    ensures multiset(PacketsOf(m) + strays) ==
              multiset(Optional(LOCATION, m.location)) + multiset([Packet(IDENTIFIER, m.identifier)])
              + multiset(CaveatPackets(m.caveats) + strays) + multiset{Packet(SIGNATURE, m.signature)}
  {
  }

  lemma {:induction false} SizeOfBag(a: seq<Packet>, b: seq<Packet>)
    requires multiset(a) == multiset(b)
    ensures TotalSize(a) == TotalSize(b)
  {
    if a == [] {
      assert b == [];
    } else {
      var i := SameElement(a, b);
      SizeOfBag(a[1..], Without(b, i));
      SizeWithout(b, i);
    }
  }

  lemma {:induction false} SizeConcat(a: seq<Packet>, b: seq<Packet>)
    ensures TotalSize(a + b) == TotalSize(a) + TotalSize(b)
  {
    if a == [] {
      assert a + b == b;
    } else {
      assert (a + b)[1..] == a[1..] + b;
      SizeConcat(a[1..], b);
    }
  }

  lemma SizeWithout(ps: seq<Packet>, i: nat)
    requires i < |ps|
    ensures TotalSize(ps) == PacketSize(ps[i]) + TotalSize(Without(ps, i))
  {
    assert ps == ps[..i] + ps[i..] && ps[i..][1..] == ps[i + 1..];
    SizeConcat(ps[..i], ps[i..]);
    SizeConcat(ps[..i], ps[i + 1..]);
  }

  /**
   An accepted packet list is a permutation of the packets of the macaroon and the strays, and there are no
   strays when the macaroon has any caveat.
   */
  lemma Accounted(ps: seq<Packet>, m: Macaroon<Key>) returns (strays: seq<Packet>)
    requires Interpret(ps) == Ok(m)
    ensures m.identifier != [] && |m.caveats| <= MAX_CAVEATS
    ensures multiset(ps) == multiset(PacketsOf(m) + strays)
    ensures TotalSize(ps) == TotalSize(PacketsOf(m)) + TotalSize(strays)
    ensures Stray(strays) && (m.caveats != [] ==> strays == [])
  {
    InterpretSound(ps, m);
    InitLast(ps);
    strays := BodyBag(ps[..|ps| - 1], m);
    BagSize(ps, PacketsOf(m), strays);
  }

  lemma BodyBag(body: seq<Packet>, m: Macaroon<Key>) returns (strays: seq<Packet>)
    requires SpellsBody(body, m)
    ensures multiset(body + [Packet(SIGNATURE, m.signature)]) == multiset(PacketsOf(m) + strays)
    ensures Stray(strays) && (m.caveats != [] ==> strays == [])
  {
    strays := SpelledBag(OfCaveats(body), m.caveats);
    AcceptedBag(body, m, strays);
  }

  lemma BagSize(ps: seq<Packet>, a: seq<Packet>, b: seq<Packet>)
    requires multiset(ps) == multiset(a + b)
    ensures TotalSize(ps) == TotalSize(a) + TotalSize(b)
  {
    SizeOfBag(ps, a + b);
    SizeConcat(a, b);
  }

  lemma AcceptedBag(body: seq<Packet>, m: Macaroon<Key>, strays: seq<Packet>)
    requires Unsigned(body)
    requires WithKey(body, LOCATION) == Optional(LOCATION, m.location)
    requires WithKey(body, IDENTIFIER) == [Packet(IDENTIFIER, m.identifier)]
    requires multiset(OfCaveats(body)) == multiset(CaveatPackets(m.caveats) + strays)
    ensures multiset(body + [Packet(SIGNATURE, m.signature)]) == multiset(PacketsOf(m) + strays)
  {
    Partition(body);
    PacketsBag(m, strays);
  }

  // -------------------------------------------------- the exact domain

  /** The packet of a field has at most 65535 bytes. */
  predicate FieldFits(key: string, value: Bytes) {
    |key| + |value| + 6 <= 65535
  }

  predicate CaveatFitsV1(caveat: Caveat) {
    match caveat
    case FirstParty(pred) => FieldFits("cid", pred)
    case ThirdParty(id, vid, location) => FieldFits("cid", id) && FieldFits("vid", vid) && FieldFits("cl", location)
  }

  predicate CaveatsFitV1(cs: seq<Caveat>) {
    forall i :: 0 <= i < |cs| ==> CaveatFitsV1(cs[i])
  }

  /** No field is too long for its packet. */
  predicate MacaroonFitsV1(m: Macaroon<Key>) {
    && FieldFits("identifier", m.identifier)
    && (m.location.Some? ==> FieldFits("location", m.location.value))
    && CaveatsFitV1(m.caveats)
  }

  ghost predicate AllKnown(ps: seq<Packet>) {
    forall i :: 0 <= i < |ps| ==> Known(ps[i].key)
  }

  lemma AllConcat(a: seq<Packet>, b: seq<Packet>)
    ensures AllFit(a + b) <==> AllFit(a) && AllFit(b)
    ensures AllKnown(a + b) <==> AllKnown(a) && AllKnown(b)
  {
    assert forall i :: 0 <= i < |a| ==> (a + b)[i] == a[i];
    assert forall i :: 0 <= i < |b| ==> (a + b)[|a| + i] == b[i];
  }

  lemma OptionalFits(key: Bytes, value: Option<Bytes>)
    requires Known(key)
    ensures AllFit(Optional(key, value)) <==> value.Some? ==> Fits(Packet(key, value.value))
    ensures AllKnown(Optional(key, value))
  {
    if value.Some? {
      assert Optional(key, value)[0] == Packet(key, value.value);
    }
  }

  lemma CaveatFitsExact(caveat: Caveat)
    ensures AllFit(PartsPackets(Disassemble(caveat))) <==> CaveatFitsV1(caveat)
    ensures AllKnown(PartsPackets(Disassemble(caveat)))
  {
    var p := Disassemble(caveat);
    OptionalFits(CID, p.id);
    OptionalFits(VID, p.verifierId);
    OptionalFits(CL, p.location);
    AllConcat(Optional(CID, p.id), Optional(VID, p.verifierId));
    AllConcat(Optional(CID, p.id) + Optional(VID, p.verifierId), Optional(CL, p.location));
  }

  lemma {:induction false} CaveatsFitExact(cs: seq<Caveat>)
    ensures AllFit(CaveatPackets(cs)) <==> CaveatsFitV1(cs)
    ensures AllKnown(CaveatPackets(cs))
  {
    if cs != [] {
      CaveatFitsExact(cs[0]);
      CaveatsFitExact(cs[1..]);
      AllConcat(PartsPackets(Disassemble(cs[0])), CaveatPackets(cs[1..]));
      assert forall i :: 1 <= i < |cs| ==> cs[i] == cs[1..][i - 1];
    }
  }

  /** Serialization succeeds exactly when every field fits: tag length, value length and 6 within 0xFFFF. */
  lemma SerializeExact(m: Macaroon<Key>)
    ensures Serialize(m).Ok? <==> MacaroonFitsV1(m)
    ensures Serialize(m).Err? ==> Serialize(m).error == FieldTooLarge
    ensures AllKnown(PacketsOf(m))
  {
    var l, i := Optional(LOCATION, m.location), Optional(IDENTIFIER, Some(m.identifier));
    var c, s := CaveatPackets(m.caveats), Optional(SIGNATURE, Some(m.signature));
    assert PacketsOf(m) == l + i + c + s;
    OptionalFits(LOCATION, m.location);
    OptionalFits(IDENTIFIER, Some(m.identifier));
    OptionalFits(SIGNATURE, Some(m.signature));
    CaveatsFitExact(m.caveats);
    AllConcat(l + i + c, s);
    AllConcat(l + i, c);
    AllConcat(l, i);
  }

  lemma KeyText(key: Bytes)
    requires Known(key)
    ensures SPACE !in key && forall k :: 0 <= k < |key| ==> key[k] < 0x80
  {
    if key == LOCATION {
    } else if key == IDENTIFIER {
    } else if key == SIGNATURE {
    } else if key == CID {
    } else if key == VID {
    } else {
      assert key == CL;
    }
  }

  lemma KnownReadable(p: Packet)
    requires Known(p.key) && Fits(p)
    ensures Readable(p)
  {
    KeyText(p.key);
    AsciiIsUtf8(p.key, 0);
  }

  lemma FitsWellFormed(m: Macaroon<Key>)
    requires MacaroonFitsV1(m) && m.identifier != [] && |m.caveats| <= MAX_CAVEATS
    ensures WellFormed(m)
  {
  }

  // ------------------------------------------------------ main theorems

  lemma WrittenReadable(m: Macaroon<Key>)
    requires Serialize(m).Ok?
    ensures AllReadable(PacketsOf(m))
  {
    var ps := PacketsOf(m);
    SerializeExact(m);
    forall i | 0 <= i < |ps|
      ensures Readable(ps[i])
    {
      KnownReadable(ps[i]);
    }
  }

  /** What can be written is read back, whatever bytes the values hold. */
  lemma RoundTrip(m: Macaroon<Key>)
    requires m.identifier != [] && |m.caveats| <= MAX_CAVEATS && Serialize(m).Ok?
    ensures Parse(Serialize(m).value) == Ok(m)
    ensures |Serialize(m).value| == TotalSize(PacketsOf(m))
  {
    var ps := PacketsOf(m);
    WrittenReadable(m);
    TidyExact(EncodeAll(ps), ps);
    PacketsExact(EncodeAll(ps), ps);
    ConsistsSize(EncodeAll(ps), ps);
    InterpretPackets(m);
  }

  lemma PartFits(ps: seq<Packet>, part: seq<Packet>, rest: seq<Packet>)
    requires AllReadable(ps) && multiset(ps) == multiset(part + rest)
    ensures AllFit(part)
  {
    forall i | 0 <= i < |part|
      ensures Fits(part[i])
    {
      assert part[i] == (part + rest)[i];
      assert part[i] in multiset(ps);
    }
  }

  /**
   Every accepted token has a normal form: its macaroon can be written, the result parses to the same macaroon,
   and it is shorter than the token by exactly the strays.
   */
  lemma Normalizes(data: Bytes, m: Macaroon<Key>) returns (strays: seq<Packet>)
    requires Parse(data) == Ok(m)
    ensures WellFormed(m)
    ensures Serialize(m).Ok? && Parse(Serialize(m).value) == Ok(m)
    ensures |Serialize(m).value| + TotalSize(strays) == |data|
    ensures Stray(strays) && (m.caveats != [] ==> strays == [])
  {
    var ps := GetPackets(data).value;
    PacketsExact(data, ps);
    ConsistsSize(data, ps);
    strays := Accounted(ps, m);
    PartFits(ps, PacketsOf(m), strays);
    SerializeExact(m);
    FitsWellFormed(m);
    RoundTrip(m);
  }

  /** A byte string is accepted as a macaroon exactly when it consists of packets that spell the macaroon. */
  lemma ParseExact(data: Bytes, m: Macaroon<Key>)
    ensures Parse(data) == Ok(m) <==> exists ps :: Consists(data, ps) && Spells(ps, m)
  {
    if Parse(data) == Ok(m) {
      var ps := GetPackets(data).value;
      PacketsExact(data, ps);
      InterpretExact(ps, m);
    }
    if ps :| Consists(data, ps) && Spells(ps, m) {
      PacketsExact(data, ps);
      InterpretExact(ps, m);
    }
  }

  /** Packets in written order, with headers in lower case and a newline at every end. */
  ghost predicate Canonical(data: Bytes) {
    exists ps :: Consists(data, ps) && InOrder(ps) && Tidy(data, ps)
  }

  lemma CanonicalSound(data: Bytes, m: Macaroon<Key>)
    requires Parse(data) == Ok(m) && Canonical(data)
    ensures Serialize(m) == Ok(data) && m.identifier != [] && |m.caveats| <= MAX_CAVEATS
  {
    var ps :| Consists(data, ps) && InOrder(ps) && Tidy(data, ps);
    PacketsExact(data, ps);
    InterpretSound(ps, m);
    OrderExact(ps, m);
    ConsistsSize(data, ps);
    TidyExact(data, ps);
  }

  lemma WrittenCanonical(data: Bytes, m: Macaroon<Key>)
    requires Serialize(m) == Ok(data)
    ensures Canonical(data)
  {
    var ps := PacketsOf(m);
    WrittenInOrder(m);
    WrittenReadable(m);
    TidyExact(data, ps);
  }

  /** A token is what the writer gives for some macaroon exactly when it is accepted and canonical. */
  lemma CanonicalExact(data: Bytes, m: Macaroon<Key>)
    ensures Parse(data) == Ok(m) && Canonical(data) <==>
              Serialize(m) == Ok(data) && m.identifier != [] && |m.caveats| <= MAX_CAVEATS
  {
    if Parse(data) == Ok(m) && Canonical(data) {
      CanonicalSound(data, m);
    }
    if Serialize(m) == Ok(data) && m.identifier != [] && |m.caveats| <= MAX_CAVEATS {
      RoundTrip(m);
      WrittenCanonical(data, m);
    }
  }

  /** The same bytes, but for the last one. */
  predicate SameButLast(s: Bytes, t: Bytes) {
    |s| == |t| && (s != [] ==> s[..|s| - 1] == t[..|t| - 1])
  }

  lemma SlicesAgree(s: Bytes, t: Bytes, lo: nat, hi: nat)
    requires SameButLast(s, t) && lo <= hi <= |s|
    ensures hi < |s| ==> s[lo..hi] == t[lo..hi]
    ensures SameButLast(s[lo..], t[lo..])
  {
    if s != [] {
      var n := |s| - 1;
      assert forall i :: 0 <= i < n ==> s[i] == s[..n][i] == t[..n][i] == t[i];
    }
  }

  lemma {:induction false} ConsistsAgain(s: Bytes, t: Bytes, ps: seq<Packet>)
    requires Consists(s, ps) && SameButLast(s, t)
    ensures Consists(t, ps)
    decreases |ps|
  {
    if ps != [] {
      var n := PacketSize(ps[0]);
      SlicesAgree(s, t, 0, HEADER_SIZE);
      SlicesAgree(s, t, HEADER_SIZE, n - 1);
      SlicesAgree(s, t, n, n);
      ConsistsAgain(s[n..], t[n..], ps[1..]);
    }
  }

  /**
   V1 tokens are not unique, although the parser rejects packets after the signature for that reason: whatever
   byte ends an accepted token, it is read as the same macaroon.
   */
  lemma LastByteIgnored(data: Bytes, end: byte)
    requires Parse(data).Ok?
    ensures data != [] && Parse(data[..|data| - 1] + [end]) == Parse(data)
  {
    assert data != [] by {
      assert Run(START, []) == Ok(START);
    }
    var ps := GetPackets(data).value;
    PacketsExact(data, ps);
    ConsistsAgain(data, data[..|data| - 1] + [end], ps);
    PacketsExact(data[..|data| - 1] + [end], ps);
  }
}
