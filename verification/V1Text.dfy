/** The V1 format as a reader of the documentation would write it: text, with keys and headers spelt out. */
module V1Text {
  import opened Prelude
  import opened Caveats
  import opened Macaroons
  import F = V1Format
  import T = V1Theorems

  const HEX := "0123456789abcdef"

  /** A size as four lower-case hexadecimal digits. */
  function Hex(size: nat): string
    requires size <= 65535
  {
    [HEX[size / 4096], HEX[size / 256 % 16], HEX[size / 16 % 16], HEX[size % 16]]
  }

  /** One packet: its own size, the key, a space, the value and a newline. */
  function Line(key: string, value: Bytes): Bytes
    requires T.FieldFits(key, value)
  {
    Ascii(Hex(|key| + |value| + 6)) + Ascii(key) + Ascii(" ") + value + Ascii("\n")
  }

  function CaveatText(caveat: Caveat): Bytes
    requires T.CaveatFitsV1(caveat)
  {
    match caveat
    case FirstParty(pred) => Line("cid", pred)
    case ThirdParty(id, vid, location) => Line("cid", id) + Line("vid", vid) + Line("cl", location)
  }

  function CaveatsText(cs: seq<Caveat>): Bytes
    requires T.CaveatsFitV1(cs)
  {
    if cs == [] then [] else CaveatText(cs[0]) + CaveatsText(cs[1..])
  }

  function LocationText(location: Option<Str>): Bytes
    requires location.Some? ==> T.FieldFits("location", location.value)
  {
    if location.Some? then Line("location", location.value) else []
  }

  function MacaroonText(m: Macaroon<Key>): Bytes
    requires T.MacaroonFitsV1(m)
  {
    LocationText(m.location) + Line("identifier", m.identifier) + CaveatsText(m.caveats)
    + Line("signature", m.signature)
  }

  // -------------------------------------------------------------- proofs

  lemma HexAt(n: nat)
    requires n < 16
    ensures HEX[n] as int == F.HexDigit(n)
  {
  }

  lemma DigitsText(a: nat, b: nat, c: nat, d: nat)
    requires a < 16 && b < 16 && c < 16 && d < 16
    ensures Ascii([HEX[a], HEX[b], HEX[c], HEX[d]]) == [F.HexDigit(a), F.HexDigit(b), F.HexDigit(c), F.HexDigit(d)]
  {
    HexAt(a);
    HexAt(b);
    HexAt(c);
    HexAt(d);
  }

  lemma HeaderText(size: nat)
    requires size <= 65535
    ensures Ascii(Hex(size)) == F.PacketHeader(size)
  {
    DigitsText(size / 4096, size / 256 % 16, size / 16 % 16, size % 16);
  }

  lemma Keys()
    ensures Ascii("location") == F.LOCATION && Ascii("identifier") == F.IDENTIFIER && Ascii("signature") == F.SIGNATURE
    ensures Ascii("cid") == F.CID && Ascii("vid") == F.VID && Ascii("cl") == F.CL
  {
  }

  lemma Marks()
    ensures Ascii(" ") == [F.SPACE] && Ascii("\n") == [F.NEWLINE]
  {
  }

  lemma LineBytes(key: string, value: Bytes)
    requires T.FieldFits(key, value)
    ensures Line(key, value) == F.EncodePacket(F.Packet(Ascii(key), value))
  {
    var p := F.Packet(Ascii(key), value);
    assert F.PacketSize(p) == |key| + |value| + 6;
    HeaderText(F.PacketSize(p));
    Marks();
    Flatten(F.PacketHeader(F.PacketSize(p)), p.key, [F.SPACE], value, [F.NEWLINE]);
  }

  lemma Flatten<T>(a: seq<T>, b: seq<T>, c: seq<T>, d: seq<T>, e: seq<T>)
    ensures a + b + c + d + e == a + (b + (c + d + e))
  {
  }

  lemma LineExact(key: string, value: Bytes)
    requires T.FieldFits(key, value)
    ensures F.Written([F.Packet(Ascii(key), value)], Line(key, value))
  {
    var one := [F.Packet(Ascii(key), value)];
    LineBytes(key, value);
    assert one[1..] == [] && F.EncodeAll(one) == F.EncodePacket(one[0]) + [];
  }

  lemma CaveatExact(caveat: Caveat)
    requires T.CaveatFitsV1(caveat)
    ensures F.Written(F.PartsPackets(Disassemble(caveat)), CaveatText(caveat))
  {
    Keys();
    match caveat
    case FirstParty(pred) =>
      LineExact("cid", pred);
      assert F.PartsPackets(Disassemble(caveat)) == [F.Packet(F.CID, pred)];
    case ThirdParty(id, vid, location) =>
      var a, b, c := F.Packet(F.CID, id), F.Packet(F.VID, vid), F.Packet(F.CL, location);
      LineExact("cid", id);
      LineExact("vid", vid);
      LineExact("cl", location);
      assert F.PartsPackets(Disassemble(caveat)) == [a] + [b] + [c];
      F.WrittenConcat([a], Line("cid", id), [b], Line("vid", vid));
      F.WrittenConcat([a] + [b], Line("cid", id) + Line("vid", vid), [c], Line("cl", location));
  }

  lemma {:induction false} CaveatsExact(cs: seq<Caveat>)
    requires T.CaveatsFitV1(cs)
    ensures F.Written(F.CaveatPackets(cs), CaveatsText(cs))
  {
    if cs != [] {
      CaveatExact(cs[0]);
      CaveatsExact(cs[1..]);
      F.WrittenConcat(F.PartsPackets(Disassemble(cs[0])), CaveatText(cs[0]), F.CaveatPackets(cs[1..]),
                      CaveatsText(cs[1..]));
    }
  }

  lemma LocationExact(location: Option<Str>)
    requires location.Some? ==> T.FieldFits("location", location.value)
    ensures F.Written(F.Optional(F.LOCATION, location), LocationText(location))
  {
    Keys();
    if location.Some? {
      LineExact("location", location.value);
    }
  }

  /**
   What is written is exactly this text, for any values; if any packet would have more than 65535 bytes, nothing is
   written.
   */
  lemma SerializeExact(m: Macaroon<Key>)
    ensures F.Serialize(m) == if T.MacaroonFitsV1(m) then Ok(MacaroonText(m)) else Err(FieldTooLarge)
  {
    T.SerializeExact(m);
    if T.MacaroonFitsV1(m) {
      var l, c := F.Optional(F.LOCATION, m.location), F.CaveatPackets(m.caveats);
      var i, s := [F.Packet(F.IDENTIFIER, m.identifier)], [F.Packet(F.SIGNATURE, m.signature)];
      var lt, it := LocationText(m.location), Line("identifier", m.identifier);
      Keys();
      LocationExact(m.location);
      LineExact("identifier", m.identifier);
      CaveatsExact(m.caveats);
      LineExact("signature", m.signature);
      F.WrittenConcat(l, lt, i, it);
      F.WrittenConcat(l + i, lt + it, c, CaveatsText(m.caveats));
      F.WrittenConcat(l + i + c, lt + it + CaveatsText(m.caveats), s, Line("signature", m.signature));
    }
  }

  /** The text of a macaroon is read back as it. */
  lemma ParseText(m: Macaroon<Key>)
    requires T.MacaroonFitsV1(m) && m.identifier != [] && |m.caveats| <= 1000
    ensures F.Parse(MacaroonText(m)) == Ok(m)
  {
    SerializeExact(m);
    T.RoundTrip(m);
  }
}
