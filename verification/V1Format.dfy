/** The V1 packet format: packets, the state machine that reads them, and what reading and writing do to each other. */
module V1Format {
  import opened Prelude
  import opened Caveats
  import opened Macaroons
  import opened MacaroonBuilders

  /** "location", "identifier", "signature", "cid", "vid" and "cl". */
  const LOCATION: Bytes := [0x6C, 0x6F, 0x63, 0x61, 0x74, 0x69, 0x6F, 0x6E]
  const IDENTIFIER: Bytes := [0x69, 0x64, 0x65, 0x6E, 0x74, 0x69, 0x66, 0x69, 0x65, 0x72]
  const SIGNATURE: Bytes := [0x73, 0x69, 0x67, 0x6E, 0x61, 0x74, 0x75, 0x72, 0x65]
  const CID: Bytes := [0x63, 0x69, 0x64]
  const VID: Bytes := [0x76, 0x69, 0x64]
  const CL: Bytes := [0x63, 0x6C]

  const SPACE: byte := 0x20
  const NEWLINE: byte := 0x0A
  const PLUS: byte := 0x2B

  const HEADER_SIZE: nat := 4
  const MAX_PACKET_SIZE: nat := 0xFFFF

  datatype Packet = Packet(key: Bytes, value: Bytes)

  // ---------------------------------------------------------- writing

  function PacketSize(p: Packet): nat {
    HEADER_SIZE + 2 + |p.key| + |p.value|
  }

  predicate Fits(p: Packet) {
    PacketSize(p) <= MAX_PACKET_SIZE
  }

  function HexDigit(n: nat): byte
    requires n < 16
  {
    if n < 10 then 0x30 + n else 0x61 + (n - 10)
  }

  function PacketHeader(size: nat): Bytes
    requires size <= MAX_PACKET_SIZE
  {
    [HexDigit(size / 4096), HexDigit(size / 256 % 16), HexDigit(size / 16 % 16), HexDigit(size % 16)]
  }

  /** The packet after its header. */
  function Body(p: Packet): Bytes {
    p.key + ([SPACE] + p.value + [NEWLINE])
  }

  function EncodePacket(p: Packet): (r: Bytes)
    requires Fits(p)
    ensures |r| == PacketSize(p)
  {
    PacketHeader(PacketSize(p)) + Body(p)
  }

  predicate AllFit(ps: seq<Packet>) {
    forall i :: 0 <= i < |ps| ==> Fits(ps[i])
  }

  function EncodeAll(ps: seq<Packet>): Bytes
    requires AllFit(ps)
  {
    if ps == [] then [] else EncodePacket(ps[0]) + EncodeAll(ps[1..])
  }

  function Optional(key: Bytes, value: Option<Bytes>): seq<Packet> {
    match value
    case None => []
    case Some(v) => [Packet(key, v)]
  }

  function PartsPackets(parts: Parts): seq<Packet> {
    Optional(CID, parts.id) + Optional(VID, parts.verifierId) + Optional(CL, parts.location)
  }

  function CaveatPackets(cs: seq<Caveat>): seq<Packet> {
    if cs == [] then [] else PartsPackets(Disassemble(cs[0])) + CaveatPackets(cs[1..])
  }

  function PacketsOf(m: Macaroon<Key>): seq<Packet> {
    Optional(LOCATION, m.location) + [Packet(IDENTIFIER, m.identifier)] + CaveatPackets(m.caveats)
    + [Packet(SIGNATURE, m.signature)]
  }

  function Serialize(m: Macaroon<Key>): Result<Bytes> {
    if AllFit(PacketsOf(m)) then Ok(EncodeAll(PacketsOf(m))) else Err(FieldTooLarge)
  }

  // ---------------------------------------------------------- reading

  function HexValue(c: byte): Option<nat> {
    if 0x30 <= c <= 0x39 then Some(c - 0x30)
    else if 0x61 <= c <= 0x66 then Some(c - 0x61 + 10)
    else if 0x41 <= c <= 0x46 then Some(c - 0x41 + 10)
    else None
  }

  function HexNumber(s: Bytes): Option<nat> {
    if s == [] then Some(0)
    else
      match (HexNumber(s[..|s| - 1]), HexValue(s[|s| - 1]))
      case (Some(high), Some(low)) => Some(16 * high + low)
      case _ => None
  }

  function Pow16(n: nat): nat {
    if n == 0 then 1 else 16 * Pow16(n - 1)
  }

  lemma {:induction false} HexBound(s: Bytes)
    ensures HexNumber(s).Some? ==> HexNumber(s).value < Pow16(|s|)
  {
    if s != [] {
      HexBound(s[..|s| - 1]);
    }
  }

  /** Upper-case digits and a leading plus sign are accepted. */
  function FromRadix16(s: Bytes): (r: Result<nat>)
    requires |s| == 4
    ensures r.Ok? ==> r.value <= MAX_PACKET_SIZE
  {
    var digits := if s[0] == PLUS then s[1..] else s;
    HexBound(digits);
    assert Pow16(3) == 0x1000 && Pow16(4) == 0x1_0000;
    match HexNumber(digits)
    case Some(n) => Ok(n)
    case None => Err(DeserializationError)
  }

  function SplitIndex(s: Bytes): (r: Result<nat>)
    ensures r.Ok? ==> r.value < |s| && s[r.value] == SPACE && SPACE !in s[..r.value]
    ensures r.Err? ==> r.error == DeserializationError && SPACE !in s
  {
    if s == [] then Err(DeserializationError)
    else if s[0] == SPACE then Ok(0)
    else
      var i :- SplitIndex(s[1..]);
      assert s[..i + 1] == [s[0]] + s[1..][..i];
      Ok(i + 1)
  }

  /** The packet in the bytes after its header: a key up to the first space, a value, and one more byte. */
  function OfBody(body: Bytes): (r: Result<Packet>)
    ensures r.Ok? ==> |r.value.key| + |r.value.value| + 2 == |body| && SPACE !in r.value.key && ValidUtf8(r.value.key)
  {
    var index :- SplitIndex(body);
    var rest := body[index..];
    if |rest| < 2 then Err(DeserializationError)
    else
      var _ :- CheckFieldSize(|rest| - 2);
      var key :- FromUtf8(body[..index]);
      Ok(Packet(key, rest[1..|rest| - 1]))
  }

  function GetPacket(s: Bytes): (r: Result<(Packet, Bytes)>)
    ensures r.Ok? ==> |r.value.1| < |s|
  {
    if |s| < HEADER_SIZE then Err(DeserializationError)
    else
      var hex :- FromUtf8(s[..HEADER_SIZE]);
      var size :- FromRadix16(hex);
      if size > |s| || size <= HEADER_SIZE then Err(DeserializationError)
      else
        var p :- OfBody(s[HEADER_SIZE..size]);
        Ok((p, s[size..]))
  }

  function GetPackets(s: Bytes): Result<seq<Packet>>
    decreases |s|
  {
    if s == [] then Ok([])
    else
      var (p, rest) :- GetPacket(s);
      var ps :- GetPackets(rest);
      Ok([p] + ps)
  }

  datatype State = State(draft: Draft, parts: Parts, seenLocation: bool, seenIdentifier: bool, seenSignature: bool)

  const START := State(EMPTY_DRAFT, NO_PARTS, false, false, false)

  /** Finishes the pending caveat, if it has an identifier. */
  function Flush(st: State): Result<State> {
    if st.parts.id.None? then Ok(st)
    else
      var caveat :- Assemble(st.parts);
      var draft :- WithCaveat(st.draft, caveat);
      Ok(st.(draft := draft, parts := NO_PARTS))
  }

  function Step(st: State, p: Packet): Result<State> {
    if st.seenSignature then Err(DeserializationError)
    else if p.key == LOCATION then
      if st.seenLocation then Err(DeserializationError)
      else
        var location :- FromUtf8(p.value);
        Ok(st.(seenLocation := true, draft := st.draft.(location := Some(location))))
    else if p.key == IDENTIFIER then
      if st.seenIdentifier then Err(DeserializationError)
      else Ok(st.(seenIdentifier := true, draft := st.draft.(identifier := p.value)))
    else if p.key == SIGNATURE then
      var flushed :- Flush(st);
      if |p.value| != 32 then Err(DeserializationError)
      else Ok(flushed.(seenSignature := true, draft := flushed.draft.(signature := Some(p.value))))
    else if p.key == CID then
      var flushed :- Flush(st);
      Ok(flushed.(parts := flushed.parts.(id := Some(p.value))))
    else if p.key == VID then
      if st.parts.verifierId.Some? then Err(DeserializationError)
      else Ok(st.(parts := st.parts.(verifierId := Some(p.value))))
    else if p.key == CL then
      if st.parts.location.Some? then Err(DeserializationError)
      else
        var location :- FromUtf8(p.value);
        Ok(st.(parts := st.parts.(location := Some(location))))
    else Err(DeserializationError)
  }

  function Run(st: State, ps: seq<Packet>): Result<State>
    decreases |ps|
  {
    if ps == [] then Ok(st)
    else
      var next :- Step(st, ps[0]);
      Run(next, ps[1..])
  }

  function Interpret(ps: seq<Packet>): Result<Macaroon<Key>> {
    var st :- Run(START, ps);
    Finish(st.draft)
  }

  function Parse(data: Bytes): Result<Macaroon<Key>> {
    var ps :- GetPackets(data);
    Interpret(ps)
  }

  // ------------------------------------------- packets, byte by byte

  function LowerCase(c: byte): byte {
    if 0x41 <= c <= 0x46 then c + 0x20 else c
  }

  /** `s` spells `digits`, letters in either case. */
  predicate Spelt(s: Bytes, digits: Bytes) {
    |s| == |digits| && forall i :: 0 <= i < |s| ==> LowerCase(s[i]) == digits[i]
  }

  /** A header for a size: its four digits in either case, or a plus sign and the last three of them. */
  predicate NamesSize(header: Bytes, size: nat)
    requires size <= MAX_PACKET_SIZE
  {
    || Spelt(header, PacketHeader(size))
    || (size < 0x1000 && header != [] && header[0] == Ascii("+")[0] && Spelt(header[1..], PacketHeader(size)[1..]))
  }

  lemma HexValueExact(c: byte, v: nat)
    ensures HexValue(c) == Some(v) <==> v < 16 && LowerCase(c) == HexDigit(v)
  {
  }

  lemma HexSnoc(s: Bytes, c: byte, n: nat)
    ensures HexNumber(s + [c]) == Some(n) <==> HexNumber(s) == Some(n / 16) && LowerCase(c) == HexDigit(n % 16)
  {
    var longer := s + [c];
    assert longer[..|s|] == s && longer[|s|] == c;
    HexValueExact(c, n % 16);
  }

  lemma TwoDigits(a: byte, b: byte, n: nat)
    ensures HexNumber([a, b]) == Some(n) <==>
              n < 0x100 && LowerCase(a) == HexDigit(n / 16 % 16) && LowerCase(b) == HexDigit(n % 16)
  {
    HexSnoc([], a, n / 16);
    HexSnoc([a], b, n);
    assert [] + [a] == [a] && [a] + [b] == [a, b];
  }

  lemma ThreeDigits(a: byte, b: byte, c: byte, n: nat)
    ensures HexNumber([a, b, c]) == Some(n) <==>
              && n < 0x1000
              && LowerCase(a) == HexDigit(n / 256 % 16) && LowerCase(b) == HexDigit(n / 16 % 16)
              && LowerCase(c) == HexDigit(n % 16)
  {
    TwoDigits(a, b, n / 16);
    HexSnoc([a, b], c, n);
    assert [a, b] + [c] == [a, b, c] && n / 16 / 16 == n / 256;
  }

  lemma FourDigits(a: byte, b: byte, c: byte, d: byte, n: nat)
    ensures HexNumber([a, b, c, d]) == Some(n) <==>
              && n <= MAX_PACKET_SIZE
              && LowerCase(a) == HexDigit(n / 4096 % 16) && LowerCase(b) == HexDigit(n / 256 % 16)
              && LowerCase(c) == HexDigit(n / 16 % 16) && LowerCase(d) == HexDigit(n % 16)
  {
    ThreeDigits(a, b, c, n / 16);
    HexSnoc([a, b, c], d, n);
    assert [a, b, c] + [d] == [a, b, c, d] && n / 16 / 16 == n / 256 && n / 16 / 256 == n / 4096;
  }

  lemma SpeltFour(header: Bytes, size: nat)
    requires |header| == 4
    ensures HexNumber(header) == Some(size) <==> size <= MAX_PACKET_SIZE && Spelt(header, PacketHeader(size))
  {
    FourDigits(header[0], header[1], header[2], header[3], size);
    assert header == [header[0], header[1], header[2], header[3]];
    assert size <= MAX_PACKET_SIZE ==> size / 4096 % 16 == size / 4096;
  }

  lemma SpeltThree(digits: Bytes, size: nat)
    requires |digits| == 3
    ensures HexNumber(digits) == Some(size) <==> size < 0x1000 && Spelt(digits, PacketHeader(size)[1..])
  {
    ThreeDigits(digits[0], digits[1], digits[2], size);
    assert digits == [digits[0], digits[1], digits[2]];
  }

  /** Which headers are read as which size. */
  lemma HeaderExact(header: Bytes, size: nat)
    requires |header| == 4
    ensures FromRadix16(header) == Ok(size) <==> size <= MAX_PACKET_SIZE && NamesSize(header, size)
  {
    SpeltFour(header, size);
    SpeltThree(header[1..], size);
    if header[0] == PLUS && size <= MAX_PACKET_SIZE {
      assert LowerCase(header[0]) != PacketHeader(size)[0];
    }
  }

  lemma HeaderIsText(header: Bytes, size: nat)
    requires |header| == 4 && size <= MAX_PACKET_SIZE && NamesSize(header, size)
    ensures ValidUtf8(header)
  {
    if !Spelt(header, PacketHeader(size)) {
      assert forall i :: 1 <= i < 4 ==> LowerCase(header[i]) == LowerCase(header[1..][i - 1]);
    }
    AsciiIsUtf8(header, 0);
  }

  lemma {:induction false} SplitIndexFirst(key: Bytes, rest: Bytes)
    requires SPACE !in key
    ensures SplitIndex(key + ([SPACE] + rest)) == Ok(|key|)
  {
    var s := key + ([SPACE] + rest);
    if key != [] {
      assert s[1..] == key[1..] + ([SPACE] + rest);
      SplitIndexFirst(key[1..], rest);
    }
  }

  /** A packet that can be written and read: values may hold any bytes, spaces and newlines included. */
  predicate Readable(p: Packet) {
    Fits(p) && SPACE !in p.key && ValidUtf8(p.key)
  }

  /** The bytes of a packet between its header and its last byte. */
  function Content(p: Packet): Bytes {
    p.key + ([SPACE] + p.value)
  }

  lemma ContentSplit(content: Bytes, index: nat)
    requires index < |content| && content[index] == SPACE
    ensures content == Content(Packet(content[..index], content[index + 1..]))
  {
  }

  lemma BodySound(body: Bytes, p: Packet)
    requires OfBody(body) == Ok(p)
    ensures |body| == |Content(p)| + 1 && body[..|body| - 1] == Content(p)
  {
    var index := SplitIndex(body).value;
    var content := body[..|body| - 1];
    ContentSplit(content, index);
    assert content[..index] == body[..index] && content[index + 1..] == body[index..][1..|body| - index - 1];
  }

  lemma BodyComplete(p: Packet, end: byte)
    requires Readable(p)
    ensures OfBody(Content(p) + [end]) == Ok(p)
  {
    var tail := [SPACE] + (p.value + [end]);
    var body := p.key + tail;
    Assoc(p.key, [SPACE] + p.value, [end]);
    Assoc([SPACE], p.value, [end]);
    SplitIndexFirst(p.key, p.value + [end]);
    SplitPrefix(body, p.key, tail);
    assert tail[1..|p.value| + 1] == p.value;
  }

  lemma BodyExact(body: Bytes, p: Packet)
    requires |body| + HEADER_SIZE <= MAX_PACKET_SIZE
    ensures OfBody(body) == Ok(p) <==> Readable(p) && |body| == |Content(p)| + 1 && body[..|body| - 1] == Content(p)
  {
    if OfBody(body) == Ok(p) {
      BodySound(body, p);
    }
    if Readable(p) && |body| == |Content(p)| + 1 && body[..|body| - 1] == Content(p) {
      BodyComplete(p, body[|body| - 1]);
      assert body == body[..|body| - 1] + [body[|body| - 1]];
    }
  }

  /**
   `s` starts with the packet `p`, whatever byte ends it; its value may hold any bytes, spaces and newlines
   included.
   */
  predicate StartsWith(s: Bytes, p: Packet) {
    && Readable(p)
    && PacketSize(p) <= |s|
    && NamesSize(s[..HEADER_SIZE], PacketSize(p))
    && s[HEADER_SIZE..PacketSize(p) - 1] == Content(p)
  }

  /** A packet is read, with any bytes after it, exactly when the bytes start with it. */
  lemma PacketExact(s: Bytes, p: Packet, rest: Bytes)
    ensures GetPacket(s) == Ok((p, rest)) <==> StartsWith(s, p) && rest == s[PacketSize(p)..]
  {
    var size := PacketSize(p);
    if GetPacket(s) == Ok((p, rest)) {
      var n := FromRadix16(s[..HEADER_SIZE]).value;
      HeaderExact(s[..HEADER_SIZE], n);
      var body := s[HEADER_SIZE..n];
      BodyExact(body, p);
      assert body[..|body| - 1] == s[HEADER_SIZE..n - 1];
    }
    if StartsWith(s, p) {
      HeaderExact(s[..HEADER_SIZE], size);
      HeaderIsText(s[..HEADER_SIZE], size);
      var body := s[HEADER_SIZE..size];
      assert body[..|body| - 1] == s[HEADER_SIZE..size - 1];
      BodyExact(body, p);
    }
  }

  /** `s` consists of the packets `ps`. */
  predicate Consists(s: Bytes, ps: seq<Packet>)
    decreases |ps|
  {
    if ps == [] then s == [] else StartsWith(s, ps[0]) && Consists(s[PacketSize(ps[0])..], ps[1..])
  }

  /** The packets of a token. */
  lemma {:induction false} PacketsExact(s: Bytes, ps: seq<Packet>)
    ensures GetPackets(s) == Ok(ps) <==> Consists(s, ps)
    decreases |s|
  {
    if s != [] {
      if GetPackets(s).Ok? {
        var (p, rest) := GetPacket(s).value;
        PacketExact(s, p, rest);
        PacketsExact(rest, GetPackets(rest).value);
        assert GetPackets(s).value[1..] == GetPackets(rest).value;
      }
      if Consists(s, ps) {
        var rest := s[PacketSize(ps[0])..];
        PacketExact(s, ps[0], rest);
        PacketsExact(rest, ps[1..]);
        assert ps == [ps[0]] + ps[1..];
      }
    }
  }

  ghost predicate AllReadable(ps: seq<Packet>) {
    forall i :: 0 <= i < |ps| ==> Readable(ps[i])
  }

  ghost function TotalSize(ps: seq<Packet>): nat {
    if ps == [] then 0 else PacketSize(ps[0]) + TotalSize(ps[1..])
  }

  lemma {:induction false} ConsistsSize(s: Bytes, ps: seq<Packet>)
    requires Consists(s, ps)
    ensures AllReadable(ps) && TotalSize(ps) == |s|
    decreases |ps|
  {
    if ps != [] {
      ConsistsSize(s[PacketSize(ps[0])..], ps[1..]);
    }
  }

  /** Every header is in lower case and without a plus sign, and every packet ends with a newline. */
  predicate Tidy(s: Bytes, ps: seq<Packet>)
    requires Consists(s, ps)
    decreases |ps|
  {
    ps == [] ||
      var n := PacketSize(ps[0]);
      s[..HEADER_SIZE] == PacketHeader(n) && s[n - 1] == NEWLINE && Tidy(s[n..], ps[1..])
  }

  lemma HeaderNames(size: nat)
    requires size <= MAX_PACKET_SIZE
    ensures NamesSize(PacketHeader(size), size)
  {
  }

  lemma EncodedPacket(s: Bytes, p: Packet)
    requires Readable(p) && PacketSize(p) <= |s|
    ensures s[..PacketSize(p)] == EncodePacket(p) <==>
              StartsWith(s, p) && s[..HEADER_SIZE] == PacketHeader(PacketSize(p)) && s[PacketSize(p) - 1] == NEWLINE
  {
    var n := PacketSize(p);
    var first, e := s[..n], EncodePacket(p);
    HeaderNames(n);
    assert Body(p) == Content(p) + [NEWLINE];
    assert first == first[..HEADER_SIZE] + (first[HEADER_SIZE..n - 1] + [first[n - 1]]);
    assert first[..HEADER_SIZE] == s[..HEADER_SIZE] && first[HEADER_SIZE..n - 1] == s[HEADER_SIZE..n - 1];
    assert e[..HEADER_SIZE] == PacketHeader(n) && e[HEADER_SIZE..n - 1] == Content(p) && e[n - 1] == NEWLINE;
  }

  /** The bytes that the writer gives are the tidy ones. */
  lemma {:induction false} TidyExact(s: Bytes, ps: seq<Packet>)
    requires AllReadable(ps)
    ensures s == EncodeAll(ps) <==> Consists(s, ps) && Tidy(s, ps)
    decreases |ps|
  {
    if ps != [] {
      var p, others := ps[0], ps[1..];
      assert s == EncodeAll(ps) <==> s == EncodePacket(p) + EncodeAll(others);
      EncodedFirst(s, EncodePacket(p), EncodeAll(others));
      if PacketSize(p) <= |s| {
        EncodedPacket(s, p);
        TidyExact(s[PacketSize(p)..], others);
      }
    }
  }

  lemma EncodedFirst(s: Bytes, first: Bytes, rest: Bytes)
    ensures s == first + rest <==> |first| <= |s| && s[..|first|] == first && s[|first|..] == rest
  {
    if |first| <= |s| {
      assert s == s[..|first|] + s[|first|..];
    }
  }

  /** `bytes` is what writing `ps` gives, as long as all of them fit. */
  ghost predicate Written(ps: seq<Packet>, bytes: Bytes) {
    AllFit(ps) && bytes == EncodeAll(ps)
  }

  lemma {:induction false} WrittenConcat(a: seq<Packet>, x: Bytes, b: seq<Packet>, y: Bytes)
    requires Written(a, x) && Written(b, y)
    ensures Written(a + b, x + y)
    decreases |a|
  {
    if a == [] {
      assert a + b == b && x + y == y;
    } else {
      var first, rest := EncodePacket(a[0]), EncodeAll(a[1..]);
      assert (a + b)[0] == a[0] && (a + b)[1..] == a[1..] + b;
      WrittenConcat(a[1..], rest, b, y);
      Assoc(first, rest, y);
    }
  }
}
