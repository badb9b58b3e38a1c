/** What base64 texts mean, in the words of RFC 4648: digits of a number, with the characters of its tables. */
module Base64Text {
  import opened Prelude
  import opened Base64

  const UPPER := "ABCDEFGHIJKLMNOPQRSTUVWXYZ"
  const LOWER := "abcdefghijklmnopqrstuvwxyz"
  const DIGITS := "0123456789"

  /** Tables 1 and 2 of RFC 4648. */
  function Table(a: Alphabet): string {
    UPPER + LOWER + DIGITS + (match a case Standard => "+/" case UrlSafe => "-_")
  }

  lemma UpperAt(v: nat)
    requires v < 26
    ensures UPPER[v] as int == 0x41 + v
  {
  }

  lemma LowerAt(v: nat)
    requires v < 26
    ensures LOWER[v] as int == 0x61 + v
  {
  }

  lemma DigitAt(v: nat)
    requires v < 10
    ensures DIGITS[v] as int == 0x30 + v
  {
  }

  lemma TableAt(a: Alphabet, v: sextet)
    ensures |Table(a)| == 64
    ensures v < 26 ==> Table(a)[v] == UPPER[v]
    ensures 26 <= v < 52 ==> Table(a)[v] == LOWER[v - 26]
    ensures 52 <= v < 62 ==> Table(a)[v] == DIGITS[v - 52]
    ensures v >= 62 ==> Table(a)[v] == (match a case Standard => "+/" case UrlSafe => "-_")[v - 62]
  {
  }

  /** The character for a sextet stands in the table at its index. */
  lemma SymbolExact(a: Alphabet, v: sextet)
    ensures |Table(a)| == 64 && Symbol(a, v) == Ascii(Table(a))[v]
  {
    TableAt(a, v);
    if v < 26 {
      UpperAt(v);
    } else if v < 52 {
      LowerAt(v - 26);
    } else if v < 62 {
      DigitAt(v - 52);
    }
  }

  // ---------------------------------------------------------- numbers

  /** The number with the given digits, most significant first. */
  function Number(base: nat, digits: seq<int>): int {
    if digits == [] then 0
    else
      var n := |digits| - 1;
      base * Number(base, digits[..n]) + digits[n]
  }

  function Power(base: nat, n: nat): nat {
    if n == 0 then 1 else base * Power(base, n - 1)
  }

  lemma {:induction false} NumberConcat(base: nat, x: seq<int>, y: seq<int>)
    ensures Number(base, x + y) == Number(base, x) * Power(base, |y|) + Number(base, y)
    decreases |y|
  {
    if y == [] {
      assert x + y == x;
    } else {
      var n := |y| - 1;
      var xy := x + y;
      assert xy[..|xy| - 1] == x + y[..n] && xy[|xy| - 1] == y[n];
      NumberConcat(base, x, y[..n]);
      Distribute(base, Number(base, x), Power(base, n), Number(base, y[..n]));
    }
  }

  lemma Distribute(base: int, x: int, power: int, y: int)
    ensures base * (x * power + y) == x * (base * power) + base * y
  {
  }

  /** Digits of one length are determined by their number. */
  lemma {:induction false} NumberInjective(base: nat, x: seq<int>, y: seq<int>)
    requires |x| == |y| && Number(base, x) == Number(base, y)
    requires forall i :: 0 <= i < |x| ==> 0 <= x[i] < base && 0 <= y[i] < base
    ensures x == y
    decreases |x|
  {
    if x != [] {
      var n := |x| - 1;
      SameQuotient(base, Number(base, x[..n]), x[n], Number(base, y[..n]), y[n]);
      NumberInjective(base, x[..n], y[..n]);
      InitLast(x);
      InitLast(y);
    }
  }

  lemma AtLeastBase(base: int, k: int)
    requires base > 0 && k >= 1
    ensures base * k >= base
  {
  }

  lemma Difference(base: int, p: int, q: int)
    ensures base * p - base * q == base * (p - q)
  {
  }

  lemma SameQuotient(base: int, q1: int, r1: int, q2: int, r2: int)
    requires base * q1 + r1 == base * q2 + r2 && 0 <= r1 < base && 0 <= r2 < base
    ensures q1 == q2 && r1 == r2
  {
    Difference(base, q1, q2);
    Difference(base, q2, q1);
    if q1 < q2 {
      AtLeastBase(base, q2 - q1);
    } else if q2 < q1 {
      AtLeastBase(base, q1 - q2);
    }
  }

  // ------------------------------------------------------------- texts

  /** The sextets of a byte string. */
  function SextetsOf(b: Bytes): seq<sextet> {
    if b == [] then []
    else if |b| < 3 then Sextets(b)
    else Sextets(b[..3]) + SextetsOf(b[3..])
  }

  function Characters(a: Alphabet, digits: seq<sextet>): (r: Bytes)
    ensures |r| == |digits|
  {
    SymbolExact(a, 0);
    seq(|digits|, i requires 0 <= i < |digits| => Ascii(Table(a))[digits[i]])
  }

  /** `x` with some zero bits after it. */
  function Shifted(x: int, bits: int): int {
    if bits == 0 then x else if bits == 2 then 4 * x else 16 * x
  }

  /** There are just as many digits of six bits as hold all bytes, and the unused bits of the last digit are zero. */
  ghost predicate SameNumber(digits: seq<sextet>, b: Bytes) {
    var spare := 6 * |digits| - 8 * |b|;
    0 <= spare < 6 && Number(64, digits) == Shifted(Number(256, b), spare)
  }

  /** How many padding characters fill the last group of four characters. */
  function Fill(b: Bytes): nat {
    if |b| % 3 == 0 then 0 else 3 - |b| % 3
  }

  lemma FillTail(b: Bytes)
    requires |b| >= 3
    ensures Fill(b[3..]) == Fill(b)
  {
    assert |b[3..]| == |b| - 3;
  }

  /** Sections 4 and 5 of RFC 4648: `text` is base64 for `b`, with or without padding. */
  ghost predicate Represents(a: Alphabet, padded: bool, text: Bytes, b: Bytes) {
    exists digits: seq<sextet> ::
      SameNumber(digits, b) && text == Characters(a, digits) + Ascii(if padded then "==="[..Fill(b)] else "")
  }

  lemma NumberSnoc(base: nat, x: seq<int>, d: int)
    ensures Number(base, x + [d]) == base * Number(base, x) + d
  {
    assert (x + [d])[..|x|] == x;
  }

  lemma NumberTwo(base: nat, x: int, y: int)
    ensures Number(base, [x]) == x && Number(base, [x, y]) == base * x + y
  {
    NumberSnoc(base, [], x);
    NumberSnoc(base, [x], y);
    assert [] + [x] == [x] && [x] + [y] == [x, y];
  }

  lemma NumberFour(x: int, y: int, z: int, w: int)
    ensures Number(64, [x, y, z]) == 4096 * x + 64 * y + z
    ensures Number(64, [x, y, z, w]) == 0x4_0000 * x + 4096 * y + 64 * z + w
  {
    NumberTwo(64, x, y);
    NumberSnoc(64, [x, y], z);
    NumberSnoc(64, [x, y, z], w);
    assert [x, y] + [z] == [x, y, z] && [x, y, z] + [w] == [x, y, z, w];
  }

  lemma NumberThree(x: int, y: int, z: int)
    ensures Number(256, [x, y, z]) == 0x1_0000 * x + 256 * y + z
  {
    NumberTwo(256, x, y);
    NumberSnoc(256, [x, y], z);
    assert [x, y] + [z] == [x, y, z];
  }

  lemma OneByte(x: byte)
    ensures Number(64, Sextets([x])) == 16 * Number(256, [x])
  {
    NumberTwo(256, x, 0);
    NumberTwo(64, x / 4, x % 4 * 16);
  }

  lemma TwoBytes(x: byte, y: byte)
    ensures Number(64, Sextets([x, y])) == 4 * Number(256, [x, y])
  {
    NumberTwo(256, x, y);
    NumberFour(x / 4, x % 4 * 16 + y / 16, y % 16 * 4, 0);
  }

  lemma ThreeBytes(x: byte, y: byte, z: byte)
    ensures Number(64, Sextets([x, y, z])) == Number(256, [x, y, z])
  {
    NumberThree(x, y, z);
    NumberFour(x / 4, x % 4 * 16 + y / 16, y % 16 * 4 + z / 64, z % 64);
  }

  lemma GroupNumber(b: Bytes)
    requires 1 <= |b| <= 3
    ensures SameNumber(Sextets(b), b)
  {
    if |b| == 1 {
      assert b == [b[0]];
      OneByte(b[0]);
    } else if |b| == 2 {
      assert b == [b[0], b[1]];
      TwoBytes(b[0], b[1]);
    } else {
      assert b == [b[0], b[1], b[2]];
      ThreeBytes(b[0], b[1], b[2]);
    }
  }

  lemma PowerGroups(m: nat, n: nat)
    ensures Power(256, m + 3) == 0x100_0000 * Power(256, m) && Power(64, n + 4) == 0x100_0000 * Power(64, n)
  {
    assert Power(256, m + 3) == 256 * Power(256, m + 2) == 0x1_0000 * Power(256, m + 1);
    assert Power(64, n + 4) == 64 * Power(64, n + 3) == 4096 * Power(64, n + 2) == 0x4_0000 * Power(64, n + 1);
  }

  /** The weight of a group of digits before the `k` digits of `n` bytes. */
  lemma {:induction false} GroupWeight(n: nat, k: nat)
    requires 0 <= 6 * k - 8 * n < 6
    ensures Power(64, k) == Shifted(Power(256, n), 6 * k - 8 * n)
  {
    if n >= 3 {
      GroupWeight(n - 3, k - 4);
      PowerGroups(n - 3, k - 4);
    } else {
      assert Power(64, 0) == 1 && Power(64, 2) == 4096 && Power(64, 3) == 0x4_0000;
      assert Power(256, 0) == 1 && Power(256, 1) == 256 && Power(256, 2) == 0x1_0000;
    }
  }

  lemma ShiftedSum(group: int, power: int, rest: int, bits: int)
    ensures group * Shifted(power, bits) + Shifted(rest, bits) == Shifted(group * power + rest, bits)
  {
    Times(group, 16, power);
    Times(group, 4, power);
  }

  lemma Times(a: int, k: int, b: int)
    ensures a * (k * b) == k * (a * b)
  {
  }

  /** A group of three bytes before bytes with known digits. */
  lemma GroupThenRest(group: Bytes, rest: Bytes, d: seq<sextet>)
    requires |group| == 3 && SameNumber(d, rest)
    ensures SameNumber(Sextets(group) + d, group + rest)
  {
    GroupNumber(group);
    NumberConcat(64, Sextets(group), d);
    NumberConcat(256, group, rest);
    GroupWeight(|rest|, |d|);
    ShiftedSum(Number(256, group), Power(256, |rest|), Number(256, rest), 6 * |d| - 8 * |rest|);
  }

  lemma {:induction false} SextetsNumber(b: Bytes)
    ensures SameNumber(SextetsOf(b), b)
  {
    if 1 <= |b| < 3 {
      GroupNumber(b);
    } else if |b| >= 3 {
      SextetsNumber(b[3..]);
      GroupThenRest(b[..3], b[3..], SextetsOf(b[3..]));
      assert b[..3] + b[3..] == b;
    }
  }

  lemma SymbolsExact(a: Alphabet, digits: seq<sextet>)
    ensures Symbols(a, digits) == Characters(a, digits)
  {
    forall i | 0 <= i < |digits|
      ensures Symbols(a, digits)[i] == Characters(a, digits)[i]
    {
      SymbolExact(a, digits[i]);
    }
  }

  lemma PaddingText(n: nat)
    requires n <= 2
    ensures Padding(n) == Ascii("==="[..n])
  {
  }

  lemma SymbolsConcat(a: Alphabet, x: seq<sextet>, y: seq<sextet>)
    ensures Symbols(a, x + y) == Symbols(a, x) + Symbols(a, y)
  {
  }

  function Pads(padded: bool, b: Bytes): Bytes {
    if padded then Padding(Fill(b)) else []
  }

  lemma {:induction false} EncodeSextets(a: Alphabet, padded: bool, b: Bytes)
    ensures Encode(a, padded, b) == Symbols(a, SextetsOf(b)) + Pads(padded, b)
  {
    if |b| >= 3 {
      var x, y := Sextets(b[..3]), SextetsOf(b[3..]);
      EncodeSextets(a, padded, b[3..]);
      SymbolsConcat(a, x, y);
      Assoc(Symbols(a, x), Symbols(a, y), Pads(padded, b[3..]));
      FillTail(b);
    }
  }

  lemma PadsText(padded: bool, b: Bytes)
    ensures Pads(padded, b) == Ascii(if padded then "==="[..Fill(b)] else "")
  {
    PaddingText(Fill(b));
  }

  lemma SameDigits(d: seq<sextet>, e: seq<sextet>, b: Bytes)
    requires SameNumber(d, b) && SameNumber(e, b)
    ensures d == e
  {
    NumberInjective(64, d, e);
  }

  lemma EncodeRepresents(a: Alphabet, padded: bool, b: Bytes)
    ensures Represents(a, padded, Encode(a, padded, b), b)
  {
    var d := SextetsOf(b);
    SextetsNumber(b);
    SymbolsExact(a, d);
    EncodeSextets(a, padded, b);
    PadsText(padded, b);
  }

  /** What the encoder writes is base64 as the RFC defines it, and nothing else is. */
  lemma EncodeExact(a: Alphabet, padded: bool, text: Bytes, b: Bytes)
    ensures text == Encode(a, padded, b) <==> Represents(a, padded, text, b)
  {
    EncodeRepresents(a, padded, b);
    if Represents(a, padded, text, b) {
      Unique(a, padded, text, Encode(a, padded, b), b);
    }
  }

  lemma Unique(a: Alphabet, padded: bool, s: Bytes, t: Bytes, b: Bytes)
    requires Represents(a, padded, s, b) && Represents(a, padded, t, b)
    ensures s == t
  {
    var end := Ascii(if padded then "==="[..Fill(b)] else "");
    var d: seq<sextet> :| SameNumber(d, b) && s == Characters(a, d) + end;
    var e: seq<sextet> :| SameNumber(e, b) && t == Characters(a, e) + end;
    SameDigits(d, e, b);
  }

  /** With padding there are four characters for each three bytes or part of them. */
  lemma {:induction false} PaddedLength(a: Alphabet, b: Bytes)
    ensures |Encode(a, true, b)| == 4 * ((|b| + 2) / 3)
  {
    if |b| >= 3 {
      PaddedLength(a, b[3..]);
      assert (|b| - 3 + 2) / 3 + 1 == (|b| + 2) / 3;
    }
  }

  /** `text` is base64 for `b`, with `pads` of the padding characters. */
  ghost predicate RepresentsWith(a: Alphabet, pads: nat, text: Bytes, b: Bytes) {
    && pads <= Fill(b)
    && exists digits: seq<sextet> :: SameNumber(digits, b) && text == Characters(a, digits) + Ascii("==="[..pads])
  }

  lemma CharactersSpell(a: Alphabet, digits: seq<sextet>, pads: nat, b: Bytes)
    requires SameNumber(digits, b) && pads <= Fill(b)
    ensures Spells(a, Characters(a, digits) + Ascii("==="[..pads]), b)
  {
    SextetsNumber(b);
    SameDigits(digits, SextetsOf(b), b);
    SymbolsExact(a, digits);
    EncodeSextets(a, false, b);
    EncodeSextets(a, true, b);
    PaddingText(Fill(b));
    assert Ascii("==="[..pads]) == Padding(Fill(b))[..pads];
  }

  lemma SpelledCharacters(a: Alphabet, text: Bytes, b: Bytes) returns (pads: nat)
    requires Spells(a, text, b)
    ensures RepresentsWith(a, pads, text, b)
  {
    var d := SextetsOf(b);
    SextetsNumber(b);
    SymbolsExact(a, d);
    EncodeSextets(a, false, b);
    EncodeSextets(a, true, b);
    PaddingText(Fill(b));
    pads := |text| - |d|;
    assert Ascii("==="[..pads]) == Padding(Fill(b))[..pads];
    assert text == Encode(a, true, b)[..|text|];
  }

  /**
   A text is read as some bytes exactly when it is base64 for them, in either alphabet and with any of the padding.
   */
  lemma ReadExact(text: Bytes, b: Bytes)
    ensures DecodeFlexible(text) == Ok(b) <==> b != [] && exists a, pads: nat :: RepresentsWith(a, pads, text, b)
  {
    FlexibleExact(text, b);
    if a, pads: nat :| RepresentsWith(a, pads, text, b) {
      var digits: seq<sextet> :| SameNumber(digits, b) && text == Characters(a, digits) + Ascii("==="[..pads]);
      CharactersSpell(a, digits, pads, b);
      assert a == Standard || a == UrlSafe;
    }
    if DecodeFlexible(text) == Ok(b) {
      var a := if Spells(Standard, text, b) then Standard else UrlSafe;
      var pads := SpelledCharacters(a, text, b);
    }
  }
}
