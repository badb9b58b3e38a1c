/** Base64 (sections 4 and 5 of RFC 4648) and the crate's lenient decoder. */
module Base64 {
  import opened Prelude

  datatype Alphabet = Standard | UrlSafe

  type sextet = v: int | 0 <= v < 64

  const PAD: byte := 0x3D
  const PLUS: byte := 0x2B
  const SLASH: byte := 0x2F
  const MINUS: byte := 0x2D
  const UNDERSCORE: byte := 0x5F

  function Symbol(a: Alphabet, v: sextet): byte {
    if v < 26 then 0x41 + v
    else if v < 52 then 0x61 + (v - 26)
    else if v < 62 then 0x30 + (v - 52)
    else if v == 62 then if a == Standard then PLUS else MINUS
    else if a == Standard then SLASH else UNDERSCORE
  }

  function Value(a: Alphabet, c: byte): Option<sextet> {
    if 0x41 <= c <= 0x5A then Some(c - 0x41)
    else if 0x61 <= c <= 0x7A then Some(c - 0x61 + 26)
    else if 0x30 <= c <= 0x39 then Some(c - 0x30 + 52)
    else if c == Symbol(a, 62) then Some(62)
    else if c == Symbol(a, 63) then Some(63)
    else None
  }

  /** The sextets of a group of one, two or three bytes. */
  function Sextets(b: Bytes): (r: seq<sextet>)
    requires 1 <= |b| <= 3
    ensures |r| == |b| + 1
  {
    if |b| == 1 then [b[0] / 4, b[0] % 4 * 16]
    else if |b| == 2 then [b[0] / 4, b[0] % 4 * 16 + b[1] / 16, b[1] % 16 * 4]
    else [b[0] / 4, b[0] % 4 * 16 + b[1] / 16, b[1] % 16 * 4 + b[2] / 64, b[2] % 64]
  }

  /** The bytes of a group of sextets; None when the unused low bits are not zero. */
  function Unpack(v: seq<sextet>): (r: Option<Bytes>)
    requires 2 <= |v| <= 4
    ensures r.Some? ==> |r.value| == |v| - 1
    ensures |v| == 4 ==> r.Some?
  {
    var v0: int, v1: int := v[0], v[1];
    if |v| == 2 then
      if v1 % 16 != 0 then None else Some([v0 * 4 + v1 / 16])
    else
      var v2: int := v[2];
      if |v| == 3 then
        if v2 % 4 != 0 then None else Some([v0 * 4 + v1 / 16, v1 % 16 * 16 + v2 / 4])
      else
        var v3: int := v[3];
        Some([v0 * 4 + v1 / 16, v1 % 16 * 16 + v2 / 4, v2 % 4 * 64 + v3])
  }

  function Symbols(a: Alphabet, v: seq<sextet>): (r: Bytes)
    ensures |r| == |v|
    ensures forall i :: 0 <= i < |v| ==> r[i] == Symbol(a, v[i])
  {
    seq(|v|, i requires 0 <= i < |v| => Symbol(a, v[i]))
  }

  function Values(a: Alphabet, s: Bytes): (r: Option<seq<sextet>>)
    ensures r.Some? ==> |r.value| == |s| && Symbols(a, r.value) == s
    ensures forall v: seq<sextet> :: s == Symbols(a, v) ==> r == Some(v)
  {
    if forall i | 0 <= i < |s| :: Value(a, s[i]).Some? then
      var v := seq(|s|, i requires 0 <= i < |s| => Value(a, s[i]).value);
      assert Symbols(a, v) == s;
      assert forall w: seq<sextet> :: s == Symbols(a, w) ==> w == v;
      Some(v)
    else
      None
  }

  /** `n` padding characters. */
  function Padding(n: nat): (r: Bytes)
    ensures |r| == n
    ensures forall i :: 0 <= i < n ==> r[i] == PAD
  {
    seq(n, i => PAD)
  }

  function Encode(a: Alphabet, padded: bool, b: Bytes): Bytes {
    if b == [] then []
    else if |b| < 3 then Symbols(a, Sextets(b)) + (if padded then Padding(3 - |b|) else [])
    else Symbols(a, Sextets(b[..3])) + Encode(a, padded, b[3..])
  }

  /** The text before the first padding character. */
  function Unpadded(s: Bytes): (r: Bytes)
    ensures |r| <= |s| && r == s[..|r|]
    ensures PAD !in r
    ensures |r| < |s| ==> s[|r|] == PAD
  {
    if s == [] || s[0] == PAD then [] else [s[0]] + Unpadded(s[1..])
  }

  /** The last group of a text: two to four symbols, then padding up to four characters at most. */
  function DecodeLast(a: Alphabet, s: Bytes): Option<Bytes> {
    var u := Unpadded(s);
    if |u| < 2 || |s| > 4 || s != u + Padding(|s| - |u|) then None
    else match Values(a, u)
      case None => None
      case Some(v) => Unpack(v)
  }

  /** Padding is optional (any part of the canonical padding may be left out), trailing bits must be zero. */
  function Decode(a: Alphabet, s: Bytes): Option<Bytes> {
    if s == [] then Some([])
    else if |s| <= 4 then DecodeLast(a, s)
    else match (Values(a, s[..4]), Decode(a, s[4..]))
      case (Some(v), Some(rest)) => Some(Unpack(v).value + rest)
      case _ => None
  }

  function DecodeFlexible(s: Bytes): Result<Bytes> {
    if s == [] then Err(DeserializationError)
    else
      var a := if UNDERSCORE in s || MINUS in s then UrlSafe else Standard;
      match Decode(a, s)
      case Some(b) => Ok(b)
      case None => Err(DeserializationError)
  }

  // -------------------------------------------------------------- proofs

  lemma UnpackSextets(b: Bytes)
    requires 1 <= |b| <= 3
    ensures Unpack(Sextets(b)) == Some(b)
  {
    var v := Sextets(b);
    var r := Unpack(v).value;
    assert r[0] == b[0];
    if |b| > 1 {
      assert r[1] == b[1];
    }
    assert r == b;
  }

  lemma SextetsUnpack(v: seq<sextet>)
    requires 2 <= |v| <= 4 && Unpack(v).Some?
    ensures Sextets(Unpack(v).value) == v
  {
    var b := Unpack(v).value;
    var w := Sextets(b);
    assert w[0] == v[0];
    assert w[1] == v[1];
    assert w == v;
  }

  lemma {:induction false} UnpaddedText(u: Bytes, pads: nat)
    requires PAD !in u
    ensures Unpadded(u + Padding(pads)) == u
  {
    var s := u + Padding(pads);
    if u == [] {
      assert pads > 0 ==> s[0] == PAD;
    } else {
      assert s[1..] == u[1..] + Padding(pads);
      UnpaddedText(u[1..], pads);
    }
  }

  lemma DecodeLastSymbols(a: Alphabet, v: seq<sextet>, pads: nat)
    requires 2 <= |v| && |v| + pads <= 4
    ensures DecodeLast(a, Symbols(a, v) + Padding(pads)) == Unpack(v)
  {
    UnpaddedText(Symbols(a, v), pads);
  }

  /** A text lies between the unpadded and the padded encoding of `b`. */
  predicate Spells(a: Alphabet, s: Bytes, b: Bytes) {
    Encode(a, false, b) <= s <= Encode(a, true, b)
  }

  lemma EncodeLast(a: Alphabet, b: Bytes)
    requires 1 <= |b| <= 3
    ensures Encode(a, false, b) == Symbols(a, Sextets(b))
    ensures Encode(a, true, b) == Symbols(a, Sextets(b)) + Padding(3 - |b|)
  {
    if |b| == 3 {
      assert b[..3] == b && b[3..] == [];
    }
  }

  lemma {:induction false} EncodeNonempty(a: Alphabet, padded: bool, b: Bytes)
    ensures b != [] ==> |Encode(a, padded, b)| >= 2
  {
  }

  /** Every text that spells `b` decodes to `b`. */
  lemma {:induction false} DecodeSpelling(a: Alphabet, s: Bytes, b: Bytes)
    requires Spells(a, s, b)
    ensures Decode(a, s) == Some(b)
  {
    if b == [] {
    } else if |b| <= 3 {
      EncodeLast(a, b);
      UnpackSextets(b);
      var n := |s| - |Sextets(b)|;
      assert s == Symbols(a, Sextets(b)) + Padding(n);
      DecodeLastSymbols(a, Sextets(b), n);
    } else {
      var head := Symbols(a, Sextets(b[..3]));
      var lo, hi := Encode(a, false, b[3..]), Encode(a, true, b[3..]);
      EncodeNonempty(a, false, b[3..]);
      assert Encode(a, false, b) == head + lo && Encode(a, true, b) == head + hi;
      assert s[..4] == head;
      assert lo == (head + lo)[4..] <= s[4..] <= (head + hi)[4..] == hi;
      DecodeSpelling(a, s[4..], b[3..]);
      UnpackSextets(b[..3]);
      assert b == b[..3] + b[3..];
    }
  }

  lemma DecodedLastSpells(a: Alphabet, s: Bytes, b: Bytes)
    requires DecodeLast(a, s) == Some(b)
    ensures Spells(a, s, b)
  {
    var v := Values(a, Unpadded(s)).value;
    SextetsUnpack(v);
    EncodeLast(a, b);
    assert s == Symbols(a, v) + Padding(|s| - |v|);
  }

  lemma SpellsCons(a: Alphabet, v: seq<sextet>, s: Bytes, rest: Bytes)
    requires |v| == 4 && Spells(a, s, rest)
    ensures Spells(a, Symbols(a, v) + s, Unpack(v).value + rest)
  {
    var b := Unpack(v).value + rest;
    SextetsUnpack(v);
    assert b[..3] == Unpack(v).value && b[3..] == rest;
  }

  /** Only texts that spell `b` decode to `b`. */
  lemma {:induction false} DecodedSpells(a: Alphabet, s: Bytes, b: Bytes)
    requires Decode(a, s) == Some(b)
    ensures Spells(a, s, b)
  {
    if s == [] {
    } else if |s| <= 4 {
      DecodedLastSpells(a, s, b);
    } else {
      var v, rest := Values(a, s[..4]).value, Decode(a, s[4..]).value;
      DecodedSpells(a, s[4..], rest);
      SpellsCons(a, v, s[4..], rest);
      assert s == Symbols(a, v) + s[4..];
    }
  }

  /** Decoding accepts exactly the encodings, with any part of the padding left out. */
  lemma DecodeExact(a: Alphabet, s: Bytes, b: Bytes)
    ensures Decode(a, s) == Some(b) <==> Spells(a, s, b)
  {
    if Decode(a, s) == Some(b) {
      DecodedSpells(a, s, b);
    }
    if Spells(a, s, b) {
      DecodeSpelling(a, s, b);
    }
  }

  lemma {:induction false} EncodeBounds(a: Alphabet, b: Bytes)
    ensures Encode(a, false, b) <= Encode(a, true, b)
    ensures forall c :: c in Encode(a, true, b) ==> c == PAD || Value(a, c).Some?
  {
    if 1 <= |b| <= 3 {
      EncodeLast(a, b);
    } else if |b| > 3 {
      EncodeBounds(a, b[3..]);
    }
  }

  lemma {:induction false} DecodeAgrees(s: Bytes)
    requires forall c :: c in s ==> Value(Standard, c) == Value(UrlSafe, c)
    ensures Decode(Standard, s) == Decode(UrlSafe, s)
  {
    if |s| > 4 {
      DecodeAgrees(s[4..]);
      ValuesAgree(s[..4]);
    } else {
      ValuesAgree(Unpadded(s));
    }
  }

  lemma ValuesAgree(s: Bytes)
    requires forall c :: c in s ==> Value(Standard, c) == Value(UrlSafe, c)
    ensures Values(Standard, s) == Values(UrlSafe, s)
  {
    if Values(Standard, s).Some? && Values(UrlSafe, s).Some? {
      assert Values(Standard, s).value == Values(UrlSafe, s).value;
    }
  }

  lemma SpellingSymbols(a: Alphabet, s: Bytes, b: Bytes)
    requires Spells(a, s, b)
    ensures forall c :: c in s ==> c == PAD || Value(a, c).Some?
    ensures b != [] ==> s != []
  {
    EncodeNonempty(a, false, b);
    EncodeBounds(a, b);
    assert forall c :: c in s ==> c in Encode(a, true, b);
  }

  /** The guess of the alphabet is right for every spelling of every non-empty byte string. */
  lemma FlexibleDecodesSpelling(a: Alphabet, s: Bytes, b: Bytes)
    requires b != [] && Spells(a, s, b)
    ensures DecodeFlexible(s) == Ok(b)
  {
    SpellingSymbols(a, s, b);
    DecodeSpelling(a, s, b);
    if a == UrlSafe && UNDERSCORE !in s && MINUS !in s {
      DecodeAgrees(s);
    }
  }

  /** All four encodings of every non-empty byte string are read back. */
  lemma FlexibleDecodesEncode(a: Alphabet, padded: bool, b: Bytes)
    requires b != []
    ensures DecodeFlexible(Encode(a, padded, b)) == Ok(b)
  {
    EncodeBounds(a, b);
    FlexibleDecodesSpelling(a, Encode(a, padded, b), b);
  }

  /** The flexible decoder succeeds on a text exactly when it spells a non-empty byte string in one of the alphabets. */
  lemma FlexibleExact(s: Bytes, b: Bytes)
    ensures DecodeFlexible(s) == Ok(b) <==> b != [] && (Spells(Standard, s, b) || Spells(UrlSafe, s, b))
  {
    if DecodeFlexible(s) == Ok(b) {
      var a := if UNDERSCORE in s || MINUS in s then UrlSafe else Standard;
      DecodedSpells(a, s, b);
    }
    if b != [] && Spells(Standard, s, b) {
      FlexibleDecodesSpelling(Standard, s, b);
    }
    if b != [] && Spells(UrlSafe, s, b) {
      FlexibleDecodesSpelling(UrlSafe, s, b);
    }
  }
}
