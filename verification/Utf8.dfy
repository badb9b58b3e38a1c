/** UTF-8 as RFC 3629 defines it: a byte string is valid exactly when it encodes Unicode scalar values. */
module Utf8 {
  import opened Prelude

  /** A Unicode scalar value: a code point that is no surrogate. */
  type Scalar = n: int | 0 <= n < 0xD800 || 0xE000 <= n < 0x11_0000

  /** The table of section 3 of RFC 3629. */
  function EncodeScalar(n: Scalar): (r: Bytes)
    ensures r != []
  {
    if n < 0x80 then [n]
    else if n < 0x800 then [0xC0 + n / 64, 0x80 + n % 64]
    else if n < 0x1_0000 then [0xE0 + n / 4096, 0x80 + n / 64 % 64, 0x80 + n % 64]
    else [0xF0 + n / 0x4_0000, 0x80 + n / 4096 % 64, 0x80 + n / 64 % 64, 0x80 + n % 64]
  }

  function EncodeScalars(ns: seq<Scalar>): Bytes {
    if ns == [] then [] else EncodeScalar(ns[0]) + EncodeScalars(ns[1..])
  }

  lemma TwoBytes(b0: int, b1: int) returns (n: Scalar)
    requires 0xC2 <= b0 <= 0xDF && 0x80 <= b1 < 0xC0
    ensures EncodeScalar(n) == [b0, b1]
  {
    n := (b0 - 0xC0) * 64 + (b1 - 0x80);
    assert n / 64 == b0 - 0xC0;
  }

  lemma ThreeBytes(b0: int, b1: int, b2: int) returns (n: Scalar)
    requires 0xE0 <= b0 <= 0xEF && 0x80 <= b1 < 0xC0 && 0x80 <= b2 < 0xC0
    requires (b0 == 0xE0 ==> b1 >= 0xA0) && (b0 == 0xED ==> b1 < 0xA0)
    ensures EncodeScalar(n) == [b0, b1, b2]
  {
    var m := (b0 - 0xE0) * 64 + (b1 - 0x80);
    n := m * 64 + (b2 - 0x80);
    assert n / 64 == m && m / 64 == b0 - 0xE0 && n / 4096 == m / 64;
  }

  lemma FourBytes(b0: int, b1: int, b2: int, b3: int) returns (n: Scalar)
    requires 0xF0 <= b0 <= 0xF4 && 0x80 <= b1 < 0xC0 && 0x80 <= b2 < 0xC0 && 0x80 <= b3 < 0xC0
    requires (b0 == 0xF0 ==> b1 >= 0x90) && (b0 == 0xF4 ==> b1 < 0x90)
    ensures EncodeScalar(n) == [b0, b1, b2, b3]
  {
    var l := (b0 - 0xF0) * 64 + (b1 - 0x80);
    var m := l * 64 + (b2 - 0x80);
    n := m * 64 + (b3 - 0x80);
    assert n / 64 == m && m / 64 == l && l / 64 == b0 - 0xF0 && n / 4096 == l && n / 0x4_0000 == l / 64;
  }

  /** The scalar value at the front of valid bytes. */
  lemma DecodeFirst(s: Bytes, i: nat) returns (n: Scalar)
    requires i < |s| && Utf8From(s, i)
    ensures var k := |EncodeScalar(n)|;
            i + k <= |s| && s[i..i + k] == EncodeScalar(n) && Utf8From(s, i + k)
  {
    if s[i] < 0x80 {
      n := s[i];
      assert s[i..i + 1] == [s[i]];
    } else if s[i] <= 0xDF {
      n := TwoBytes(s[i], s[i + 1]);
      assert s[i..i + 2] == [s[i], s[i + 1]];
    } else if s[i] <= 0xEF {
      n := ThreeBytes(s[i], s[i + 1], s[i + 2]);
      assert s[i..i + 3] == [s[i], s[i + 1], s[i + 2]];
    } else {
      n := FourBytes(s[i], s[i + 1], s[i + 2], s[i + 3]);
      assert s[i..i + 4] == [s[i], s[i + 1], s[i + 2], s[i + 3]];
    }
  }

  lemma {:induction false} Decode(s: Bytes, i: nat) returns (ns: seq<Scalar>)
    requires i <= |s| && Utf8From(s, i)
    ensures s[i..] == EncodeScalars(ns)
    decreases |s| - i
  {
    if i == |s| {
      ns := [];
    } else {
      var n := DecodeFirst(s, i);
      var k := i + |EncodeScalar(n)|;
      var rest := Decode(s, k);
      ns := [n] + rest;
      assert ns[1..] == rest;
      assert s[i..] == s[i..k] + s[k..];
    }
  }

  lemma SplitAt<T>(s: seq<T>, i: nat, a: seq<T>, b: seq<T>)
    requires i <= |s| && s[i..] == a + b
    ensures i + |a| <= |s| && s[i + |a|..] == b
    ensures forall k :: 0 <= k < |a| ==> a[k] == s[i..][k]
  {
    assert s[i + |a|..] == s[i..][|a|..];
  }

  /** The bytes of a scalar value followed by valid bytes. */
  lemma EncodedFirst(s: Bytes, i: nat, n: Scalar, rest: Bytes)
    requires i <= |s| && s[i..] == EncodeScalar(n) + rest && |rest| <= |s|
    requires Utf8From(s, |s| - |rest|)
    ensures Utf8From(s, i)
  {
    var e := EncodeScalar(n);
    SplitAt(s, i, e, rest);
    assert s[i] == e[0] && (|e| > 1 ==> s[i + 1] == e[1]);
    assert (|e| > 2 ==> s[i + 2] == e[2]) && (|e| > 3 ==> s[i + 3] == e[3]);
  }

  lemma {:induction false} Encoded(s: Bytes, i: nat, ns: seq<Scalar>)
    requires i <= |s| && s[i..] == EncodeScalars(ns)
    ensures Utf8From(s, i)
    decreases |ns|
  {
    if ns != [] {
      var e, rest := EncodeScalar(ns[0]), EncodeScalars(ns[1..]);
      SplitAt(s, i, e, rest);
      Encoded(s, i + |e|, ns[1..]);
      EncodedFirst(s, i, ns[0], rest);
    }
  }

  /** Bytes are a string exactly when they are the encodings of some scalar values, one after the other. */
  lemma Utf8Exact(s: Bytes)
    ensures ValidUtf8(s) <==> exists ns :: s == EncodeScalars(ns)
    ensures FromUtf8(s) == if exists ns :: s == EncodeScalars(ns) then Ok(s) else Err(DeserializationError)
  {
    assert s[0..] == s;
    if ValidUtf8(s) {
      var ns := Decode(s, 0);
    }
    if ns :| s == EncodeScalars(ns) {
      Encoded(s, 0, ns);
    }
  }
}
