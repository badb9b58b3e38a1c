/** Field sizes of the V2 format: base-128 digits, least significant first, all but the last with the top bit set. */
module FieldSizes {
  import opened Prelude

  /** The width of a machine word. */
  type Word = bits: int | bits == 32 || bits == 64 witness 64

  function Varint(n: nat): (r: Bytes)
    ensures r != []
  {
    if n < 128 then [n] else [n % 128 + 128] + Varint(n / 128)
  }

  /** The loop that writes a size; `size & 127` and `size >> 7` are remainder and quotient by 128. */
  method VarintSize(size: nat) returns (buffer: Bytes)
    ensures buffer == Varint(size)
  {
    buffer := [];
    var mySize := size;
    while mySize >= 128
      invariant buffer + Varint(mySize) == Varint(size)
    {
      buffer := buffer + [mySize % 128 + 128];
      mySize := mySize / 128;
    }
    buffer := buffer + [mySize];
  }

  function GetByte(s: Bytes): Result<(byte, Bytes)> {
    if s == [] then Err(DeserializationError) else Ok((s[0], s[1..]))
  }

  /** The digits at the front of `s`, the first of which stands at bit `shift`, and the bytes after them. */
  function Digits(w: Word, s: Bytes, shift: nat): (r: Result<(nat, Bytes)>)
    ensures r.Ok? ==> |r.value.1| < |s|
    decreases |s|
  {
    if shift > w - 8 then Err(DeserializationError)
    else
      var (b, rest) :- GetByte(s);
      if b >= 128 then
        var (n, after) :- Digits(w, rest, shift + 7);
        Ok((b % 128 + 128 * n, after))
      else if b == 0 && shift > 0 then Err(DeserializationError)
      else Ok((b, rest))
  }

  function GetFieldSize(w: Word, s: Bytes): (r: Result<(nat, Bytes)>)
    ensures r.Ok? ==> |r.value.1| < |s|
  {
    var (n, rest) :- Digits(w, s, 0);
    var _ :- CheckFieldSize(n);
    Ok((n, rest))
  }

  lemma {:induction false} DigitsSound(w: Word, s: Bytes, shift: nat, n: nat, rest: Bytes)
    requires Digits(w, s, shift) == Ok((n, rest))
    ensures s == Varint(n) + rest
    ensures shift > 0 ==> n > 0
    decreases |s|
  {
    if s[0] >= 128 {
      var m := Digits(w, s[1..], shift + 7).value.0;
      DigitsSound(w, s[1..], shift + 7, m, rest);
      assert n % 128 + 128 == s[0] && n / 128 == m;
      assert s == [s[0]] + s[1..];
    }
  }

  /** The position of the last digit of `n`, when the first one stands at bit `shift`. */
  function LastShift(n: nat, shift: nat): nat {
    if n < 128 then shift else LastShift(n / 128, shift + 7)
  }

  lemma {:induction false} DigitsComplete(w: Word, n: nat, rest: Bytes, shift: nat)
    requires (shift > 0 ==> n > 0) && shift <= LastShift(n, shift) <= w - 8
    ensures Digits(w, Varint(n) + rest, shift) == Ok((n, rest))
    decreases n
  {
    var s := Varint(n) + rest;
    if n >= 128 {
      assert s[1..] == Varint(n / 128) + rest;
      LastShiftGrows(n / 128, shift + 7);
      DigitsComplete(w, n / 128, rest, shift + 7);
    } else {
      assert s[1..] == rest;
    }
  }

  lemma {:induction false} LastShiftGrows(n: nat, shift: nat)
    ensures shift <= LastShift(n, shift)
    decreases n
  {
    if n >= 128 {
      LastShiftGrows(n / 128, shift + 7);
    }
  }

  /** Three digits are enough for every field of the crate. */
  lemma LastShiftBound(n: nat)
    requires n <= MAX_FIELD_SIZE_BYTES
    ensures LastShift(n, 0) <= 14
  {
    var n1, n2 := n / 128, n / 128 / 128;
    assert n2 < 128 && LastShift(n2, 14) == 14;
    assert LastShift(n1, 7) <= 14;
  }

  /**
   Sizes are read back, with any bytes after them; and only what the writer writes is accepted, on both word widths.
   */
  lemma FieldSizeExact(w: Word, s: Bytes, n: nat, rest: Bytes)
    ensures GetFieldSize(w, s) == Ok((n, rest)) <==> n <= MAX_FIELD_SIZE_BYTES && s == Varint(n) + rest
  {
    if GetFieldSize(w, s) == Ok((n, rest)) {
      DigitsSound(w, s, 0, n, rest);
    }
    if n <= MAX_FIELD_SIZE_BYTES && s == Varint(n) + rest {
      LastShiftBound(n);
      LastShiftGrows(n, 0);
      DigitsComplete(w, n, rest, 0);
    }
  }

  // -------------------------------------------------- what a size looks like

  /** The number whose base-128 digits, least significant first, are the low seven bits of the bytes. */
  function SizeValue(s: Bytes): nat {
    if s == [] then 0 else s[0] % 128 + 128 * SizeValue(s[1..])
  }

  /** The top bit is set in all bytes but the last, and the last is zero only if it is the only one. */
  ghost predicate SizeForm(s: Bytes) {
    && s != []
    && (forall i :: 0 <= i < |s| - 1 ==> s[i] >= 128)
    && s[|s| - 1] < 128
    && (|s| > 1 ==> s[|s| - 1] != 0)
  }

  lemma SizeFormTail(s: Bytes)
    requires |s| > 1
    ensures SizeForm(s) <==> s[0] >= 128 && SizeForm(s[1..]) && s[|s| - 1] != 0
  {
    var t := s[1..];
    if s[0] >= 128 && SizeForm(t) {
      assert forall i :: 1 <= i < |s| - 1 ==> s[i] == t[i - 1];
    }
  }

  lemma {:induction false} SizePositive(s: Bytes)
    requires SizeForm(s) && s[|s| - 1] != 0
    ensures SizeValue(s) > 0
  {
    if |s| > 1 {
      SizeFormTail(s);
      SizePositive(s[1..]);
    }
  }

  /** The written sizes are the byte strings of this form, each for its own value. */
  lemma {:induction false} VarintExact(s: Bytes, n: nat)
    ensures s == Varint(n) <==> SizeForm(s) && SizeValue(s) == n
    decreases |s|
  {
    if |s| == 1 {
      assert s[1..] == [];
      assert n >= 128 ==> |Varint(n)| > 1;
    } else if |s| > 1 {
      SizeFormTail(s);
      VarintExact(s[1..], n / 128);
      assert s == [s[0]] + s[1..];
      if SizeForm(s) {
        SizePositive(s[1..]);
      }
      if s == Varint(n) {
        VarintEnd(n);
      }
    }
  }

  lemma {:induction false} VarintEnd(n: nat)
    ensures n > 0 ==> Varint(n)[|Varint(n)| - 1] != 0
  {
    if n >= 128 {
      VarintEnd(n / 128);
    }
  }

  // ------------------------------------------------- machine arithmetic

  function Pow2(n: nat): nat {
    if n == 0 then 1 else 2 * Pow2(n - 1)
  }

  lemma Pow2Seven(n: nat)
    ensures Pow2(n + 7) == 128 * Pow2(n)
  {
    assert Pow2(n + 7) == 2 * Pow2(n + 6) == 4 * Pow2(n + 5) == 8 * Pow2(n + 4);
    assert Pow2(n + 4) == 2 * Pow2(n + 3) == 4 * Pow2(n + 2) == 8 * Pow2(n + 1) == 16 * Pow2(n);
  }

  lemma {:induction false} Pow2Monotone(a: nat, b: nat)
    requires a <= b
    ensures 0 < Pow2(a) <= Pow2(b)
    decreases b
  {
    if a < b {
      Pow2Monotone(a, b - 1);
    } else if a > 0 {
      Pow2Monotone(a - 1, b - 1);
    }
  }

  /** The bitwise or of two numbers. */
  function BitOr(a: nat, b: nat): nat
    decreases a + b
  {
    if a == 0 then b else if b == 0 then a
    else 2 * BitOr(a / 2, b / 2) + (if a % 2 == 1 || b % 2 == 1 then 1 else 0)
  }

  /** `size | digit << shift`, as it is computed when it fits the machine word. */
  function OrShifted(size: nat, digit: nat, shift: nat): nat {
    BitOr(size, digit * Pow2(shift))
  }

  lemma Halves(digit: nat, x: nat)
    ensures digit * (2 * x) == 2 * (digit * x)
  {
  }

  /** Above the bits in use, a bitwise or is a sum. */
  lemma {:induction false} OrIsSum(size: nat, digit: nat, shift: nat)
    requires size < Pow2(shift)
    ensures OrShifted(size, digit, shift) == size + digit * Pow2(shift)
    decreases shift
  {
    if size != 0 {
      Halves(digit, Pow2(shift - 1));
      OrIsSum(size / 2, digit, shift - 1);
    }
  }

  /**
   While a size is read, the bitwise or puts the next digit in front of the digits so far, which stay below the
   next shift; nothing overflows the machine word.
   */
  lemma FitsWord(w: Word, size: nat, digit: nat, shift: nat)
    requires shift <= w - 8 && digit < 128 && size < Pow2(shift)
    ensures OrShifted(size, digit, shift) == size + digit * Pow2(shift) < Pow2(shift + 7) < Pow2(w)
    ensures digit * Pow2(shift) < Pow2(w)
  {
    OrIsSum(size, digit, shift);
    Pow2Seven(shift);
    Times(digit, 127, Pow2(shift));
    Pow2Monotone(shift + 8, w);
    Pow2Monotone(shift + 7, shift + 7);
    assert Pow2(shift + 8) == 2 * Pow2(shift + 7);
  }

  lemma Times(a: nat, b: nat, x: nat)
    requires a <= b
    ensures a * x <= b * x
  {
  }

  /** What the reader answers when it holds `size` and still has to read the digits from bit `shift` on. */
  function Resume(w: Word, size: nat, s: Bytes, shift: nat): Result<(nat, Bytes)> {
    match Digits(w, s, shift)
    case Ok((n, rest)) => Ok((size + n * Pow2(shift), rest))
    case Err(e) => Err(e)
  }

  lemma ResumeStart(w: Word, s: Bytes)
    ensures Resume(w, 0, s, 0) == Digits(w, s, 0)
  {
    if Digits(w, s, 0).Ok? {
      Ones(Digits(w, s, 0).value.0);
    }
  }

  lemma Ones(n: nat)
    ensures n * Pow2(0) == n
  {
  }

  lemma ResumeNext(w: Word, size: nat, s: Bytes, shift: nat)
    requires shift <= w - 8 && s != [] && s[0] >= 128 && size < Pow2(shift)
    ensures Resume(w, size, s, shift) == Resume(w, OrShifted(size, s[0] % 128, shift), s[1..], shift + 7)
  {
    OrIsSum(size, s[0] % 128, shift);
    var d := Digits(w, s[1..], shift + 7);
    if d.Ok? {
      Pow2Seven(shift);
      Accumulate(size, Pow2(shift), s[0] % 128, d.value.0);
    }
  }

  lemma ResumeLast(w: Word, size: nat, s: Bytes, shift: nat)
    requires shift <= w - 8 && s != [] && s[0] < 128 && size < Pow2(shift)
    ensures Resume(w, size, s, shift) ==
              if s[0] == 0 && shift > 0 then Err(DeserializationError) else Ok((OrShifted(size, s[0], shift), s[1..]))
  {
    OrIsSum(size, s[0], shift);
  }

  lemma Accumulate(size: int, weight: int, digit: int, n: int)
    ensures size + (digit + 128 * n) * weight == size + digit * weight + n * (128 * weight)
  {
  }
}
