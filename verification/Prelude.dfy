/** Bytes, UTF-8 strings, keys and results shared by every module. */
module Prelude {

  type byte = x: int | 0 <= x < 256
  type Bytes = seq<byte>

  /** A 32-byte key or signature. */
  type Key = k: Bytes | |k| == 32 witness seq(32, i => 0)

  const MAX_CAVEATS: nat := 1000
  const MAX_FIELD_SIZE_BYTES: nat := 65535

  datatype Option<+T> = None | Some(value: T)

  /** The variants of the crate's error type; the messages are dropped. */
  datatype Error =
    | CryptoError
    | IncompleteMacaroon
    | IncompleteCaveat
    | DeserializationError
    | CaveatNotSatisfied
    | DischargeNotUsed
    | InvalidSignature
    | TooManyCaveats
    | FieldTooLarge
    | RngError

  datatype Result<+T> = Ok(value: T) | Err(error: Error) {
    predicate IsFailure() {
      Err?
    }

    function PropagateFailure<U>(): Result<U>
      requires Err?
    {
      Err(error)
    }

    function Extract(): T
      requires Ok?
    {
      value
    }
  }

  function CheckFieldSize(size: nat): Result<()> {
    if size > MAX_FIELD_SIZE_BYTES then Err(FieldTooLarge) else Ok(())
  }

  // ---------------------------------------------------------------- UTF-8

  predicate Continuation(b: byte) {
    0x80 <= b < 0xC0
  }

  /** The bytes from the `i`-th on are well-formed UTF-8, section 4 of RFC 3629. */
  predicate Utf8From(s: Bytes, i: nat)
    requires i <= |s|
    decreases |s| - i
  {
    if i == |s| then true
    else if s[i] < 0x80 then Utf8From(s, i + 1)
    else if 0xC2 <= s[i] <= 0xDF then
      i + 2 <= |s| && Continuation(s[i + 1]) && Utf8From(s, i + 2)
    else if 0xE0 <= s[i] <= 0xEF then
      && i + 3 <= |s| && Continuation(s[i + 1]) && Continuation(s[i + 2])
      && (s[i] == 0xE0 ==> s[i + 1] >= 0xA0) && (s[i] == 0xED ==> s[i + 1] < 0xA0)
      && Utf8From(s, i + 3)
    else if 0xF0 <= s[i] <= 0xF4 then
      && i + 4 <= |s| && Continuation(s[i + 1]) && Continuation(s[i + 2]) && Continuation(s[i + 3])
      && (s[i] == 0xF0 ==> s[i + 1] >= 0x90) && (s[i] == 0xF4 ==> s[i + 1] < 0x90)
      && Utf8From(s, i + 4)
    else false
  }

  predicate ValidUtf8(s: Bytes) {
    Utf8From(s, 0)
  }

  /** A string, as the bytes that encode it. */
  type Str = s: Bytes | ValidUtf8(s) witness []

  function FromUtf8(b: Bytes): Result<Str> {
    if ValidUtf8(b) then Ok(b) else Err(DeserializationError)
  }

  lemma {:induction false} AsciiIsUtf8(s: Bytes, i: nat)
    requires forall k :: 0 <= k < |s| ==> s[k] < 0x80
    requires i <= |s|
    ensures Utf8From(s, i)
    decreases |s| - i
  {
    if i < |s| {
      AsciiIsUtf8(s, i + 1);
    }
  }

  /** The bytes of a text in ASCII. */
  function Ascii(text: string): Bytes {
    seq(|text|, i requires 0 <= i < |text| => text[i] as int % 128)
  }

  // ------------------------------------------------------------ sequences

  /** `s` is `p` followed by what is left of `s` after `p`. */
  lemma SplitPrefix<T>(s: seq<T>, p: seq<T>, rest: seq<T>)
    requires s == p + rest
    ensures s[..|p|] == p && s[|p|..] == rest
  {
  }

  lemma InitLast<T>(s: seq<T>)
    requires s != []
    ensures s == s[..|s| - 1] + [s[|s| - 1]]
  {
  }

  lemma Assoc<T>(a: seq<T>, b: seq<T>, c: seq<T>)
    ensures a + b + c == a + (b + c)
  {
  }

  ghost function Without<T>(s: seq<T>, i: nat): seq<T>
    requires i < |s|
  {
    s[..i] + s[i + 1..]
  }

  lemma BagWithout<T>(s: seq<T>, i: nat)
    requires i < |s|
    ensures multiset(Without(s, i)) == multiset(s) - multiset{s[i]}
  {
    assert s == s[..i] + ([s[i]] + s[i + 1..]);
  }

  lemma SameElement<T>(a: seq<T>, b: seq<T>) returns (i: nat)
    requires a != [] && multiset(a) == multiset(b)
    ensures i < |b| && b[i] == a[0]
    ensures multiset(Without(a, 0)) == multiset(Without(b, i))
  {
    assert a[0] in multiset(b);
    i :| 0 <= i < |b| && b[i] == a[0];
    BagWithout(a, 0);
    BagWithout(b, i);
  }
}
