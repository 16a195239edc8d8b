/** Byte-level vocabulary shared by the codec, the data files and the engine:
    Go's `byte` and `uint32`, little-endian 32-bit words, prefixes, and the
    decimal conversions `strconv.Itoa` / `strconv.Atoi`. */
module Bytes {
  import opened Wrappers

  type byte = b: int | 0 <= b < 256
  type uint32 = x: int | 0 <= x < 0x1_0000_0000

  const Uint32Modulus: int := 0x1_0000_0000

  /** Go's `uint32(x)` conversion of a (64-bit) integer: two's-complement truncation. */
  function ToUint32(x: int): (r: uint32)
    ensures 0 <= x < Uint32Modulus ==> r == x
    ensures (x - r) % Uint32Modulus == 0
  {
    x % Uint32Modulus
  }

  /** `binary.LittleEndian.PutUint32`: least significant byte first. */
  function PutUint32LE(x: uint32): (r: seq<byte>)
    ensures |r| == 4
  {
    var x1 := x / 256;
    var x2 := x1 / 256;
    [x % 256, x1 % 256, x2 % 256, x2 / 256]
  }

  /** `binary.LittleEndian.Uint32`: reads the first four bytes of `b`. */
  function Uint32LE(b: seq<byte>): uint32
    requires |b| >= 4
  {
    b[0] as int + 256 * (b[1] as int + 256 * (b[2] as int + 256 * b[3] as int))
  }

  /** `binary.LittleEndian.PutUint32(b, x)`: writes the word into the first
      four bytes of `b` and leaves the rest alone. */
  method PutUint32(b: array<byte>, x: uint32)
    requires b.Length >= 4
    modifies b
    ensures b[..4] == PutUint32LE(x)
    ensures b[4..] == old(b[4..])
  {
    var le := PutUint32LE(x);
    b[0] := le[0];
    b[1] := le[1];
    b[2] := le[2];
    b[3] := le[3];
  }

  /** Reading back a little-endian word gives the number that was written. */
  lemma Uint32LERoundTrip(x: uint32, b: seq<byte>)
    requires |b| >= 4 && b[..4] == PutUint32LE(x)
    ensures Uint32LE(b) == x
  {
    var x1 := x / 256;
    var x2 := x1 / 256;
    assert b[0] == x % 256 && b[1] == x1 % 256 && b[2] == x2 % 256 && b[3] == x2 / 256 by {
      assert b[..4][0] == b[0] && b[..4][1] == b[1] && b[..4][2] == b[2] && b[..4][3] == b[3];
    }
  }

  /** `bytes.HasPrefix`: the first |p| bytes of `s` are `p`. */
  predicate HasPrefix(s: seq<byte>, p: seq<byte>)
  {
    |p| <= |s| && s[..|p|] == p
  }

  predicate IsDigit(c: char)
  {
    '0' <= c <= '9'
  }

  predicate AllDigits(s: string)
  {
    forall i :: 0 <= i < |s| ==> IsDigit(s[i])
  }

  /** The value of a string of decimal digits, most significant digit first. */
  function DigitsValue(s: string): nat
    requires AllDigits(s)
  {
    if |s| == 0 then 0
    else DigitsValue(s[..|s| - 1]) * 10 + (s[|s| - 1] as int - '0' as int)
  }

  /** `strconv.Atoi`: an optional sign followed by at least one decimal digit,
      whose value fits a 64-bit `int`; anything else is an error (None). */
  function Atoi(s: string): (r: Option<int>)
    ensures r.Some? ==> -0x8000_0000_0000_0000 <= r.value < 0x8000_0000_0000_0000
    ensures r.Some? ==> |s| > 0
  {
    if |s| == 0 then None
    else
      var signed := s[0] == '+' || s[0] == '-';
      var digits := if signed then s[1..] else s;
      if |digits| == 0 || !AllDigits(digits) then None
      else
        var v := if s[0] == '-' then -(DigitsValue(digits) as int) else DigitsValue(digits) as int;
        if -0x8000_0000_0000_0000 <= v < 0x8000_0000_0000_0000 then Some(v) else None
  }

  /** `strconv.Itoa` for non-negative numbers: decimal digits, no leading zero. */
  function Itoa(n: nat): (r: string)
    ensures 0 < |r| && AllDigits(r)
    ensures |r| > 1 ==> r[0] != '0'
  {
    if n < 10 then ['0' + n as char]
    else Itoa(n / 10) + ['0' + (n % 10) as char]
  }

  lemma {:induction false} DigitsValueItoa(n: nat)
    ensures DigitsValue(Itoa(n)) == n
  {
    if n >= 10 {
      DigitsValueItoa(n / 10);
      var s := Itoa(n);
      assert s[..|s| - 1] == Itoa(n / 10);
    }
  }

  /** Decimal text written by Itoa parses back to the same number. */
  lemma AtoiItoa(n: nat)
    requires n < 0x8000_0000_0000_0000
    ensures Atoi(Itoa(n)) == Some(n)
  {
    DigitsValueItoa(n);
  }

  /** The decimal text of `n` has at most `n / 2 + 1` digits. */
  lemma {:induction false} ItoaLength(n: nat)
    ensures |Itoa(n)| <= n / 2 + 1
  {
    if n >= 10 {
      ItoaLength(n / 10);
    }
  }

  predicate IsAscii(s: string)
  {
    forall i :: 0 <= i < |s| ==> s[i] as int < 128
  }

  /** `[]byte(s)` for an ASCII string: the byte code of each character. */
  function AsciiBytes(s: string): (r: seq<byte>)
    requires IsAscii(s)
    ensures |r| == |s|
    ensures forall i :: 0 <= i < |s| ==> r[i] == s[i] as int
  {
    seq(|s|, i requires 0 <= i < |s| => s[i] as int)
  }

  /** `string(b)` for bytes below 128: the character of each byte code. */
  function AsciiString(b: seq<byte>): (s: string)
    ensures |s| == |b|
    ensures forall i :: 0 <= i < |b| ==> s[i] as int == b[i] as int
  {
    seq(|b|, i requires 0 <= i < |b| => b[i] as char)
  }

  /** Converting an ASCII string to bytes and back gives the string. */
  lemma AsciiRoundTrip(s: string)
    requires IsAscii(s)
    ensures AsciiString(AsciiBytes(s)) == s
  {
  }
}
