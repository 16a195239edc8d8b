/** The variable-length integer encoding of Go's `encoding/binary`:
    unsigned base-128 groups, least significant first, with the high bit of
    every byte but the last set (`PutUvarint`/`Uvarint`), and the ZigZag
    mapping of signed values onto unsigned ones (`PutVarint`/`Varint`). */
module Binary {
  import opened Bytes

  const MaxVarintLen32: nat := 5
  const MaxVarintLen64: nat := 10

  /** ZigZag: 0, -1, 1, -2, ... become 0, 1, 2, 3, ... */
  function ZigZag(x: int): nat
  {
    if x >= 0 then 2 * x else -2 * x - 1
  }

  function UnZigZag(u: nat): int
  {
    if u % 2 == 0 then u / 2 else -(u / 2) - 1
  }

  /** The bytes `PutUvarint` writes for `x`. */
  function UvarintBytes(x: nat): (r: seq<byte>)
    decreases x
  {
    if x < 128 then [x] else [x % 128 + 128] + UvarintBytes(x / 128)
  }

  /** The bytes `PutVarint` writes for `x`. */
  function VarintBytes(x: int): seq<byte>
  {
    UvarintBytes(ZigZag(x))
  }

  function Pow128(k: nat): nat
  {
    if k == 0 then 1 else 128 * Pow128(k - 1)
  }

  /** Only the last byte of an encoding has its high bit clear. */
  lemma {:induction false} UvarintBytesShape(x: nat)
    ensures 1 <= |UvarintBytes(x)|
    ensures UvarintBytes(x)[|UvarintBytes(x)| - 1] < 128
    ensures forall i :: 0 <= i < |UvarintBytes(x)| - 1 ==> UvarintBytes(x)[i] >= 128
  {
    if x >= 128 {
      UvarintBytesShape(x / 128);
    }
  }

  /** A value below 128^k takes at most k bytes. */
  lemma {:induction false} UvarintLength(x: nat, k: nat)
    requires 1 <= k && x < Pow128(k)
    ensures |UvarintBytes(x)| <= k
  {
    if x >= 128 {
      assert k >= 2;
      UvarintLength(x / 128, k - 1);
    }
  }

  /** A length of at most 2^32 - its ZigZag image is below 2^35 = 128^5 - takes
      at most MaxVarintLen32 bytes. */
  lemma VarintLengthOfSize(x: nat)
    requires x <= Uint32Modulus
    ensures 1 <= |VarintBytes(x)| <= MaxVarintLen32
  {
    assert Pow128(5) == 0x8_0000_0000;
    UvarintLength(ZigZag(x), 5);
    UvarintBytesShape(ZigZag(x));
  }

  /** `binary.Uvarint(buf[start:])` after its loop has read `i` bytes: the
      value and the count of bytes read (counted from `start`); (0, 0) when the
      buffer ends first, (0, -(i+1)) when the value overflows 64 bits. */
  function UvarintFrom(buf: seq<byte>, start: nat, i: nat): (r: (nat, int))
    requires start <= |buf|
    ensures r.1 <= |buf| - start
    ensures r.1 > 0 ==> r.1 > i
    ensures r.1 <= 0 ==> r.0 == 0
    ensures i <= MaxVarintLen64 && r.1 < 0 ==>
      |buf| - start >= MaxVarintLen64 && r.1 >= -(MaxVarintLen64 as int + 1)
    decreases |buf| - start - i
  {
    if start + i >= |buf| then (0, 0)
    else if i == MaxVarintLen64 then (0, -(i + 1))
    else if buf[start + i] < 128 then
      if i == MaxVarintLen64 - 1 && buf[start + i] > 1 then (0, -(i + 1))
      else (buf[start + i] as nat, i + 1)
    else
      var (x, n) := UvarintFrom(buf, start, i + 1);
      if n <= 0 then (0, n) else (buf[start + i] as nat - 128 + 128 * x, n)
  }

  /** `binary.Uvarint`. */
  function Uvarint(buf: seq<byte>): (nat, int)
  {
    UvarintFrom(buf, 0, 0)
  }

  /** `binary.Varint(buf[start:])`. */
  function VarintAt(buf: seq<byte>, start: nat): (int, int)
    requires start <= |buf|
  {
    var (ux, n) := UvarintFrom(buf, start, 0);
    (UnZigZag(ux), n)
  }

  /** Decoding what was encoded gives back the value and its length, whatever
      follows it, as long as the encoding ends before the tenth byte. */
  lemma {:induction false} UvarintFromRoundTrip(x: nat, rest: seq<byte>, buf: seq<byte>, start: nat, i: nat)
    requires start + i <= |buf| && buf[start + i..] == UvarintBytes(x) + rest
    requires i + |UvarintBytes(x)| <= MaxVarintLen64 - 1
    ensures UvarintFrom(buf, start, i) == (x, i + |UvarintBytes(x)|)
    decreases x
  {
    assert buf[start + i] == UvarintBytes(x)[0];
    if x >= 128 {
      assert buf[start + i + 1..] == buf[start + i..][1..];
      assert buf[start + i + 1..] == UvarintBytes(x / 128) + rest;
      UvarintFromRoundTrip(x / 128, rest, buf, start, i + 1);
    }
  }

  /** `Varint` inverts `PutVarint` (for encodings of at most 9 bytes). */
  lemma VarintRoundTrip(x: int, rest: seq<byte>, buf: seq<byte>, start: nat)
    requires start <= |buf| && buf[start..] == VarintBytes(x) + rest
    requires |VarintBytes(x)| <= MaxVarintLen64 - 1
    ensures VarintAt(buf, start) == (x, |VarintBytes(x)|)
  {
    UvarintFromRoundTrip(ZigZag(x), rest, buf, start, 0);
  }

  /** `PutVarint(buf[at:], x)`: writes the encoding of `x` at `at` and returns
      its length; the buffer must have room (Go panics otherwise). */
  method PutVarint(buf: array<byte>, at: nat, x: int) returns (n: nat)
    requires at + |VarintBytes(x)| <= buf.Length
    modifies buf
    ensures n == |VarintBytes(x)|
    ensures buf[at..at + n] == VarintBytes(x)
    ensures forall j :: 0 <= j < buf.Length && !(at <= j < at + n) ==> buf[j] == old(buf[j])
  {
    var ux: nat := ZigZag(x);
    var i: nat := 0;
    while ux >= 128
      invariant at + i + |UvarintBytes(ux)| <= buf.Length
      invariant buf[at..at + i] + UvarintBytes(ux) == VarintBytes(x)
      invariant forall j :: 0 <= j < buf.Length && !(at <= j < at + i) ==> buf[j] == old(buf[j])
      decreases ux
    {
      assert UvarintBytes(ux) == [ux % 128 + 128] + UvarintBytes(ux / 128);
      buf[at + i] := ux % 128 + 128;
      assert buf[at..at + i + 1] == buf[at..at + i] + [ux % 128 + 128];
      ux := ux / 128;
      i := i + 1;
    }
    buf[at + i] := ux;
    assert buf[at..at + i + 1] == buf[at..at + i] + [ux];
    n := i + 1;
  }
}
