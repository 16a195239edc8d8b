/** CRC-32 with the IEEE 802.3 polynomial (clause 3.2.9 of IEEE 802.3), in
    the reflected form Go's `hash/crc32` computes: `ChecksumIEEE` and the
    chaining `Update`. The register is a 32-bit unsigned number and the
    definition is the bit-at-a-time one; the byte table Go uses is an
    implementation of the same function. */
module Crc32 {
  import opened Bytes

  /** The reversed IEEE polynomial. */
  const IEEE: uint32 := 0xEDB8_8320

  /** The all-ones register, which `^` in Go xors with. */
  const AllOnes: uint32 := 0xFFFF_FFFF

  function Pow2(n: nat): (r: nat)
    ensures r > 0
  {
    if n == 0 then 1 else 2 * Pow2(n - 1)
  }

  /** The exclusive or of the low `n` bits of `a` and `b`, least significant
      bit first. */
  function XorBits(a: nat, b: nat, n: nat): (r: nat)
    ensures r < Pow2(n)
  {
    if n == 0 then 0
    else (if a % 2 != b % 2 then 1 else 0) + 2 * XorBits(a / 2, b / 2, n - 1)
  }

  lemma {:induction false} Pow2Add(m: nat, n: nat)
    ensures Pow2(m + n) == Pow2(m) * Pow2(n)
    decreases m
  {
    if m > 0 {
      Pow2Add(m - 1, n);
    }
  }

  lemma Pow2Of32()
    ensures Pow2(32) == 0x1_0000_0000
  {
    assert Pow2(8) == 256;
    Pow2Add(8, 8);
    Pow2Add(16, 16);
  }

  /** The exclusive or of two 32-bit words. */
  function Xor32(a: uint32, b: uint32): (r: uint32)
  {
    Pow2Of32();
    XorBits(a, b, 32)
  }

  /** One step of the reflected shift register with the next input bit:
      shift right, and fold the polynomial in when the bit falling out differs
      from the input bit. */
  function ShiftIn(c: uint32, bit: bool): uint32
  {
    if (c % 2 == 1) != bit then Xor32(c / 2, IEEE) else c / 2
  }

  /** The register `c` after the `pending` low bits of `cur` (what is left of
      the byte being fed, least significant bit first) and then the bytes of
      `p` have been shifted in. Feeding a byte bit by bit this way is the same
      as xoring it into the low end of the register and shifting eight times. */
  function Raw(c: uint32, p: seq<byte>, cur: nat, pending: nat): uint32
    decreases |p|, pending
  {
    if pending > 0 then Raw(ShiftIn(c, cur % 2 == 1), p, cur / 2, pending - 1)
    else if |p| == 0 then c
    else Raw(c, p[1..], p[0], 8)
  }

  /** `crc32.Update(crc, crc32.IEEETable, p)`: the register starts and ends
      inverted (`^crc` in Go). */
  function Update(crc: uint32, p: seq<byte>): uint32
  {
    AllOnes - Raw(AllOnes - crc, p, 0, 0)
  }

  /** `crc32.ChecksumIEEE(p)`. */
  function ChecksumIEEE(p: seq<byte>): uint32
  {
    Update(0, p)
  }

  /** Shifting in `a` and then `b` is shifting in `a + b`, from any point
      inside the first byte. */
  lemma {:induction false} RawAppend(c: uint32, a: seq<byte>, b: seq<byte>, cur: nat, pending: nat)
    ensures Raw(c, a + b, cur, pending) == Raw(Raw(c, a, cur, pending), b, 0, 0)
    decreases |a|, pending
  {
    if pending > 0 {
      RawAppend(ShiftIn(c, cur % 2 == 1), a, b, cur / 2, pending - 1);
    } else if |a| == 0 {
      assert a + b == b;
    } else {
      assert (a + b)[1..] == a[1..] + b;
      RawAppend(c, a[1..], b, a[0], 8);
    }
  }

  /** Chaining: continuing a checksum with more data is the checksum of the
      concatenation. */
  lemma UpdateAppend(crc: uint32, a: seq<byte>, b: seq<byte>)
    ensures Update(Update(crc, a), b) == Update(crc, a + b)
  {
    RawAppend(AllOnes - crc, a, b, 0, 0);
  }

  lemma ChecksumAppend(a: seq<byte>, b: seq<byte>)
    ensures Update(ChecksumIEEE(a), b) == ChecksumIEEE(a + b)
  {
    UpdateAppend(0, a, b);
  }
}
