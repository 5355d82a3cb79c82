/**
 Byte buffers and the fixed-width unsigned integers stored in them.

 A byte is an integer in [0, 256). Widths 2 and 4 are stored in host
 order, which the model fixes as little-endian; width 3 is stored
 big-endian, exactly as the row codec writes it byte by byte.
 */
module Bytes {

  type uint8 = x: int | 0 <= x < 0x100
  type uint32 = x: int | 0 <= x < 0x1_0000_0000
  type Bytes = seq<uint8>

  const TWO_8: int := 0x100
  const TWO_16: int := 0x1_0000
  const TWO_24: int := 0x100_0000
  const TWO_31: int := 0x8000_0000
  const TWO_32: int := 0x1_0000_0000

  /** A 32-bit unsigned value read as a signed 32-bit integer (two's complement). */
  function Int32Of(x: uint32): (r: int)
    ensures -TWO_31 <= r < TWO_31
    ensures (r - x) % TWO_32 == 0
    ensures x < TWO_31 ==> r == x
  {
    if x < TWO_31 then x else x - TWO_32
  }

  /** Reading the signed value back as unsigned gives the original. */
  lemma Int32OfMod(x: uint32)
    ensures Int32Of(x) % TWO_32 == x
  {
  }

  /** The little-endian unsigned integer held by `b`, least significant byte first. */
  function LittleEndian(b: Bytes): (r: nat)
  {
    if |b| == 0 then 0 else b[0] as int + 256 * LittleEndian(b[1..])
  }

  /** Number of distinct values an unsigned integer of `width` bytes can hold. */
  function SlotRange(width: nat): (r: nat)
    requires 1 <= width <= 4
    ensures r > 0
  {
    if width == 1 then TWO_8
    else if width == 2 then TWO_16
    else if width == 3 then TWO_24
    else TWO_32
  }

  /** Byte width actually occupied by an offset slot of address space `space`:
      1, 2 and 3 occupy that many bytes, every other value falls to 4. */
  function SlotWidth(space: nat): (w: nat)
    ensures 1 <= w <= 4
    ensures 1 <= space <= 4 ==> w == space
  {
    if 1 <= space <= 3 then space else 4
  }

  /** Store `v`, truncated to `width` bytes, at `pos`: the effect of the
      codec's narrowing casts followed by the byte stores. */
  function WriteSlot(buf: Bytes, pos: nat, width: nat, v: nat): (r: Bytes)
    requires 1 <= width <= 4
    requires pos + width <= |buf|
    ensures |r| == |buf|
    ensures forall i :: 0 <= i < |buf| && !(pos <= i < pos + width) ==> r[i] == buf[i]
  {
    var q1 := v / 256;
    var q2 := q1 / 256;
    var q3 := q2 / 256;
    if width == 1 then
      buf[pos := v % 256]
    else if width == 2 then
      buf[pos := v % 256][pos + 1 := q1 % 256]
    else if width == 3 then
      buf[pos := q2 % 256][pos + 1 := q1 % 256][pos + 2 := v % 256]
    else
      buf[pos := v % 256][pos + 1 := q1 % 256][pos + 2 := q2 % 256][pos + 3 := q3 % 256]
  }

  /** Load the unsigned integer of `width` bytes stored at `pos`. */
  function ReadSlot(buf: Bytes, pos: nat, width: nat): (r: nat)
    requires 1 <= width <= 4
    requires pos + width <= |buf|
    ensures r < SlotRange(width)
  {
    var b0: int := buf[pos];
    if width == 1 then
      b0
    else if width == 2 then
      b0 + 256 * (buf[pos + 1] as int)
    else if width == 3 then
      (b0 * 256 + buf[pos + 1] as int) * 256 + buf[pos + 2] as int
    else
      b0 + 256 * (buf[pos + 1] as int + 256 * (buf[pos + 2] as int + 256 * (buf[pos + 3] as int)))
  }

  /** The little-endian `uint32_t` at `pos`. */
  function ReadU32(buf: Bytes, pos: nat): (r: nat)
    requires pos + 4 <= |buf|
    ensures r < TWO_32
  {
    ReadSlot(buf, pos, 4)
  }

  /** Splitting off the low byte of a value. */
  lemma LowByte(v: nat)
    ensures v == v % 256 + 256 * (v / 256)
  {
  }

  /** A slot stores its value modulo the width's range and gives it back unchanged. */
  lemma SlotRoundTrip(buf: Bytes, pos: nat, width: nat, v: nat)
    requires 1 <= width <= 4
    requires pos + width <= |buf|
    ensures ReadSlot(WriteSlot(buf, pos, width, v), pos, width) == v % SlotRange(width)
  {
    var q1 := v / 256;
    var q2 := q1 / 256;
    var q3 := q2 / 256;
    var q4 := q3 / 256;
    LowByte(v);
    LowByte(q1);
    LowByte(q2);
    LowByte(q3);
    var b0, b1, b2, b3 := v % 256, q1 % 256, q2 % 256, q3 % 256;
    var r := WriteSlot(buf, pos, width, v);
    if width == 1 {
    } else if width == 2 {
      assert r[pos] == b0 && r[pos + 1] == b1;
      ModUnique(v, b0 + 256 * b1, q2, TWO_16);
    } else if width == 3 {
      assert r[pos] == b2 && r[pos + 1] == b1 && r[pos + 2] == b0;
      ModUnique(v, b0 + 256 * b1 + TWO_16 * b2, q3, TWO_24);
    } else {
      assert r[pos] == b0 && r[pos + 1] == b1 && r[pos + 2] == b2 && r[pos + 3] == b3;
      ModUnique(v, b0 + 256 * b1 + TWO_16 * b2 + TWO_24 * b3, q4, TWO_32);
    }
  }

  /** A value written as `low + m * q` with `0 <= low < m` has remainder `low`. */
  lemma ModUnique(v: nat, low: int, q: int, m: int)
    requires 0 <= low < m
    requires v == low + m * q
    ensures v % m == low
  {
    var d := v / m;
    var e := q - d;
    assert v == m * d + v % m;
    assert m * q == m * d + m * e;
    assert m * e == v % m - low;
    if e >= 1 {
      MulAtLeast(m, e);
    } else if e <= -1 {
      MulAtLeast(m, -e);
    }
  }

  lemma MulAtLeast(m: int, e: int)
    requires m > 0 && e >= 1
    ensures m * e >= m
  {
    assert m * e == m + m * (e - 1);
  }

  /** A slot of width 2 or 4 holds the little-endian value of its bytes. */
  lemma ReadSlotLittleEndian(buf: Bytes, pos: nat, width: nat)
    requires width == 2 || width == 4
    requires pos + width <= |buf|
    ensures ReadSlot(buf, pos, width) == LittleEndian(buf[pos..pos + width])
  {
    var b := buf[pos..pos + width];
    if width == 2 {
      assert LittleEndian(b[1..][1..]) == 0;
      assert LittleEndian(b[1..]) == buf[pos + 1];
    } else {
      var b3 := b[1..][1..][1..];
      assert LittleEndian(b3[1..]) == 0;
      assert LittleEndian(b3) == buf[pos + 3];
      assert LittleEndian(b[1..][1..]) == buf[pos + 2] as int + 256 * buf[pos + 3] as int;
      assert LittleEndian(b[1..]) == buf[pos + 1] as int + 256 * (buf[pos + 2] as int + 256 * buf[pos + 3] as int);
    }
  }

  /** Reading a slot sees only its own bytes: a buffer that agrees on them reads the same value. */
  lemma ReadSlotFrame(a: Bytes, b: Bytes, pos: nat, width: nat)
    requires 1 <= width <= 4
    requires pos + width <= |a| && pos + width <= |b|
    requires forall i :: pos <= i < pos + width ==> a[i] == b[i]
    ensures ReadSlot(a, pos, width) == ReadSlot(b, pos, width)
  {
  }

  // ---------------------------------------------------------------- bits of a byte

  function Pow2(n: nat): (r: nat)
    ensures r >= 1
  {
    if n == 0 then 1 else 2 * Pow2(n - 1)
  }

  /** The low `n` bits of `b`, least significant first. */
  function BitsOf(b: nat, n: nat): (r: seq<bool>)
    ensures |r| == n
  {
    if n == 0 then [] else [b % 2 == 1] + BitsOf(b / 2, n - 1)
  }

  /** The number whose bits, least significant first, are `bs`. */
  function FromBits(bs: seq<bool>): (r: nat)
    ensures r < Pow2(|bs|)
  {
    if |bs| == 0 then 0 else (if bs[0] then 1 else 0) + 2 * FromBits(bs[1..])
  }

  lemma {:induction false} BitsRoundTrip(bs: seq<bool>)
    ensures BitsOf(FromBits(bs), |bs|) == bs
  {
    if |bs| > 0 {
      BitsRoundTrip(bs[1..]);
      assert FromBits(bs) / 2 == FromBits(bs[1..]);
    }
  }

  /** Bit `k` (0 = least significant) of a byte. */
  predicate BitAt(b: uint8, k: nat)
    requires k < 8
  {
    BitsOf(b, 8)[k]
  }

  /** `b | (1 << k)`: bit `k` set, the other seven bits kept. */
  function SetBit(b: uint8, k: nat): (r: uint8)
    requires k < 8
    ensures forall j :: 0 <= j < 8 ==> (BitAt(r, j) <==> j == k || BitAt(b, j))
  {
    var bs := BitsOf(b, 8)[k := true];
    BitsRoundTrip(bs);
    assert Pow2(8) == 256;
    FromBits(bs)
  }
}
