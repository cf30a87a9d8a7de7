/** Bytes and the fixed-width integers of the C program: 8-bit bytes, the
    32-bit `int` of the target platform, 64-bit `size_t`, and the
    little-endian layout an `int` has in memory on a little-endian host. */
module Bytes {

  newtype byte = x: int | 0 <= x < 0x100

  const TWO_32: int := 0x1_0000_0000
  const TWO_64: int := 0x1_0000_0000_0000_0000
  const INT_MAX: int := 0x7FFF_FFFF

  /** A C `int`: 32-bit two's complement. */
  type int32 = x: int | -0x8000_0000 <= x < 0x8000_0000

  /** An unsigned 32-bit value, as stored in a RIFF size field. */
  type u32 = x: int | 0 <= x < 0x1_0000_0000

  /** An unsigned 16-bit value, as stored in the small WAVE format fields. */
  type u16 = x: int | 0 <= x < 0x1_0000

  /** Reads the little-endian unsigned 16-bit value at `b[off..off + 2]`. */
  function LE16At(b: seq<byte>, off: nat): (v: u16)
    requires off + 2 <= |b|
  {
    b[off] as int + 0x100 * b[off + 1] as int
  }

  /** Reads the little-endian unsigned 32-bit value at `b[off..off + 4]`. */
  function LE32At(b: seq<byte>, off: nat): (v: u32)
    requires off + 4 <= |b|
  {
    b[off] as int + 0x100 * b[off + 1] as int + 0x1_0000 * b[off + 2] as int + 0x100_0000 * b[off + 3] as int
  }

  /** Writes a little-endian unsigned 32-bit value: least significant byte first. */
  function EncodeLE32(v: u32): (b: seq<byte>)
    ensures |b| == 4
    ensures LE32At(b, 0) == v
  {
    var q1 := v / 0x100;
    var q2 := q1 / 0x100;
    var q3 := q2 / 0x100;
    assert v == v % 0x100 + 0x100 * q1;
    assert q1 == q1 % 0x100 + 0x100 * q2;
    assert q2 == q2 % 0x100 + 0x100 * q3;
    [(v % 0x100) as byte, (q1 % 0x100) as byte, (q2 % 0x100) as byte, q3 as byte]
  }

  /** Encoding inverts decoding: four bytes are the only encoding of their value. */
  lemma EncodeDecodeLE32(b: seq<byte>)
    requires |b| == 4
    ensures EncodeLE32(LE32At(b, 0)) == b
  {
    var v := LE32At(b, 0);
    var q2 := b[2] as int + 0x100 * b[3] as int;
    var q1 := b[1] as int + 0x100 * q2;
    assert v == b[0] as int + 0x100 * q1;
    assert v % 0x100 == b[0] as int && v / 0x100 == q1;
    assert q1 % 0x100 == b[1] as int && q1 / 0x100 == q2;
    assert q2 % 0x100 == b[2] as int && q2 / 0x100 == b[3] as int;
  }

  /** Two little-endian 16-bit fields with the same value hold the same bytes. */
  lemma LE16Injective(a: seq<byte>, i: nat, b: seq<byte>, j: nat)
    requires i + 2 <= |a| && j + 2 <= |b|
    requires LE16At(a, i) == LE16At(b, j)
    ensures a[i] == b[j] && a[i + 1] == b[j + 1]
  {
    var v := LE16At(a, i);
    assert v % 0x100 == a[i] as int == b[j] as int;
    assert v / 0x100 == a[i + 1] as int == b[j + 1] as int;
  }

  /** Two little-endian 32-bit fields with the same value hold the same bytes. */
  lemma LE32Injective(a: seq<byte>, i: nat, b: seq<byte>, j: nat)
    requires i + 4 <= |a| && j + 4 <= |b|
    requires LE32At(a, i) == LE32At(b, j)
    ensures a[i] == b[j] && a[i + 1] == b[j + 1] && a[i + 2] == b[j + 2] && a[i + 3] == b[j + 3]
  {
    var a4, b4 := a[i..i + 4], b[j..j + 4];
    assert LE32At(a4, 0) == LE32At(a, i) && LE32At(b4, 0) == LE32At(b, j);
    EncodeDecodeLE32(a4);
    EncodeDecodeLE32(b4);
    assert a4 == b4;
    assert a[i] == a4[0] && a[i + 1] == a4[1] && a[i + 2] == a4[2] && a[i + 3] == a4[3];
  }

  /** The bit pattern of an `int`, read as an unsigned 32-bit value. */
  function Bits(v: int32): (u: u32)
    ensures u % TWO_32 == v % TWO_32
    ensures 0 <= v ==> u == v
  {
    if v < 0 then v + TWO_32 else v
  }

  /** A value in `[0, 2^32)` congruent to `v` is `v` reduced modulo 2^32. */
  lemma CongruentResidue(u: int, v: int)
    requires 0 <= u < TWO_32 && (u - v) % TWO_32 == 0
    ensures u == v % TWO_32
  {
    var k := (u - v) / TWO_32;
    assert v == u - TWO_32 * k;
    var j := v / TWO_32;
    assert v == TWO_32 * j + v % TWO_32;
    assert TWO_32 * (j + k) == u - v % TWO_32;
  }

  /** The four bytes `memcpy` copies out of an `int` on a little-endian host. */
  function StoreInt(v: int32): (b: seq<byte>)
    ensures |b| == 4
    ensures LE32At(b, 0) == Bits(v)
  {
    EncodeLE32(Bits(v))
  }

  /** Arithmetic on `size_t` (64-bit `unsigned long`): reduction modulo 2^64. */
  function SizeT(v: int): (r: int)
    ensures 0 <= r < TWO_64
    ensures (r - v) % TWO_64 == 0
  {
    v % TWO_64
  }

  /** Conversion of a `size_t` value to `int`. Values that fit are kept
      (section 6.3.1.3 of C11); the others are implementation-defined, and
      the usual compilers reduce them modulo 2^32 into the `int` range. */
  function IntOfSizeT(v: int): (r: int32)
    requires 0 <= v < TWO_64
    ensures (r - v) % TWO_32 == 0
    ensures v <= INT_MAX ==> r == v
    ensures v < TWO_32 ==> Bits(r) == v
  {
    var m := v % TWO_32;
    if m <= INT_MAX then m else m - TWO_32
  }
}
