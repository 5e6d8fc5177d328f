/**
 * Byte-level packing used by the codec: `struct.pack`/`struct.unpack` with the
 * formats `I` (unsigned 32-bit integer) and `d` (IEEE-754 double), in either
 * byte order.  A double is never interpreted: it is kept as the eight bytes of
 * its IEEE-754 image, so the codec only moves and reorders bytes.
 */
module Bytes {

  type byte = b: int | 0 <= b < 0x100

  /** The values `struct` packs with the format `I`. */
  type uint32 = n: int | 0 <= n < 0x1_0000_0000

  /** A double, as the eight bytes of its IEEE-754 image, least significant first. */
  datatype Float64 = Float64(b0: byte, b1: byte, b2: byte, b3: byte, b4: byte, b5: byte, b6: byte, b7: byte)

  /** The byte order declared by the first byte of an EWKB geometry. */
  datatype ByteOrder = BigEndian | LittleEndian

  /**
   * `struct.unpack(e + 'I', data[pos:pos + 4])`: the four bytes at `pos` as a
   * number, the first one least significant when `e` is little-endian and
   * most significant when it is big-endian.
   */
  function Uint32At(order: ByteOrder, data: seq<byte>, pos: nat): uint32
    requires pos + 4 <= |data|
  {
    if order == LittleEndian then
      data[pos] as int + 0x100 * data[pos + 1] as int + 0x1_0000 * data[pos + 2] as int + 0x100_0000 * data[pos + 3] as int
    else
      data[pos + 3] as int + 0x100 * data[pos + 2] as int + 0x1_0000 * data[pos + 1] as int + 0x100_0000 * data[pos] as int
  }

  /**
   * `struct.unpack(e + 'd', data[pos:pos + 8])`: the eight bytes at `pos`, in
   * the order they have in a little-endian stream and back to front in a
   * big-endian one.
   */
  function DoubleAt(order: ByteOrder, data: seq<byte>, pos: nat): Float64
    requires pos + 8 <= |data|
  {
    if order == LittleEndian then
      Float64(data[pos], data[pos + 1], data[pos + 2], data[pos + 3], data[pos + 4], data[pos + 5], data[pos + 6], data[pos + 7])
    else
      Float64(data[pos + 7], data[pos + 6], data[pos + 5], data[pos + 4], data[pos + 3], data[pos + 2], data[pos + 1], data[pos])
  }

  /** `struct.pack('<I', n)`: the bytes that read back as `n`. */
  function PackUint32LE(n: uint32): (r: seq<byte>)
    ensures |r| == 4 && Uint32At(LittleEndian, r, 0) == n
  {
    var q1 := n / 0x100;
    var q2 := q1 / 0x100;
    [n % 0x100, q1 % 0x100, q2 % 0x100, q2 / 0x100]
  }

  /** A word keeps its value wherever it is placed in a stream, and whatever follows it. */
  lemma Uint32AtSplice(order: ByteOrder, before: seq<byte>, b: seq<byte>, after: seq<byte>)
    requires |b| == 4
    ensures Uint32At(order, before + b + after, |before|) == Uint32At(order, b, 0)
  {
    var d := before + b + after;
    assert d[|before|] == b[0] && d[|before| + 1] == b[1] && d[|before| + 2] == b[2] && d[|before| + 3] == b[3];
  }

  /** Every little-endian word is the image of the value it encodes. */
  lemma PackUnpackUint32LE(b: seq<byte>)
    requires |b| == 4
    ensures PackUint32LE(Uint32At(LittleEndian, b, 0)) == b
  {
    var q1 := b[1] as int + 0x100 * b[2] as int + 0x1_0000 * b[3] as int;
    var q2 := b[2] as int + 0x100 * b[3] as int;
    assert Uint32At(LittleEndian, b, 0) / 0x100 == q1 && Uint32At(LittleEndian, b, 0) % 0x100 == b[0];
    assert q1 / 0x100 == q2 && q1 % 0x100 == b[1];
    assert q2 / 0x100 == b[3] && q2 % 0x100 == b[2];
  }

  /** `struct.pack('<d', x)`: the eight bytes, least significant first. */
  function PackDoubleLE(x: Float64): (r: seq<byte>)
    ensures |r| == 8 && DoubleAt(LittleEndian, r, 0) == x
  {
    [x.b0, x.b1, x.b2, x.b3, x.b4, x.b5, x.b6, x.b7]
  }
}
