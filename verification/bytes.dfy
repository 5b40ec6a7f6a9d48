/** The byte-punning unions of the decoder, read on a little-endian
    target: `union { unsigned short s; byte b[2]; }` for the checksum and
    `union { float f; byte b[4]; }` for each sensor value. The float is
    kept as its raw 32-bit word. */
module Bytes {

  /** The `unsigned short` whose bytes in memory are `b0`, `b1`. */
  function LeShort(b0: bv8, b1: bv8): bv16
  {
    (b0 as bv16) | ((b1 as bv16) << 8)
  }

  /** The byte stored first (lower address) of a 16-bit value. */
  function LowOf(c: bv16): bv8 { (c & 0xFF) as bv8 }

  /** The byte stored second (higher address) of a 16-bit value. */
  function HighOf(c: bv16): bv8 { (c >> 8) as bv8 }

  lemma LeShortArithmetic(b0: bv8, b1: bv8)
    ensures LeShort(b0, b1) == (b1 as bv16) * 256 + (b0 as bv16)
  {}

  /** The value of the union is `b1 * 256 + b0`. */
  lemma LeShortValue(b0: bv8, b1: bv8)
    ensures LeShort(b0, b1) as int == b1 as int * 256 + b0 as int
  {
    LeShortArithmetic(b0, b1);
  }

  /** Writing a value's two bytes gives the value back. */
  lemma LeShortOfBytes(c: bv16)
    ensures LeShort(LowOf(c), HighOf(c)) == c
  {}

  /** Reading the two bytes of the union gives back what was written. */
  lemma BytesOfLeShort(b0: bv8, b1: bv8)
    ensures LowOf(LeShort(b0, b1)) == b0 && HighOf(LeShort(b0, b1)) == b1
  {}

  /** Distinct byte pairs make distinct values. */
  lemma LeShortInjective(b0: bv8, b1: bv8, c0: bv8, c1: bv8)
    requires b0 != c0 || b1 != c1
    ensures LeShort(b0, b1) != LeShort(c0, c1)
  {
    BytesOfLeShort(b0, b1);
    BytesOfLeShort(c0, c1);
  }

  function Byte0(w: bv32): bv8 { (w & 0xFF) as bv8 }
  function Byte1(w: bv32): bv8 { ((w >> 8) & 0xFF) as bv8 }
  function Byte2(w: bv32): bv8 { ((w >> 16) & 0xFF) as bv8 }
  function Byte3(w: bv32): bv8 { (w >> 24) as bv8 }

  function Pack(b0: bv8, b1: bv8, b2: bv8, b3: bv8): bv32
  {
    (b0 as bv32) | ((b1 as bv32) << 8) | ((b2 as bv32) << 16) | ((b3 as bv32) << 24)
  }

  /** The four bytes of a 32-bit word as they lie in memory. */
  function LeBytes(w: bv32): (b: seq<bv8>)
    ensures |b| == 4
  {
    [Byte0(w), Byte1(w), Byte2(w), Byte3(w)]
  }

  /** The 32-bit word whose bytes in memory are `b`. */
  function LeWord(b: seq<bv8>): bv32
    requires |b| == 4
  {
    Pack(b[0], b[1], b[2], b[3])
  }

  lemma UnpackPack(b0: bv8, b1: bv8, b2: bv8, b3: bv8)
    ensures var w := Pack(b0, b1, b2, b3);
      Byte0(w) == b0 && Byte1(w) == b1 && Byte2(w) == b2 && Byte3(w) == b3
  {}

  lemma PackUnpack(w: bv32)
    ensures Pack(Byte0(w), Byte1(w), Byte2(w), Byte3(w)) == w
  {}

  /** A word written to memory and read back is the same word. */
  lemma LeWordOfBytes(w: bv32)
    ensures LeWord(LeBytes(w)) == w
  {
    PackUnpack(w);
  }

  /** Four bytes read as a word and written back are the same bytes. */
  lemma LeBytesOfWord(b: seq<bv8>)
    requires |b| == 4
    ensures LeBytes(LeWord(b)) == b
  {
    UnpackPack(b[0], b[1], b[2], b[3]);
  }

  /** A 4-byte union after the first `done` passes of the loop
      `for (i = 0; i < 4; i++) b[i] = src[off + i];`, starting from
      `before`. */
  function Copied(src: seq<bv8>, off: nat, before: seq<bv8>, done: nat): (r: seq<bv8>)
    requires off + 4 <= |src| && |before| == 4 && done <= 4
    ensures |r| == 4
  {
    if done == 0 then before else Copied(src, off, before, done - 1)[done - 1 := src[off + done - 1]]
  }

  /** The first `done` bytes come from `src`, the rest from `before`. */
  lemma {:induction false} CopiedBytes(src: seq<bv8>, off: nat, before: seq<bv8>, done: nat, j: nat)
    requires off + 4 <= |src| && |before| == 4 && done <= 4 && j < 4
    ensures Copied(src, off, before, done)[j] == if j < done then src[off + j] else before[j]
  {
    if done > 0 {
      CopiedBytes(src, off, before, done - 1, j);
    }
  }

  /** After all four passes the union holds `src[off..off + 4]`. */
  lemma CopiedAll(src: seq<bv8>, off: nat, before: seq<bv8>)
    requires off + 4 <= |src| && |before| == 4
    ensures Copied(src, off, before, 4) == src[off..off + 4]
  {
    forall j | 0 <= j < 4
      ensures Copied(src, off, before, 4)[j] == src[off..off + 4][j]
    {
      CopiedBytes(src, off, before, 4, j);
    }
  }
}
