/** Bytes, 32-bit words and the weight zero test shared by the skin model. */
module Bytes {

  /** A byte of memory or of a stream. */
  newtype byte = x: int | 0 <= x < 256

  datatype Option<T> = None | Some(value: T)

  /** An unsigned 32-bit word. */
  newtype u32 = x: int | 0 <= x < 0x1_0000_0000

  /** A skinning weight: the bit pattern of an IEEE-754 single-precision float. */
  type Weight = u32

  /**
   * The C comparison `w == 0.0f`: every bit but the sign bit is clear, that is
   * `(w & 0x7fffffff) == 0`, which holds for +0 (0x00000000) and -0
   * (0x80000000) and for no other pattern; every NaN compares unequal.
   */
  predicate IsZero(w: Weight) {
    w == 0 || w == 0x8000_0000
  }

  /** The 32-bit word held in four consecutive bytes of memory, least significant byte first. */
  function Word(b0: byte, b1: byte, b2: byte, b3: byte): Weight {
    (b0 as int + 0x100 * b1 as int + 0x1_0000 * b2 as int + 0x100_0000 * b3 as int) as u32
  }

  /**
   * `IsZero` read off the four bytes of the float, least significant first:
   * the low three bytes are clear and the high byte is 0x00 or 0x80.
   */
  predicate ZeroWeight(b0: byte, b1: byte, b2: byte, b3: byte) {
    b0 == 0 && b1 == 0 && b2 == 0 && (b3 == 0 || b3 == 0x80)
  }

  /** The byte-wise test and the word-wise test agree on every float. */
  lemma ZeroWeightIsZero(b0: byte, b1: byte, b2: byte, b3: byte)
    ensures ZeroWeight(b0, b1, b2, b3) <==> IsZero(Word(b0, b1, b2, b3))
  {
  }

  /**
   * `d` with the bytes from `at` on overwritten by `c`, one byte after
   * another, as a copy into memory leaves it.
   */
  function Spliced(d: seq<byte>, at: nat, c: seq<byte>): (r: seq<byte>)
    requires at + |c| <= |d|
    ensures |r| == |d|
    decreases |c|
  {
    if |c| == 0 then d else Spliced(d[at := c[0]], at + 1, c[1..])
  }

  /** Byte `j` of a copy: from `c` inside the copied range, from `d` outside it. */
  lemma {:induction false} SplicedAt(d: seq<byte>, at: nat, c: seq<byte>, j: nat)
    requires at + |c| <= |d| && j < |d|
    ensures Spliced(d, at, c)[j] == if at <= j < at + |c| then c[j - at] else d[j]
    decreases |c|
  {
    if |c| != 0 {
      SplicedAt(d[at := c[0]], at + 1, c[1..], j);
    }
  }
}
