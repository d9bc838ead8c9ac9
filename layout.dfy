/**
 * The packed buffer of a skin: one allocation carved by a moving cursor into
 * four views, usedBones, the 16-byte aligned inverse matrices, the per-vertex
 * bone indices and the per-vertex weights, in that order.
 */
module Layout {

  /** A view into the skin's buffer: a null pointer, or a byte offset from the buffer's start. */
  datatype View = Nil | At(offset: nat)

  /** What the allocator produces: the buffer size and the four views. */
  datatype Carving = Carving(size: nat, usedBones: View, inverseMatrices: View, indices: View, weights: View)

  function Offset(v: View): nat {
    if v.At? then v.offset else 0
  }

  /** `(addr + 0xF) & ~0xF`: the first multiple of 16 at or above `addr`. */
  function AlignUp16(addr: nat): (r: nat)
    ensures r % 16 == 0 && addr <= r < addr + 16
  {
    (addr + 15) - (addr + 15) % 16
  }

  /** The `len` bytes of view `v` lie inside a buffer of `size` bytes. */
  predicate Fits(v: View, len: nat, size: nat) {
    v.At? ==> v.offset + len <= size
  }

  /** The `n` bytes of view `v` and the `m` bytes of view `w` do not overlap. */
  predicate Disjoint(v: View, n: nat, w: View, m: nat) {
    v.Nil? || w.Nil? || v.offset + n <= w.offset || w.offset + m <= v.offset
  }

  /** Number of bytes `Skin::init` allocates. */
  function AllocSize(numBones: nat, numUsedBones: nat, numVertices: nat): nat {
    numUsedBones + numBones * 64 + numVertices * (16 + 4) + 0xF
  }

  /**
   * The layout `Skin::init` produces for a buffer whose first byte sits at
   * address `base`: usedBones at offset 0, the matrices at the next 16-byte
   * boundary, the indices right after the matrices, the weights right after
   * the indices; a view is nil exactly when its count is zero.
   */
  function Carve(numBones: nat, numUsedBones: nat, numVertices: nat, base: nat): (c: Carving)
    ensures c.size == numUsedBones + 64 * numBones + 20 * numVertices + 15
    ensures c.usedBones == (if numUsedBones == 0 then Nil else At(0))
    ensures c.inverseMatrices.Nil? <==> numBones == 0
    ensures c.indices.Nil? <==> numVertices == 0
    ensures c.weights.Nil? <==> numVertices == 0
    // the matrices start on a 16-byte boundary, at most 15 bytes of padding after usedBones
    ensures c.inverseMatrices.At? ==>
      (base + c.inverseMatrices.offset) % 16 == 0 &&
      numUsedBones <= c.inverseMatrices.offset <= numUsedBones + 15
    // the indices follow the matrices, the weights follow the indices
    ensures c.indices.At? ==>
      numUsedBones + 64 * numBones <= c.indices.offset <= numUsedBones + 15 + 64 * numBones &&
      (c.inverseMatrices.At? ==> c.indices.offset == c.inverseMatrices.offset + 64 * numBones)
    ensures c.weights.At? ==> c.indices.At? && c.weights.offset == c.indices.offset + 4 * numVertices
    // every view ends inside the allocation
    ensures Fits(c.usedBones, numUsedBones, c.size)
    ensures Fits(c.inverseMatrices, 64 * numBones, c.size)
    ensures Fits(c.indices, 4 * numVertices, c.size)
    ensures Fits(c.weights, 16 * numVertices, c.size)
    // no two views overlap
    ensures Disjoint(c.usedBones, numUsedBones, c.inverseMatrices, 64 * numBones)
    ensures Disjoint(c.usedBones, numUsedBones, c.indices, 4 * numVertices)
    ensures Disjoint(c.usedBones, numUsedBones, c.weights, 16 * numVertices)
    ensures Disjoint(c.inverseMatrices, 64 * numBones, c.indices, 4 * numVertices)
    ensures Disjoint(c.inverseMatrices, 64 * numBones, c.weights, 16 * numVertices)
    ensures Disjoint(c.indices, 4 * numVertices, c.weights, 16 * numVertices)
  {
    var size := AllocSize(numBones, numUsedBones, numVertices);
    var matrices := AlignUp16(base + numUsedBones) - base;
    var indices := matrices + 64 * numBones;
    var weights := indices + 4 * numVertices;
    Carving(size,
            if numUsedBones == 0 then Nil else At(0),
            if numBones == 0 then Nil else At(matrices),
            if numVertices == 0 then Nil else At(indices),
            if numVertices == 0 then Nil else At(weights))
  }

  /**
   * What the code that uses a carving relies on: a view is nil exactly when
   * its count is zero, usedBones sits at the start, every other view lies
   * past the `numUsedBones` bytes of usedBones, the matrices end before the
   * indices, the weights follow the indices, and all of it ends inside the
   * allocation.
   */
  predicate Sound(c: Carving, numBones: nat, numUsedBones: nat, numVertices: nat) {
    c.usedBones == (if numUsedBones == 0 then Nil else At(0)) &&
    numUsedBones <= c.size &&
    (c.inverseMatrices.Nil? <==> numBones == 0) &&
    (c.indices.Nil? <==> numVertices == 0) &&
    (c.weights.Nil? <==> numVertices == 0) &&
    (numBones != 0 ==>
      numUsedBones <= c.inverseMatrices.offset && c.inverseMatrices.offset + 64 * numBones <= c.size) &&
    (numVertices != 0 ==>
      numUsedBones <= c.indices.offset &&
      (numBones != 0 ==> c.inverseMatrices.offset + 64 * numBones <= c.indices.offset) &&
      c.weights.offset == c.indices.offset + 4 * numVertices &&
      c.weights.offset + 16 * numVertices <= c.size)
  }

  /** Every carving `Skin::init` produces is sound. */
  lemma CarveIsSound(numBones: nat, numUsedBones: nat, numVertices: nat, base: nat)
    ensures Sound(Carve(numBones, numUsedBones, numVertices, base), numBones, numUsedBones, numVertices)
  {
  }
}
