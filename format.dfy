/**
 * The generic skin chunk: the value a skin holds and the byte layout that
 * `writeSkin` emits and `readSkin` parses, in the old (before version
 * 0x34000) and the new format, with the size `getSizeSkin` reports.
 */
module Format {
  import opened Bytes
  import opened Derivation

  /** The generic content of a skin, as plain values. */
  datatype SkinRecord = SkinRecord(
    numBones: nat,
    numUsedBones: nat,
    numWeights: nat,
    usedBones: seq<byte>,        // numUsedBones bone ids
    inverseMatrices: seq<byte>,  // numBones matrices, 64 opaque bytes each
    indices: seq<byte>,          // 4 bone ids per vertex
    weights: seq<byte>)          // 4 floats, 16 bytes, per vertex

  /** The arrays of `rec` have the lengths its counts and the vertex count give them. */
  predicate WellFormed(rec: SkinRecord, numVertices: nat) {
    |rec.usedBones| == rec.numUsedBones &&
    |rec.inverseMatrices| == 64 * rec.numBones &&
    |rec.indices| == 4 * numVertices &&
    |rec.weights| == 16 * numVertices
  }

  /** `writeSkin` picks the old layout for every library version below 0x34000. */
  predicate IsOldFormat(version: int) {
    version < 0x34000
  }

  /** `writeU32(0xdeaddead)`: the filler the old format puts before each matrix, least significant byte first. */
  const Filler: seq<byte> := [0xad, 0xde, 0xad, 0xde]

  /** The 12 reserved zero bytes that end a new-format chunk. */
  const Reserved: seq<byte> := [0, 0, 0, 0, 0, 0, 0, 0, 0, 0, 0, 0]

  /** The first `n` matrices of `m`, each preceded by the filler. */
  function Framed(m: seq<byte>, n: nat): (r: seq<byte>)
    requires 64 * n <= |m|
    ensures |r| == 68 * n
  {
    if n == 0 then [] else Framed(m, n - 1) + Filler + m[64 * (n - 1) .. 64 * n]
  }

  /** The old-format reader's view of `n` matrices: skip 4 bytes, take 64, for each. */
  function Unframe(b: seq<byte>, n: nat): (r: seq<byte>)
    requires 68 * n <= |b|
    ensures |r| == 64 * n
  {
    if n == 0 then [] else Unframe(b, n - 1) + b[68 * (n - 1) + 4 .. 68 * n]
  }

  /** The 4-byte header; each count is stored in one byte, so it is taken modulo 256. */
  function Header(rec: SkinRecord, oldFormat: bool): seq<byte> {
    [(rec.numBones % 256) as byte,
     if oldFormat then 0 else (rec.numUsedBones % 256) as byte,
     if oldFormat then 0 else (rec.numWeights % 256) as byte,
     0]
  }

  /** The bytes the generic branch of `writeSkin` emits for `rec`. */
  function Encode(rec: SkinRecord, version: int): (r: seq<byte>)
    requires |rec.usedBones| == rec.numUsedBones && |rec.inverseMatrices| == 64 * rec.numBones
  {
    var oldFormat := IsOldFormat(version);
    Header(rec, oldFormat) +
    (if oldFormat then [] else rec.usedBones) +
    rec.indices +
    rec.weights +
    (if oldFormat then Framed(rec.inverseMatrices, rec.numBones) else rec.inverseMatrices) +
    (if oldFormat then [] else Reserved)
  }

  /** The generic size formula of `getSizeSkin`. */
  function GenericSize(numVertices: nat, numBones: nat, numUsedBones: nat, version: int): int {
    var size := 4 + numVertices * (16 + 4) + numBones * 64;
    if IsOldFormat(version) then size + numBones * 4 else size + numUsedBones + 12
  }

  /** The size formula agrees byte for byte with what the writer emits. */
  lemma EncodeHasGenericSize(rec: SkinRecord, numVertices: nat, version: int)
    requires WellFormed(rec, numVertices)
    ensures |Encode(rec, version)| == GenericSize(numVertices, rec.numBones, rec.numUsedBones, version)
  {
  }

  // ---------------------------------------------------------------- reading

  datatype Decoded = Decoded(rec: SkinRecord, consumed: nat) | Truncated

  /** Bytes the reader consumes once it has seen the header. */
  function ChunkLength(numBones: nat, storedUsedBones: nat, numVertices: nat, oldFormat: bool): nat {
    4 + storedUsedBones + 20 * numVertices + (if oldFormat then 68 * numBones else 64 * numBones + 12)
  }

  /**
   * What the generic branch of `readSkin` makes of the bytes `b` for a
   * geometry of `numVertices` vertices: a zero second header byte selects the
   * old format, whose weight count and used-bone list are then derived from
   * the vertex data. Too few bytes for any read or skip is `Truncated`.
   */
  function Decode(b: seq<byte>, numVertices: nat): (d: Decoded)
    ensures d.Decoded? ==> d.consumed <= |b| && WellFormed(d.rec, numVertices)
    ensures d.Decoded? ==> 4 <= |b| && (b[1] == 0 ==> d.rec.numUsedBones <= 256)
    // exactly the chunks that hold every byte the reader reads or skips decode, and all of those are consumed
    ensures 4 <= |b| ==>
              var oldFormat := b[1] == 0;
              var need := ChunkLength(b[0] as nat, if oldFormat then 0 else b[1] as nat, numVertices, oldFormat);
              (d.Decoded? <==> need <= |b|) && (d.Decoded? ==> d.consumed == need)
  {
    if |b| < 4 then Truncated
    else if b[1] == 0 then DecodeOld(b, numVertices)
    else DecodeNew(b, numVertices)
  }

  /** The new format: header, usedBones, indices, weights, matrices, 12 reserved bytes. */
  function DecodeNew(b: seq<byte>, numVertices: nat): (d: Decoded)
    requires 4 <= |b| && b[1] != 0
    ensures d.Decoded? ==> d.consumed <= |b| && WellFormed(d.rec, numVertices)
  {
    var numBones, numUsedBones := b[0] as nat, b[1] as nat;
    var need := ChunkLength(numBones, numUsedBones, numVertices, false);
    if |b| < need then Truncated
    else
      var p := 4 + numUsedBones;
      var q := p + 20 * numVertices;
      Decoded(SkinRecord(numBones, numUsedBones, b[2] as nat, b[4 .. p], b[q .. q + 64 * numBones],
                         b[p .. p + 4 * numVertices], b[p + 4 * numVertices .. q]),
              need)
  }

  /**
   * The old format: header, indices, weights, then filler and matrix per
   * bone; the weight count and the used-bone list are derived.
   */
  function DecodeOld(b: seq<byte>, numVertices: nat): (d: Decoded)
    requires 4 <= |b| && b[1] == 0
    ensures d.Decoded? ==> d.consumed <= |b| && WellFormed(d.rec, numVertices) && d.rec.numUsedBones <= 256
  {
    var numBones := b[0] as nat;
    var need := ChunkLength(numBones, 0, numVertices, true);
    if |b| < need then Truncated
    else
      var q := 4 + 20 * numVertices;
      var indices, weights := b[4 .. 4 + 4 * numVertices], b[4 + 4 * numVertices .. q];
      var numWeights := NumWeights(weights, numVertices);
      var used := UsedBones(indices, weights, numVertices, numWeights);
      Decoded(SkinRecord(numBones, |used|, numWeights, used, Unframe(b[q..], numBones), indices, weights), need)
  }

  /**
   * An old-format chunk whose vertex data name no more distinct bones than
   * its bone count: the reader sizes the used-bone list by the bone count
   * before it derives the list.
   */
  predicate UsedBonesFit(b: seq<byte>, numVertices: nat) {
    var d := Decode(b, numVertices);
    d.Decoded? && b[1] == 0 ==> d.rec.numUsedBones <= b[0] as nat
  }

  /** A new-format chunk that is all there decodes to the record holding its fields. */
  lemma NewFormatDecoded(b: seq<byte>, numVertices: nat, rec: SkinRecord)
    requires 4 <= |b| && b[1] != 0 && ChunkLength(b[0] as nat, b[1] as nat, numVertices, false) <= |b|
    requires var p := 4 + b[1] as nat;
             var q := p + 20 * numVertices;
             rec.numBones == b[0] as nat && rec.numUsedBones == b[1] as nat && rec.numWeights == b[2] as nat &&
             rec.usedBones == b[4 .. p] && rec.indices == b[p .. p + 4 * numVertices] &&
             rec.weights == b[p + 4 * numVertices .. q] && rec.inverseMatrices == b[q .. q + 64 * rec.numBones]
    ensures Decode(b, numVertices) == Decoded(rec, ChunkLength(rec.numBones, rec.numUsedBones, numVertices, false))
  {
  }

  /**
   * An old-format chunk that is all there decodes to any record holding its
   * bone count, matrices and vertex arrays, with the derived weight count
   * and used-bone list.
   */
  lemma OldFormatDecoded(b: seq<byte>, numVertices: nat, rec: SkinRecord)
    requires 4 <= |b| && b[1] == 0 && ChunkLength(b[0] as nat, 0, numVertices, true) <= |b|
    requires var q := 4 + 20 * numVertices;
             WellFormed(rec, numVertices) && rec.numBones == b[0] as nat &&
             rec.indices == b[4 .. 4 + 4 * numVertices] && rec.weights == b[4 + 4 * numVertices .. q] &&
             rec.inverseMatrices == Unframe(b[q..], rec.numBones)
    ensures Decode(b, numVertices) == Decoded(Derived(rec, numVertices), ChunkLength(rec.numBones, 0, numVertices, true))
  {
  }

  /** `rec` with the weight count and the used-bone list an old-format reader derives. */
  function Derived(rec: SkinRecord, numVertices: nat): (r: SkinRecord)
    requires WellFormed(rec, numVertices)
    ensures WellFormed(r, numVertices)
  {
    var numWeights := NumWeights(rec.weights, numVertices);
    var used := UsedBones(rec.indices, rec.weights, numVertices, numWeights);
    rec.(numWeights := numWeights, numUsedBones := |used|, usedBones := used)
  }

  // ---------------------------------------------------------------- round trips

  lemma {:induction false} UnframeFramed(m: seq<byte>, n: nat, rest: seq<byte>)
    requires 64 * n <= |m|
    ensures Unframe(Framed(m, n) + rest, n) == m[.. 64 * n]
  {
    if n > 0 {
      var block := m[64 * (n - 1) .. 64 * n];
      var b := Framed(m, n) + rest;
      assert b == Framed(m, n - 1) + (Filler + block + rest);
      UnframeFramed(m, n - 1, Filler + block + rest);
      assert b[68 * (n - 1) + 4 .. 68 * n] == block;
      assert m[.. 64 * n] == m[.. 64 * (n - 1)] + block;
    }
  }

  /**
   * New-format round trip: the reader restores every field the writer stored
   * and consumes exactly the bytes written, provided the counts fit their
   * header bytes and at least one bone is used (a zero count would read back
   * as the old format, see `ZeroUsedBonesReadsAsOldFormat`).
   */
  lemma NewFormatRoundTrip(rec: SkinRecord, numVertices: nat, version: int, rest: seq<byte>)
    requires WellFormed(rec, numVertices) && !IsOldFormat(version)
    requires rec.numBones <= 255 && 1 <= rec.numUsedBones <= 255 && rec.numWeights <= 255
    ensures Decode(Encode(rec, version) + rest, numVertices) == Decoded(rec, |Encode(rec, version)|)
  {
    NewFormatPieces(rec, numVertices, version, rest);
  }

  /** Where the new-format writer puts each field. */
  lemma NewFormatPieces(rec: SkinRecord, numVertices: nat, version: int, rest: seq<byte>)
    requires WellFormed(rec, numVertices) && !IsOldFormat(version)
    requires rec.numBones <= 255 && 1 <= rec.numUsedBones <= 255 && rec.numWeights <= 255
    ensures var b, nv, p := Encode(rec, version) + rest, numVertices, 4 + rec.numUsedBones;
            |Encode(rec, version)| == ChunkLength(rec.numBones, rec.numUsedBones, nv, false) &&
            b[0] == rec.numBones as byte && b[1] == rec.numUsedBones as byte && b[2] == rec.numWeights as byte &&
            b[4 .. p] == rec.usedBones &&
            b[p .. p + 4 * nv] == rec.indices &&
            b[p + 4 * nv .. p + 20 * nv] == rec.weights &&
            b[p + 20 * nv .. p + 20 * nv + 64 * rec.numBones] == rec.inverseMatrices
  {
    var header := [rec.numBones as byte, rec.numUsedBones as byte, rec.numWeights as byte, 0];
    assert Header(rec, false) == header;
    assert Encode(rec, version) + rest ==
           header + rec.usedBones + rec.indices + rec.weights + rec.inverseMatrices + (Reserved + rest);
    ConcatSlices(header, rec.usedBones, rec.indices, rec.weights, rec.inverseMatrices, Reserved + rest);
  }

  /** The five parts of a concatenation are its slices at the running offsets. */
  lemma ConcatSlices(h: seq<byte>, u: seq<byte>, x: seq<byte>, w: seq<byte>, m: seq<byte>, r: seq<byte>)
    ensures var b, p := h + u + x + w + m + r, |h| + |u|;
            b[.. |h|] == h && b[|h| .. p] == u && b[p .. p + |x|] == x &&
            b[p + |x| .. p + |x| + |w|] == w && b[p + |x| + |w| .. p + |x| + |w| + |m|] == m
  {
    var b, p := h + u + x + w + m + r, |h| + |u|;
    assert b == h + (u + (x + (w + (m + r))));
    assert b[|h| ..] == u + (x + (w + (m + r)));
    assert b[p ..] == x + (w + (m + r));
    assert b[p + |x| ..] == w + (m + r);
    assert b[p + |x| + |w| ..] == m + r;
  }

  /**
   * Old-format read: the reader restores the bone count, the matrices and the
   * vertex arrays, consumes exactly the bytes written, and replaces the weight
   * count and the used-bone list by the ones derived from the vertex data.
   */
  lemma OldFormatRoundTrip(rec: SkinRecord, numVertices: nat, version: int, rest: seq<byte>)
    requires WellFormed(rec, numVertices) && IsOldFormat(version) && rec.numBones <= 255
    ensures Decode(Encode(rec, version) + rest, numVertices) == Decoded(Derived(rec, numVertices), |Encode(rec, version)|)
  {
    var nb := rec.numBones;
    OldFormatPieces(rec, numVertices, version, rest);
    UnframeFramed(rec.inverseMatrices, nb, rest);
    assert rec.inverseMatrices[.. 64 * nb] == rec.inverseMatrices;
  }

  /** Where the old-format writer puts each field. */
  lemma OldFormatPieces(rec: SkinRecord, numVertices: nat, version: int, rest: seq<byte>)
    requires WellFormed(rec, numVertices) && IsOldFormat(version) && rec.numBones <= 255
    ensures var b, nv := Encode(rec, version) + rest, numVertices;
            |Encode(rec, version)| == ChunkLength(rec.numBones, 0, nv, true) &&
            b[0] == rec.numBones as byte && b[1] == 0 &&
            b[4 .. 4 + 4 * nv] == rec.indices &&
            b[4 + 4 * nv .. 4 + 20 * nv] == rec.weights &&
            b[4 + 20 * nv ..] == Framed(rec.inverseMatrices, rec.numBones) + rest
  {
    var nv, nb := numVertices, rec.numBones;
    var framed := Framed(rec.inverseMatrices, nb);
    var b := Encode(rec, version) + rest;
    assert b == [nb as byte, 0, 0, 0] + rec.indices + rec.weights + (framed + rest);
  }

  /**
   * A whole chunk as the writer emits it, with nothing after it, reads back
   * in either format, and an old-format one satisfies the reader's
   * used-bone room whenever the derived list fits the bone count.
   */
  lemma EncodedChunkReadsBack(rec: SkinRecord, numVertices: nat, version: int)
    requires WellFormed(rec, numVertices) && rec.numBones <= 255 && rec.numWeights <= 255
    requires !IsOldFormat(version) ==> 1 <= rec.numUsedBones <= 255
    requires IsOldFormat(version) ==> Derived(rec, numVertices).numUsedBones <= rec.numBones
    ensures UsedBonesFit(Encode(rec, version), numVertices)
    ensures Decode(Encode(rec, version), numVertices) ==
            Decoded(if IsOldFormat(version) then Derived(rec, numVertices) else rec, |Encode(rec, version)|)
  {
    var b := Encode(rec, version);
    assert b + [] == b;
    var expected := if IsOldFormat(version) then Derived(rec, numVertices) else rec;
    if IsOldFormat(version) {
      OldFormatRoundTrip(rec, numVertices, version, []);
      OldFormatPieces(rec, numVertices, version, []);
      assert b[0] as nat == rec.numBones;
    } else {
      NewFormatRoundTrip(rec, numVertices, version, []);
      NewFormatPieces(rec, numVertices, version, []);
      assert b[1] != 0;
    }
    FitWhenDecoded(b, numVertices, expected, |b|);
  }

  /** A decoded old-format chunk whose used-bone list fits its bone count meets `UsedBonesFit`. */
  lemma FitWhenDecoded(b: seq<byte>, numVertices: nat, rec: SkinRecord, consumed: nat)
    requires Decode(b, numVertices) == Decoded(rec, consumed)
    requires b[1] == 0 ==> rec.numUsedBones <= b[0] as nat
    ensures UsedBonesFit(b, numVertices)
  {
  }

  /**
   * Why the new-format round trip needs a used bone: a skin with none is
   * written with a zero second header byte, so the reader takes the old
   * branch. That branch expects 68 bytes per bone and no reserved block
   * where the writer put 64 and 12, so unless the skin has exactly 3 bones
   * the chunk does not read back as written.
   */
  lemma ZeroUsedBonesReadsAsOldFormat(rec: SkinRecord, numVertices: nat, version: int, rest: seq<byte>)
    requires WellFormed(rec, numVertices) && !IsOldFormat(version)
    requires rec.numUsedBones == 0 && rec.numBones <= 255
    ensures var b := Encode(rec, version) + rest;
            4 <= |b| && b[1] == 0 && Decode(b, numVertices) == DecodeOld(b, numVertices)
    ensures rec.numBones != 3 ==>
              Decode(Encode(rec, version) + rest, numVertices) != Decoded(rec, |Encode(rec, version)|)
  {
    var b := Encode(rec, version) + rest;
    assert b[..4] == Header(rec, false);
    assert b[0] == b[..4][0] && b[1] == b[..4][1];
    EncodeHasGenericSize(rec, numVertices, version);
  }

  /** The size of a new-format chunk with 10 vertices, 3 bones, 2 of them used. */
  lemma GenericSizeExample()
    ensures GenericSize(10, 3, 2, 0x36003) == 410
  {
  }
}
