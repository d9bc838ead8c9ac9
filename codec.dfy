/**
 * The stream callbacks of the skin plugin: `readSkin`, `writeSkin` and
 * `getSizeSkin`. A geometry with native instance data is handed to the
 * platform's own codec (which this model does not contain); a generic
 * geometry's skin is read into, or written from, the packed buffer of
 * `Skins.Skin` in the chunk layout of `Format`.
 */
module Codec {
  import opened Bytes
  import opened Layout
  import opened Format
  import opened Streams
  import opened Skins

  /** The platform of a geometry's native instance data. */
  datatype Platform = PS2 | WDGL | Xbox | D3D8 | D3D9 | Other(tag: int)

  /** The platforms whose native skins have a codec of their own. */
  predicate HasNativeCodec(p: Platform) {
    p == PS2 || p == WDGL || p == Xbox
  }

  /** The part of a geometry the skin plugin uses. */
  class Geometry {
    var numVertices: nat
    /** The platform of the native instance data; `None` for a generic geometry. */
    var instData: Option<Platform>
    /** The plugin slot: the attached skin, null when there is none. */
    var skin: Skin?

    constructor (numVertices: nat, instData: Option<Platform>)
      ensures this.numVertices == numVertices && this.instData == instData && skin == null
    {
      this.numVertices := numVertices;
      this.instData := instData;
      skin := null;
    }
  }

  /** How a stream callback ended. */
  datatype Status = Done | Delegated(platform: Platform) | Unsupported | ShortRead

  // ---------------------------------------------------------------- copies into the buffer

  /** A slice of a suffix is the slice at the shifted offsets. */
  lemma SuffixSlice(buffer: seq<byte>, s: nat, x: nat, y: nat)
    requires s + y <= |buffer| && x <= y
    ensures buffer[s..][x .. y] == buffer[s + x .. s + y]
  {
  }

  // ---------------------------------------------------------------- readSkin

  /** The matrix bytes of `n` bones at the start of `b`: with a filler before each in the old format. */
  function Matrices(b: seq<byte>, n: nat, oldFormat: bool): (r: seq<byte>)
    requires (if oldFormat then 68 else 64) * n <= |b|
    ensures |r| == 64 * n
  {
    if oldFormat then Unframe(b, n) else b[.. 64 * n]
  }

  /**
   * `if (view) stream->read(view, n)`: a read into the buffer behind view
   * `v`, the stream standing at byte `p` of the chunk `b` that starts at
   * absolute offset `s`. A nil view holds nothing and reads nothing.
   */
  method ReadView(stream: Stream, data: array<byte>, v: View, n: nat,
                  ghost s: nat, ghost b: seq<byte>, ghost p: nat, ghost r: nat)
    returns (ok: bool, ghost bytes: seq<byte>)
    requires stream.Valid() && stream.position == s + p && b == stream.buffer[s..] && r == p + n
    requires Fits(v, n, data.Length) && (v.Nil? ==> n == 0)
    modifies stream`position, data
    ensures stream.Valid()
    ensures ok <==> r <= |b|
    ensures ok ==> stream.position == s + r && bytes == b[p .. r] &&
                   data[..] == Spliced(old(data[..]), Offset(v), bytes)
  {
    ok := true;
    if v.At? {
      ok := stream.Read(data, v.offset, n);
    }
    bytes := [];
    if ok {
      bytes := b[p .. r];
      SuffixSlice(stream.buffer, s, p, r);
    }
  }

  /**
   * `if (skin->indices) stream->read(skin->indices, 4 * numVertices)`, then
   * the same for the weights, 16 bytes per vertex: the vertex arrays, the
   * stream standing at `b[p]`.
   */
  method ReadVertices(stream: Stream, data: array<byte>, indices: View, weights: View, nv: nat,
                      ghost s: nat, ghost b: seq<byte>, ghost p: nat, ghost m: nat, ghost r: nat)
    returns (ok: bool, ghost ci: seq<byte>, ghost cw: seq<byte>)
    requires stream.Valid() && stream.position == s + p && b == stream.buffer[s..]
    requires m == p + 4 * nv && r == m + 16 * nv
    requires Fits(indices, 4 * nv, data.Length) && (indices.Nil? ==> nv == 0)
    requires Fits(weights, 16 * nv, data.Length) && (weights.Nil? ==> nv == 0)
    modifies stream`position, data
    ensures stream.Valid()
    ensures ok <==> r <= |b|
    ensures ok ==> stream.position == s + r && ci == b[p .. m] && cw == b[m .. r] &&
                   data[..] == Spliced(Spliced(old(data[..]), Offset(indices), ci), Offset(weights), cw)
  {
    cw := [];
    ok, ci := ReadView(stream, data, indices, 4 * nv, s, b, p, m);
    if ok {
      ok, cw := ReadView(stream, data, weights, 16 * nv, s, b, m, r);
    }
  }

  /** One more bone: its 64 matrix bytes follow the filler (old format) at the next stride. */
  lemma MatricesStep(b: seq<byte>, i: nat, oldFormat: bool)
    requires (if oldFormat then 68 else 64) * (i + 1) <= |b|
    ensures var at := (if oldFormat then 68 * i + 4 else 64 * i);
            Matrices(b, i + 1, oldFormat) == Matrices(b, i, oldFormat) + b[at .. at + 64]
  {
    if !oldFormat {
      assert b[.. 64 * (i + 1)] == b[.. 64 * i] + b[64 * i .. 64 * (i + 1)];
    }
  }

  /** The matrix bytes of bone `i`, read from absolute offset `from`, extend those of the bones before it. */
  lemma MatricesNext(buffer: seq<byte>, s: nat, i: nat, oldFormat: bool, from: nat)
    requires from == s + (if oldFormat then 68 * i + 4 else 64 * i) && from + 64 <= |buffer|
    ensures Matrices(buffer[s..], i, oldFormat) + buffer[from .. from + 64] == Matrices(buffer[s..], i + 1, oldFormat)
  {
    MatricesStep(buffer[s..], i, oldFormat);
    SuffixSlice(buffer, s, from - s, from - s + 64);
  }

  /** Copying `m` and then `c` right after it is copying `m + c`. */
  lemma SplicedAppend(d: seq<byte>, at: nat, m: seq<byte>, c: seq<byte>)
    requires at + |m| + |c| <= |d|
    ensures Spliced(Spliced(d, at, m), at + |m|, c) == Spliced(d, at, m + c)
  {
    var e1 := Spliced(d, at, m);
    forall j | 0 <= j < |d|
      ensures Spliced(e1, at + |m|, c)[j] == Spliced(d, at, m + c)[j]
    {
      SplicedAt(d, at, m, j);
      SplicedAt(e1, at + |m|, c, j);
      SplicedAt(d, at, m + c, j);
    }
  }

  /**
   * One pass of the per-bone loop: skip the filler in the old format, then
   * read 64 bytes into `data` right after the matrix bytes `m` already
   * copied to `lo`.
   */
  method ReadMatrix(stream: Stream, data: array<byte>, at: nat, oldFormat: bool,
                    ghost d0: seq<byte>, ghost lo: nat, ghost m: seq<byte>) returns (ok: bool)
    requires stream.Valid() && at == lo + |m| && at + 64 <= |d0| == data.Length
    requires data[..] == Spliced(d0, lo, m)
    modifies stream`position, data
    ensures stream.Valid()
    ensures var from := old(stream.position) + (if oldFormat then 4 else 0);
            (ok <==> from + 64 <= |stream.buffer|) &&
            (ok ==> stream.position == from + 64 &&
                    data[..] == Spliced(d0, lo, m + stream.buffer[from .. from + 64]))
  {
    if oldFormat {
      ok := stream.Seek(4);
      if !ok {
        return;
      }
    }
    ghost var from := stream.position;
    ok := stream.Read(data, at, 64);
    if ok {
      SplicedAppend(d0, lo, m, stream.buffer[from .. from + 64]);
    }
  }

  /**
   * The per-bone loop of `readSkin` on the buffer `data` whose matrices
   * start at byte `lo`, for `numBones` bones. The stream stands at absolute
   * offset `s`. A short read or skip stops the reading.
   */
  method ReadMatrixLoop(stream: Stream, data: array<byte>, lo: nat, numBones: nat, oldFormat: bool, ghost s: nat)
    returns (ok: bool)
    requires stream.Valid() && stream.position == s && lo + 64 * numBones <= data.Length
    modifies stream`position, data
    ensures stream.Valid()
    ensures var span := if oldFormat then 68 * numBones else 64 * numBones;
            (ok <==> s + span <= |stream.buffer|) &&
            (ok ==> stream.position == s + span &&
                    data[..] == Spliced(old(data[..]), lo, Matrices(stream.buffer[s..], numBones, oldFormat)))
  {
    ghost var d0 := data[..];
    ghost var b := stream.buffer[s..];
    var at := lo;
    var i := 0;
    while i < numBones
      invariant i <= numBones && at == lo + 64 * i
      invariant stream.position == s + (if oldFormat then 68 * i else 64 * i) <= |stream.buffer|
      invariant data[..] == Spliced(d0, lo, Matrices(b, i, oldFormat))
    {
      ghost var from := stream.position + (if oldFormat then 4 else 0);
      ok := ReadMatrix(stream, data, at, oldFormat, d0, lo, Matrices(b, i, oldFormat));
      if !ok {
        return;
      }
      MatricesNext(stream.buffer, s, i, oldFormat, from);
      at := at + 64;
      i := i + 1;
    }
    ok := true;
  }

  /** The per-bone loop of `readSkin` into the buffer at `lo`, the stream standing at `b[q]`. */
  method ReadMatrices(stream: Stream, data: array<byte>, lo: nat, numBones: nat, oldFormat: bool,
                      ghost s: nat, ghost b: seq<byte>, ghost q: nat)
    returns (ok: bool)
    requires stream.Valid() && stream.position == s + q && b == stream.buffer[s..] && lo + 64 * numBones <= data.Length
    modifies stream`position, data
    ensures stream.Valid()
    ensures var span := if oldFormat then 68 * numBones else 64 * numBones;
            (ok <==> q + span <= |b|) &&
            (ok ==> stream.position == s + q + span && data[..] == Spliced(old(data[..]), lo, Matrices(b[q..], numBones, oldFormat)))
  {
    ok := ReadMatrixLoop(stream, data, lo, numBones, oldFormat, s + q);
    assert stream.buffer[s + q..] == b[q..];
  }

  /**
   * The copies of the new-format reads, one after the other from `d` on,
   * leave in the skin the record the chunk `b` decodes to.
   */
  lemma NewLanded(skin: Skin, b: seq<byte>, nv: nat, c: Carving, p: nat, m: nat, q: nat, d: seq<byte>,
                  cu: seq<byte>, ci: seq<byte>, cw: seq<byte>, cm: seq<byte>, e: seq<byte>)
    requires skin.Valid() && skin.vertexCount == nv && |d| == skin.data.Length
    requires c == Carving(skin.data.Length, skin.usedBones, skin.inverseMatrices, skin.indices, skin.weights)
    requires 4 <= |b| && b[1] != 0 && ChunkLength(b[0] as nat, b[1] as nat, nv, false) <= |b|
    requires skin.numBones == b[0] as nat && skin.numUsedBones == b[1] as nat && skin.numWeights == b[2] as nat
    requires p == 4 + skin.numUsedBones && m == p + 4 * nv && q == m + 16 * nv
    requires cu == b[4 .. p] && ci == b[p .. m] && cw == b[m .. q] && cm == Matrices(b[q..], skin.numBones, false)
    requires var e1 := Spliced(d, Offset(c.usedBones), cu);
             var e3 := Spliced(Spliced(e1, Offset(c.indices), ci), Offset(c.weights), cw);
             e == Spliced(e3, Offset(c.inverseMatrices), cm)
    ensures Decode(b, nv) == Decoded(skin.RecordOf(e), ChunkLength(b[0] as nat, b[1] as nat, nv, false))
  {
    var e1 := Spliced(d, Offset(c.usedBones), cu);
    var e2 := Spliced(e1, Offset(c.indices), ci);
    var e3 := Spliced(e2, Offset(c.weights), cw);
    skin.UsedBonesLanded(d, e1, cu);
    skin.IndicesLanded(e1, e2, ci);
    skin.WeightsLanded(e2, e3, cw);
    skin.MatricesLanded(e3, e, cm);
    assert b[q..][.. 64 * skin.numBones] == b[q .. q + 64 * skin.numBones];
    NewFormatDecoded(b, nv, skin.RecordOf(e));
  }

  /**
   * The copies of the old-format reads, one after the other from `d` on,
   * leave in the skin a record whose derivation is what the chunk `b`
   * decodes to.
   */
  lemma OldLanded(skin: Skin, b: seq<byte>, nv: nat, c: Carving, m: nat, q: nat, d: seq<byte>,
                  ci: seq<byte>, cw: seq<byte>, cm: seq<byte>, e: seq<byte>)
    requires skin.Valid() && skin.vertexCount == nv && |d| == skin.data.Length
    requires c == Carving(skin.data.Length, skin.usedBones, skin.inverseMatrices, skin.indices, skin.weights)
    requires 4 <= |b| && b[1] == 0 && ChunkLength(b[0] as nat, 0, nv, true) <= |b| && skin.numBones == b[0] as nat
    requires m == 4 + 4 * nv && q == m + 16 * nv
    requires ci == b[4 .. m] && cw == b[m .. q] && cm == Matrices(b[q..], skin.numBones, true)
    requires e == Spliced(Spliced(Spliced(d, Offset(c.indices), ci), Offset(c.weights), cw), Offset(c.inverseMatrices), cm)
    ensures Decode(b, nv) == Decoded(Derived(skin.RecordOf(e), nv), ChunkLength(b[0] as nat, 0, nv, true))
  {
    var e1 := Spliced(d, Offset(c.indices), ci);
    var e2 := Spliced(e1, Offset(c.weights), cw);
    skin.IndicesLanded(d, e1, ci);
    skin.WeightsLanded(e1, e2, cw);
    skin.MatricesLanded(e2, e, cm);
    OldFormatDecoded(b, nv, skin.RecordOf(e));
  }

  /** The new-format rest of `readSkin`, after the header `b[..4]` and `init`. */
  method ReadNew(stream: Stream, skin: Skin, nv: nat, ghost s: nat, ghost b: seq<byte>) returns (ok: bool)
    requires stream.Valid() && stream.position == s + 4 && b == stream.buffer[s..] && 4 <= |b| && b[1] != 0
    requires skin.Valid() && skin.vertexCount == nv
    requires skin.numBones == b[0] as nat && skin.numUsedBones == b[1] as nat && skin.numWeights == b[2] as nat
    modifies stream`position, skin.data
    ensures stream.Valid()
    ensures var need := ChunkLength(b[0] as nat, b[1] as nat, nv, false);
            (ok <==> need <= |b|) && (ok ==> stream.position == s + need && Decode(b, nv) == Decoded(skin.Record(), need))
  {
    var data, nu, nb := skin.data, skin.numUsedBones, skin.numBones;
    var c := Carving(data.Length, skin.usedBones, skin.inverseMatrices, skin.indices, skin.weights);
    ghost var p := 4 + nu;
    ghost var m := p + 4 * nv;
    ghost var q := m + 16 * nv;
    ghost var d := data[..];
    ghost var cu, ci, cw;
    ok, cu := ReadView(stream, data, c.usedBones, nu, s, b, 4, p);
    if !ok {
      return;
    }
    ok, ci, cw := ReadVertices(stream, data, c.indices, c.weights, nv, s, b, p, m, q);
    if !ok {
      return;
    }
    ok := ReadMatrices(stream, data, Offset(c.inverseMatrices), nb, false, s, b, q);
    if !ok {
      return;
    }
    ghost var e := data[..];
    ok := stream.Seek(12);
    if ok {
      NewLanded(skin, b, nv, c, p, m, q, d, cu, ci, cw, Matrices(b[q..], nb, false), e);
    }
  }

  /** The old-format rest of `readSkin`, after the header `b[..4]` and `init`. */
  method ReadOld(stream: Stream, skin: Skin, nv: nat, ghost s: nat, ghost b: seq<byte>) returns (ok: bool)
    requires stream.Valid() && stream.position == s + 4 && b == stream.buffer[s..] && 4 <= |b| && b[1] == 0
    requires UsedBonesFit(b, nv)
    requires skin.Valid() && skin.vertexCount == nv
    requires skin.numBones == skin.usedCapacity == b[0] as nat
    modifies stream`position, skin.data, skin`numWeights, skin`numUsedBones
    ensures stream.Valid() && skin.Valid()
    ensures var need := ChunkLength(b[0] as nat, 0, nv, true);
            (ok <==> need <= |b|) && (ok ==> stream.position == s + need && Decode(b, nv) == Decoded(skin.Record(), need))
  {
    var data, nb := skin.data, skin.numBones;
    var c := Carving(data.Length, skin.usedBones, skin.inverseMatrices, skin.indices, skin.weights);
    ghost var m := 4 + 4 * nv;
    ghost var q := m + 16 * nv;
    ghost var d := data[..];
    ghost var ci, cw;
    ok, ci, cw := ReadVertices(stream, data, c.indices, c.weights, nv, s, b, 4, m, q);
    if !ok {
      return;
    }
    ok := ReadMatrices(stream, data, Offset(c.inverseMatrices), nb, true, s, b, q);
    if !ok {
      return;
    }
    OldLanded(skin, b, nv, c, m, q, d, ci, cw, Matrices(b[q..], nb, true), data[..]);
    skin.DeriveOldFormat(nv);
  }

  /** The 4-byte header: bone count, used-bone count, weights per vertex, and a spare byte. */
  method ReadHeader(stream: Stream, ghost b: seq<byte>) returns (ok: bool, h0: byte, h1: byte, h2: byte)
    requires stream.Valid() && b == stream.Remaining()
    modifies stream`position
    ensures stream.Valid()
    ensures ok <==> 4 <= |b|
    ensures ok ==> stream.position == old(stream.position) + 4 && h0 == b[0] && h1 == b[1] && h2 == b[2]
  {
    ghost var s := stream.position;
    var header := new byte[4];
    ghost var h := header[..];
    ok := stream.Read(header, 0, 4);
    h0, h1, h2 := 0, 0, 0;
    if ok {
      ghost var c := stream.buffer[s .. s + 4];
      assert header[..] == Spliced(h, 0, c);
      forall j | 0 <= j < 3
        ensures header[j] == b[j]
      {
        SplicedAt(h, 0, c, j);
        assert header[j] == header[..][j] == c[j];
      }
      h0, h1, h2 := header[0], header[1], header[2];
    }
  }

  /**
   * The generic part of `readSkin`: the header, a fresh skin attached to the
   * geometry and sized by it, then the new- or the old-format body. The skin
   * is decoded exactly when the whole chunk is there; a short stream stops
   * the read.
   */
  method ReadGeneric(stream: Stream, geometry: Geometry, base: nat) returns (status: Status)
    requires stream.Valid() && UsedBonesFit(stream.Remaining(), geometry.numVertices)
    modifies stream`position, geometry`skin
    ensures stream.Valid()
    ensures status == Done || status == ShortRead
    ensures var d := Decode(old(stream.Remaining()), geometry.numVertices);
            (status == Done <==> d.Decoded?) &&
            (status == Done ==> stream.position == old(stream.position) + d.consumed &&
                                geometry.skin != null && fresh(geometry.skin) && geometry.skin.Valid() &&
                                geometry.skin.vertexCount == geometry.numVertices &&
                                geometry.skin.Record() == d.rec)
  {
    ghost var s := stream.position;
    ghost var b := stream.buffer[s..];
    var ok, h0, h1, h2 := ReadHeader(stream, b);
    if !ok {
      return ShortRead;
    }
    var nv := geometry.numVertices;
    var oldFormat := h1 == 0;
    var skin := new Skin.Init(h0 as nat, if oldFormat then h0 as nat else h1 as nat, nv, base);
    geometry.skin := skin;
    skin.numWeights := h2 as nat;
    if oldFormat {
      ok := ReadOld(stream, skin, nv, s, b);
    } else {
      ok := ReadNew(stream, skin, nv, s, b);
    }
    status := if ok then Done else ShortRead;
  }

  /**
   * `readSkin`: a geometry with native instance data is handed to its
   * platform's reader when there is one and refused otherwise, without
   * touching the stream; a generic geometry reads the chunk.
   */
  method ReadSkin(stream: Stream, geometry: Geometry, base: nat) returns (status: Status)
    requires stream.Valid()
    requires geometry.instData.None? ==> UsedBonesFit(stream.Remaining(), geometry.numVertices)
    modifies stream`position, geometry`skin
    ensures stream.Valid()
    ensures match geometry.instData
            case Some(p) =>
              status == (if HasNativeCodec(p) then Delegated(p) else Unsupported) &&
              stream.position == old(stream.position) && geometry.skin == old(geometry.skin)
            case None =>
              var d := Decode(old(stream.Remaining()), geometry.numVertices);
              (status == Done <==> d.Decoded?) && (status != Done ==> status == ShortRead) &&
              (status == Done ==> stream.position == old(stream.position) + d.consumed &&
                                  geometry.skin != null && fresh(geometry.skin) && geometry.skin.Valid() &&
                                  geometry.skin.vertexCount == geometry.numVertices &&
                                  geometry.skin.Record() == d.rec)
  {
    if geometry.instData.Some? {
      var p := geometry.instData.value;
      if HasNativeCodec(p) {
        return Delegated(p);
      }
      return Unsupported;
    }
    status := ReadGeneric(stream, geometry, base);
  }

  // ---------------------------------------------------------------- writeSkin

  /** `writeU32(0xdeaddead)` emits exactly the old format's filler. */
  lemma FillerIsDeadDead()
    ensures U32Bytes(0xdead_dead) == Filler
  {
    var r := U32Bytes(0xdead_dead);
    assert Word(r[0], r[1], r[2], r[3]) == 0xdead_dead;
  }

  /** What the per-bone loop of `writeSkin` has emitted after `i` of the matrices `m`. */
  function Emitted(m: seq<byte>, i: nat, oldFormat: bool): (r: seq<byte>)
    requires 64 * i <= |m|
    ensures 64 * i == |m| ==> r == if oldFormat then Framed(m, i) else m
  {
    if oldFormat then Framed(m, i) else m[.. 64 * i]
  }

  /** One more bone appends its filler, in the old format, and its matrix to what `b` already holds. */
  lemma EmittedNext(b: seq<byte>, m: seq<byte>, i: nat, oldFormat: bool)
    requires 64 * (i + 1) <= |m|
    ensures b + Emitted(m, i + 1, oldFormat) ==
            b + Emitted(m, i, oldFormat) + (if oldFormat then Filler else []) + m[64 * i .. 64 * i + 64]
  {
    if !oldFormat {
      assert m[.. 64 * (i + 1)] == m[.. 64 * i] + m[64 * i .. 64 * i + 64];
    }
  }

  /** One pass of the per-bone loop: `writeU32(0xdeaddead)` in the old format, then the 64 matrix bytes. */
  method WriteMatrix(stream: Stream, block: seq<byte>, oldFormat: bool)
    modifies stream
    ensures stream.Valid() && stream.buffer == old(stream.buffer) + (if oldFormat then Filler else []) + block
  {
    ghost var b0 := stream.buffer;
    if oldFormat {
      FillerIsDeadDead();
      stream.WriteU32(0xdead_dead);
    }
    stream.Write(block);
  }

  /** The per-bone loop of `writeSkin` over the matrix bytes `m`. */
  method WriteMatrices(stream: Stream, m: seq<byte>, numBones: nat, oldFormat: bool)
    requires stream.Valid() && |m| == 64 * numBones
    modifies stream
    ensures stream.Valid()
    ensures stream.buffer == old(stream.buffer) + Emitted(m, numBones, oldFormat)
  {
    ghost var b0 := stream.buffer;
    var i := 0;
    while i < numBones
      invariant i <= numBones && stream.Valid()
      invariant stream.buffer == b0 + Emitted(m, i, oldFormat)
    {
      WriteMatrix(stream, m[64 * i .. 64 * i + 64], oldFormat);
      EmittedNext(b0, m, i, oldFormat);
      i := i + 1;
    }
  }

  /** `Encode` appended to `b`, piece by piece as the writer emits it. */
  lemma EncodeAppended(b: seq<byte>, rec: SkinRecord, version: int)
    requires |rec.usedBones| == rec.numUsedBones && |rec.inverseMatrices| == 64 * rec.numBones
    ensures var oldFormat := IsOldFormat(version);
            b + Encode(rec, version) ==
            b + Header(rec, oldFormat) + (if oldFormat then [] else rec.usedBones) + rec.indices + rec.weights +
            Emitted(rec.inverseMatrices, rec.numBones, oldFormat) + (if oldFormat then [] else Reserved)
  {
  }

  /** The generic part of `writeSkin`: the chunk of `Encode` for the skin's record. */
  method WriteGeneric(stream: Stream, skin: Skin, numVertices: nat, version: int)
    requires stream.Valid() && skin.Valid() && skin.vertexCount == numVertices
    modifies stream
    ensures stream.Valid() && stream.buffer == old(stream.buffer) + Encode(skin.Record(), version)
  {
    var d := skin.data[..];
    var nb, nu, nw := skin.numBones, skin.numUsedBones, skin.numWeights;
    var used := Behind(d, skin.usedBones, nu);
    var indices := Behind(d, skin.indices, 4 * numVertices);
    var weights := Behind(d, skin.weights, 16 * numVertices);
    var matrices := Behind(d, skin.inverseMatrices, 64 * nb);
    ghost var rec := SkinRecord(nb, nu, nw, used, matrices, indices, weights);
    assert rec == skin.Record();
    var oldFormat := version < 0x34000;
    var header: seq<byte> := [(nb % 256) as byte,
                              if oldFormat then 0 else (nu % 256) as byte,
                              if oldFormat then 0 else (nw % 256) as byte,
                              0];
    assert header == Header(rec, oldFormat);
    ghost var b0 := stream.buffer;
    stream.Write(header);
    ghost var b1 := stream.buffer;
    if !oldFormat {
      stream.Write(used);
    }
    assert stream.buffer == b1 + (if oldFormat then [] else used);
    stream.Write(indices);
    stream.Write(weights);
    WriteMatrices(stream, matrices, nb, oldFormat);
    ghost var b2 := stream.buffer;
    if !oldFormat {
      stream.Write(Reserved);
    }
    assert stream.buffer == b2 + (if oldFormat then [] else Reserved);
    EncodeAppended(b0, rec, version);
  }

  /**
   * `writeSkin`: a geometry with native instance data on a platform without
   * a codec of its own is refused and nothing is written; on a platform with
   * one, the platform writer's bytes `nativeOut` go first and, as the
   * platform calls do not return, the generic chunk follows them.
   */
  method WriteSkin(stream: Stream, geometry: Geometry, version: int, nativeOut: seq<byte>) returns (status: Status)
    requires geometry.instData.None? || HasNativeCodec(geometry.instData.value) ==>
               geometry.skin != null && geometry.skin.Valid() && geometry.skin.vertexCount == geometry.numVertices
    requires stream.Valid()
    modifies stream
    ensures match geometry.instData
            case Some(p) =>
              if HasNativeCodec(p) then
                status == Done && stream.Valid() &&
                stream.buffer == old(stream.buffer) + nativeOut + Encode(geometry.skin.Record(), version)
              else
                status == Unsupported && stream.buffer == old(stream.buffer) && stream.position == old(stream.position)
            case None =>
              status == Done && stream.Valid() &&
              stream.buffer == old(stream.buffer) + Encode(geometry.skin.Record(), version)
  {
    if geometry.instData.Some? {
      if !HasNativeCodec(geometry.instData.value) {
        return Unsupported;
      }
      stream.Write(nativeOut);
    }
    WriteGeneric(stream, geometry.skin, geometry.numVertices, version);
    status := Done;
  }

  // ---------------------------------------------------------------- getSizeSkin

  /**
   * `getSizeSkin`: a platform with a native codec reports that codec's size
   * `nativeSize`; D3D8 and D3D9 report -1 (not known in advance); any other
   * native platform falls through to the generic answer, which is -1 without
   * a skin and the generic chunk size otherwise.
   */
  function GetSizeSkin(geometry: Geometry, version: int, nativeSize: int): (r: int)
    reads geometry, geometry.skin
    ensures geometry.instData.None? ==> r >= -1 && (r == -1 <==> geometry.skin == null)
  {
    if geometry.instData.Some? && HasNativeCodec(geometry.instData.value) then nativeSize
    else if geometry.instData == Some(D3D8) || geometry.instData == Some(D3D9) then -1
    else if geometry.skin == null then -1
    else GenericSize(geometry.numVertices, geometry.skin.numBones, geometry.skin.numUsedBones, version)
  }

  /**
   * The size matches the write: for a generic geometry with a skin, the size
   * `getSizeSkin` reports is the number of bytes `writeSkin` appends.
   */
  lemma SizeMatchesWrite(geometry: Geometry, version: int, nativeSize: int)
    requires geometry.instData.None? && geometry.skin != null
    requires geometry.skin.Valid() && geometry.skin.vertexCount == geometry.numVertices
    ensures GetSizeSkin(geometry, version, nativeSize) == |Encode(geometry.skin.Record(), version)|
  {
    EncodeHasGenericSize(geometry.skin.Record(), geometry.numVertices, version);
  }

  /**
   * On a platform with a native codec the size and the write disagree: the
   * size is the native codec's alone, while `writeSkin` falls through and
   * appends the generic chunk after the native bytes. Even when the native
   * size counts the native writer's bytes exactly, the size reported falls
   * short of the bytes written by the whole generic chunk.
   */
  lemma NativeSizeMissesGenericChunk(geometry: Geometry, version: int, nativeOut: seq<byte>)
    requires geometry.instData.Some? && HasNativeCodec(geometry.instData.value) && geometry.skin != null
    requires geometry.skin.Valid() && geometry.skin.vertexCount == geometry.numVertices
    ensures var written := nativeOut + Encode(geometry.skin.Record(), version);
            GetSizeSkin(geometry, version, |nativeOut|) + |Encode(geometry.skin.Record(), version)| == |written| &&
            GetSizeSkin(geometry, version, |nativeOut|) < |written|
  {
    EncodeHasGenericSize(geometry.skin.Record(), geometry.numVertices, version);
  }

  // ---------------------------------------------------------------- through a stream

  /**
   * A skin written by `writeSkin` into an empty stream and read back by
   * `readSkin` into a fresh generic geometry of the same vertex count: the
   * new format restores the record; the old format restores it with the
   * derived weight count and used-bone list.
   */
  method WriteThenRead(geometry: Geometry, version: int, base: nat) returns (copy: Geometry)
    requires geometry.instData.None? && geometry.skin != null
    requires geometry.skin.Valid() && geometry.skin.vertexCount == geometry.numVertices
    requires geometry.skin.numBones <= 255 && geometry.skin.numWeights <= 255
    requires !IsOldFormat(version) ==> 1 <= geometry.skin.numUsedBones <= 255
    requires IsOldFormat(version) ==>
               Derived(geometry.skin.Record(), geometry.numVertices).numUsedBones <= geometry.skin.numBones
    ensures copy.numVertices == geometry.numVertices && copy.skin != null && copy.skin.Valid()
    ensures copy.skin.Record() ==
            if IsOldFormat(version) then Derived(geometry.skin.Record(), geometry.numVertices)
            else geometry.skin.Record()
  {
    var nv := geometry.numVertices;
    var bytes := WriteToBytes(geometry, version);
    EncodedChunkReadsBack(geometry.skin.Record(), nv, version);
    var status;
    status, copy := ReadFromBytes(bytes, nv, base);
  }

  /** `writeSkin` for a generic geometry into a fresh, empty stream: the bytes it holds afterwards. */
  method WriteToBytes(geometry: Geometry, version: int) returns (bytes: seq<byte>)
    requires geometry.instData.None? && geometry.skin != null
    requires geometry.skin.Valid() && geometry.skin.vertexCount == geometry.numVertices
    ensures bytes == Encode(geometry.skin.Record(), version)
  {
    var out := new Stream.Open([]);
    var status := WriteSkin(out, geometry, version, []);
    bytes := out.buffer;
  }

  /** `readSkin` from a stream opened over `bytes` into a fresh generic geometry of `numVertices` vertices. */
  method ReadFromBytes(bytes: seq<byte>, numVertices: nat, base: nat) returns (status: Status, copy: Geometry)
    requires UsedBonesFit(bytes, numVertices)
    ensures copy.numVertices == numVertices && copy.instData.None?
    ensures var d := Decode(bytes, numVertices);
            (status == Done <==> d.Decoded?) &&
            (status == Done ==> copy.skin != null && copy.skin.Valid() && copy.skin.Record() == d.rec)
  {
    var input := new Stream.Open(bytes);
    copy := new Geometry(numVertices, None);
    status := ReadSkin(input, copy, base);
  }
}
