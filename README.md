# Skin plugin of librw, modelled in Dafny

librw's skin plugin (`src/skin.cpp`) attaches vertex-skinning data to a
geometry. That data is a bone count, a list of the bones actually used, a
number of weights per vertex, one inverse bind matrix per bone, and four
bone indices and four weights per vertex. The plugin also serialises this
data as a small binary chunk. This project models the plugin's core and
proves properties of the model:

- **The packed buffer of `Skin::init`** (modules `Layout` and `Skins`). One
  allocation is carved by a moving cursor into four views: `usedBones`, the
  16-byte-aligned `inverseMatrices`, `indices` and `weights`. A view is nil
  when its count is zero. The address of the allocation is a parameter
  (`base`), since only its remainder modulo 16 matters.
- **Metadata derivation** (modules `Derivation` and `Skins`).
  - `findNumWeights` carries one counter across all vertices.
  - `findUsedBones` fills a 256-entry presence table and emits the marked
    ids in ascending order.

  Each is a method with loops over the skin's buffer, proved against a pure
  function, and the function's properties are proved as lemmas.
- **The chunk format** (module `Format`). `Encode` is what the generic
  writer emits. `Decode` is what the generic reader makes of a byte
  sequence. `GenericSize` is the size formula. The module proves both round
  trips, the old format (library versions below 0x34000, a `0xdeaddead`
  filler before every matrix, derived metadata) and the new one, and proves
  that the size formula matches the writer.
- **The stream callbacks** (modules `Streams` and `Codec`). `readSkin`,
  `writeSkin` and `getSizeSkin` are written as methods over a `Stream`
  class, a byte buffer with a cursor. Each is proved to do exactly what
  `Decode`, `Encode` and `GenericSize` say:
  - the reader's new skin holds `Decode`'s record;
  - the writer appends `Encode` of the skin's record;
  - the size is the writer's byte count.

Weights are 32-bit floats, but this code only compares them with `0.0f`.
The model keeps them as their four raw bytes in the buffer. A weight is
zero when its little-endian word, with the sign bit ignored, is zero, so
+0 and -0 are zero and every other pattern, NaN included, is not.
Matrices are opaque 64-byte blocks.

The weight count that the old-format reader derives follows the code:
- the counter starts at 1 and is carried from vertex to vertex, not reset;
- for each vertex it steps past nonzero slots and stops at 4.

It is therefore not a per-vertex maximum taken over every slot. It equals
the longest run of nonzero weights from slot 1 on when every vertex's
nonzero weights are packed at the front
(`Derivation.NumWeightsOfPackedIsLongestRun`). `Derivation.CarriedCountExceedsLongestRun`
exhibits vertex data where the two differ.

On PS2, WDGL and Xbox, `writeSkin` calls the platform's writer and does not
return, so the generic chunk follows the native bytes
(src/skin.cpp:147-153). `getSizeSkin` returns the native size alone
(src/skin.cpp:197-202). The model keeps both as written.
`Codec.NativeSizeMissesGenericChunk` shows that the two then disagree by
the size of the generic chunk, even when the native size counts the native
writer's bytes exactly. Whether the native writers expect this cannot be
told from this file, so the model does not correct either side.

## Model

| member | source | states |
|---|---|---|
| Layout.AlignUp16 | src/skin.cpp:294 | the result is the first multiple of 16 at or above the address |
| Layout.Carve | src/skin.cpp:278-312 | the allocation holds `numUsedBones + 64*numBones + 20*numVertices + 15` bytes; usedBones is at offset 0; the matrices start on a 16-byte boundary at most 15 bytes after usedBones; indices follow the matrices and weights follow the indices; each view is nil exactly when its count is zero; every view ends inside the allocation and no two overlap |
| Layout.CarveIsSound | src/skin.cpp:282-309 | the carved layout satisfies the soundness invariant the skin keeps |
| Skins.Skin.Init | src/skin.cpp:278-312 | `init` stores the counts, allocates the buffer and carves it exactly as `Carve` does; platformData is nil and the skin is valid |
| Bytes.ZeroWeightIsZero | src/skin.cpp:338 | the zero test on a weight's four bytes agrees with the float comparison `w == 0.0f` on its little-endian word (+0 and -0 only) |
| Derivation.Advance | src/skin.cpp:320-324 | one vertex's inner loop: entered with the running count k, it steps k past every nonzero slot and stops at the first zero slot or at 4; the result lies in [k, 4] |
| Derivation.NumWeights | src/skin.cpp:315-327 | the carried count over any prefix of the vertices lies in [1, 4] |
| Derivation.AdvanceStops | src/skin.cpp:320-324 | the inner loop steps only past nonzero slots and stops below 4 only at a zero slot |
| Derivation.NumWeightsMonotone | src/skin.cpp:319-326 | the count never decreases from one vertex to the next |
| Derivation.NumWeightsSaturates | src/skin.cpp:322-323 | once the count reaches 4 it stays 4, which justifies the early return |
| Derivation.NumWeightsReadsSlotsOneToThree | src/skin.cpp:320 | the count depends only on whether slots 1 to 3 of each vertex are nonzero |
| Derivation.NumWeightsOfPackedIsLongestRun | src/skin.cpp:315-327 | when each vertex's nonzero weights are packed at the front, the count is the longest run over all vertices |
| Derivation.CarriedCountExceedsLongestRun | src/skin.cpp:317-326 | vertex data exists where the carried count (3) exceeds every vertex's own run (2) |
| Derivation.NumWeightsExample | src/skin.cpp:315-327 | vertices with weight patterns (w,0,0,0), (w,w,0,0) and (w,w,w,w) give 4 |
| Skins.Skin.AdvanceCount | src/skin.cpp:320-324 | the inner while loop over the buffer returns the step function `Advance` of the vertex |
| Skins.Skin.CountWeights | src/skin.cpp:317-326 | the outer loop over the buffer returns `NumWeights` of the weight bytes |
| Skins.Skin.FindNumWeights | src/skin.cpp:315-327 | `numWeights` becomes `NumWeights` of the skin's weights; nothing else in the record changes |
| Derivation.MarkedMeansUsed | src/skin.cpp:336-345 | an id is marked exactly when some vertex has a slot below numWeights with a nonzero weight and that id as its index |
| Derivation.AscendingSound | src/skin.cpp:347-349 | every emitted id is below the bound and in the marked set |
| Derivation.AscendingComplete | src/skin.cpp:347-349 | every marked id below the bound is emitted |
| Derivation.AscendingStrict | src/skin.cpp:347-349 | the emitted ids are strictly ascending |
| Derivation.AscendingCount | src/skin.cpp:346-349 | the number emitted is the number of marked ids below the bound |
| Derivation.UsedBones | src/skin.cpp:330-350 | the list `findUsedBones` emits: the ids in the presence table `Marked` (every index of a slot below numWeights whose weight is nonzero, over all vertices), taken in ascending order from 0 to 255 |
| Derivation.UsedBonesSpec | src/skin.cpp:330-350 | the used-bone list is strictly ascending, holds exactly the ids used with a nonzero weight, and has at most 256 entries |
| Derivation.UsedBonesWithinBoneCount | src/skin.cpp:99-101 | when every used index is below numBones, the list fits the numBones bytes the old-format reader allocates |
| Derivation.UsedBonesExample | src/skin.cpp:330-350 | nonzero-weight ids 5, 2, 5, 9 give the list [2, 5, 9] |
| Skins.Skin.MarkVertex | src/skin.cpp:337-342 | one vertex's pass adds to the table exactly the ids of its nonzero slots below numWeights |
| Skins.Skin.MarkVertices | src/skin.cpp:336-345 | the outer loop leaves the table marking exactly `Marked` of the indices and weights |
| Skins.Skin.MarkBones | src/skin.cpp:332-345 | a fresh zeroed table ends up marking exactly the skin's used ids |
| Skins.Skin.EmitUsed | src/skin.cpp:346-349 | the 256-step loop writes the marked ids in ascending order to the front of the buffer, returns their count and leaves every byte past the used-bone room alone |
| Skins.Skin.FindUsedBones | src/skin.cpp:330-350 | the usedBones view and numUsedBones become `UsedBones` of the skin's indices and weights; matrices, indices and weights are kept |
| Format.Derived | src/skin.cpp:130-133 | the record an old-format read ends with: numWeights becomes `NumWeights` of the weights, usedBones becomes `UsedBones` of the indices and weights under that count, numUsedBones its length; bone count, matrices, indices and weights are kept, and the result is well formed |
| Skins.Skin.DeriveOldFormat | src/skin.cpp:130-133 | after `findNumWeights` and `findUsedBones` the skin's record is `Derived` of the record that was read |
| Format.Encode | src/skin.cpp:160-188 | the generic chunk: the header `[numBones, old ? 0 : numUsedBones, old ? 0 : numWeights, 0]` with each count taken mod 256, then usedBones (new format only), the indices, the weights, each 64-byte matrix preceded by the filler `0xdeaddead` (old format) or the bare matrices (new format), then 12 zero bytes (new format only); the old format is any version below 0x34000 |
| Format.GenericSize | src/skin.cpp:214-220 | `4 + 20*numVertices + 64*numBones`, plus `4*numBones` in the old format or `numUsedBones + 12` in the new format |
| Format.EncodeHasGenericSize | src/skin.cpp:214-220 | the size formula equals the length of the bytes the generic writer emits |
| Format.GenericSizeExample | src/skin.cpp:214-220 | 10 vertices, 3 bones and 2 used bones in the new format take 410 bytes |
| Format.Decode | src/skin.cpp:91-137 | a zero second header byte selects the old format; the read succeeds exactly when every byte it reads or skips is there, and it consumes exactly the chunk length; the record read has the array lengths its counts give |
| Format.UnframeFramed | src/skin.cpp:112-115 | skipping 4 bytes before each 64-byte matrix recovers the matrices the old-format writer framed with fillers |
| Format.NewFormatRoundTrip | src/skin.cpp:91-188 | reading a new-format chunk the writer produced restores every field and consumes exactly the bytes written, when the counts fit a byte and at least one bone is used |
| Format.OldFormatRoundTrip | src/skin.cpp:91-188 | reading an old-format chunk restores the bone count, matrices, indices and weights, derives numWeights and usedBones, and consumes exactly the bytes written |
| Format.ZeroUsedBonesReadsAsOldFormat | src/skin.cpp:97 | for every record with no used bones written in the new format, the zero second header byte sends the reader down the old-format branch; unless the record has exactly 3 bones (68·3 = 64·3 + 12), the chunk then does not read back as written |
| Format.EncodedChunkReadsBack | src/skin.cpp:91-188 | a whole chunk as the writer emits it reads back as the record (new format) or as the record with derived metadata (old format), and meets the old-format reader's used-bone room |
| Streams.U32Bytes | src/skin.cpp:179 | the four bytes are the little-endian encoding of the word |
| Streams.Stream.Read | src/skin.cpp:107-115 | a read copies the next n bytes to the given place in the array and advances; with fewer left it fails and changes nothing |
| Streams.Stream.WriteU32 | src/skin.cpp:179 | `writeU32(x)` appends the four little-endian bytes of x and leaves the cursor at the end of the buffer |
| Streams.Stream.Seek | src/skin.cpp:114 | a seek skips n bytes, or fails and changes nothing when fewer are left |
| Streams.Stream.Write | src/skin.cpp:167-187 | a write appends the bytes |
| Codec.FillerIsDeadDead | src/skin.cpp:179 | `writeU32(0xdeaddead)` emits the filler the old format expects |
| Codec.ReadHeader | src/skin.cpp:91 | the 4-byte header read yields the first three bytes of the chunk, or fails when fewer than 4 are left |
| Codec.ReadView | src/skin.cpp:106-111 | the guarded read of one view succeeds exactly when the bytes are there and copies them behind the view |
| Codec.ReadVertices | src/skin.cpp:108-111 | the indices and then the weights are copied behind their views |
| Codec.ReadMatrices | src/skin.cpp:112-128 | the per-bone loop copies each matrix into place, skipping a filler first in the old format, and consumes 64 or 68 bytes per bone |
| Codec.ReadNew | src/skin.cpp:106-137 | the new-format body succeeds exactly when the chunk is all there, and the skin then holds `Decode`'s record |
| Codec.ReadOld | src/skin.cpp:100-133 | the old-format body succeeds exactly when the chunk is all there, and the skin then holds `Decode`'s record with its derived metadata |
| Codec.ReadGeneric | src/skin.cpp:91-139 | a fresh skin is attached and filled; the read succeeds exactly when `Decode` does, and then the stream has advanced by the bytes consumed and the skin's record is the decoded one |
| Codec.ReadSkin | src/skin.cpp:71-139 | native data on PS2, WDGL or Xbox is handed to that platform's reader and any other native platform is refused, in both cases without touching the stream or the skin slot; otherwise the generic read runs |
| Codec.WriteMatrices | src/skin.cpp:177-181 | the per-bone loop appends each matrix, preceded by the filler in the old format |
| Codec.WriteGeneric | src/skin.cpp:160-188 | the generic write appends exactly `Encode` of the skin's record for the given version |
| Codec.WriteSkin | src/skin.cpp:141-189 | an unsupported native platform is refused with nothing written; a supported one writes its native bytes and then falls through to the generic chunk; a generic geometry gets the generic chunk |
| Codec.GetSizeSkin | src/skin.cpp:191-222 | without native data the size is -1 exactly when no skin is attached, and otherwise at least 0 |
| Codec.SizeMatchesWrite | src/skin.cpp:210-221 | for a generic geometry with a skin, the reported size is the number of bytes the generic write appends |
| Codec.NativeSizeMissesGenericChunk | src/skin.cpp:147-202 | on PS2, WDGL and Xbox, even a native size that counts the native writer's bytes exactly falls short of what `writeSkin` writes by the whole generic chunk |
| Codec.WriteToBytes | src/skin.cpp:141-189 | `writeSkin` of a generic geometry into an empty stream leaves exactly `Encode` of the skin's record in it |
| Codec.ReadFromBytes | src/skin.cpp:71-139 | `readSkin` from a stream over the bytes into a fresh generic geometry succeeds exactly when `Decode` does and then attaches a skin holding the decoded record |
| Codec.WriteThenRead | src/skin.cpp:71-189 | a skin written by `writeSkin` and read back by `readSkin` comes back equal in the new format, and with its derived weight count and used-bone list in the old format |

## Left out

- Native codecs: the PS2, WDGL and Xbox readers, writers and size functions are not part of this model. `ReadSkin` reports which platform it would hand the stream to. `WriteSkin` takes the bytes the native writer would emit as a parameter. `GetSizeSkin` takes the native size as a parameter.
- Codec.ReadSkin: stops with `ShortRead` at the first read or skip that runs past the end of the stream. The source ignores short reads and carries on with whatever the buffer already held.
- Codec.ReadSkin: requires that an old-format chunk name no more distinct bones than its bone count (`UsedBonesFit`). The source writes the derived list into a buffer of numBones bytes and would overrun it otherwise.
- Codec.ReadSkin: a header read that comes up short stops before any skin is created. The source goes on to create one from an uninitialised header.
- Codec.WriteSkin: requires an attached, valid skin for the generic part. The source dereferences the slot without checking it.
- Codec.GetSizeSkin: for a native platform other than PS2, WDGL, Xbox, D3D8 and D3D9, the source asserts. The model follows a release build, where the assert is compiled out and control falls through to the generic size.
- Codec.GetSizeSkin: does not model the 32-bit wrap-around of the size, which the source computes in `int32` (src/skin.cpp:214-220). The model's counts are unbounded naturals.
- Skins.Skin.Init: does not model the 32-bit wrap-around of the allocation size, which the source computes in `uint32` (src/skin.cpp:282-284).
- Codec.ReadSkin: does not model the 32-bit wrap-around of the lengths `numVertices*4` and `numVertices*16`, which the source computes in `int32` (src/skin.cpp:109-111).
- Codec.WriteSkin: does not model the 32-bit wrap-around of the same lengths on the write side (src/skin.cpp:175-176). The read and write lengths wrap only above 100 million vertices. The size and the allocation also wrap for a skin built with many bones, since `numBones*64` is 32-bit arithmetic too: the `int32` size from 2^25 bones on (src/skin.cpp:214-215), the `uint32` allocation from 2^26 bones on (src/skin.cpp:282-283). A skin read from a chunk never has that many, because its bone count is one byte.
- Skins.Skin.Init: the allocation's address is the parameter `base`, and the allocator is not modelled.
- Skins.Skin.FindNumWeights: computes the count in a local variable and assigns the field once. The source updates `numWeights` in place on every step, and the final value is the same.
- `copySkin` is not modelled: it attaches a new skin and copies the three counts, then asserts before copying the arrays (src/skin.cpp:55-61). It is left out as unfinished.
- Plugin plumbing is not modelled: `createSkin`, `destroySkin`, the plugin registration and the stream-rights callback.
- Pipeline selection is not modelled: `skinOpen`, `skinClose` and `Skin::setPipeline` fill a process-wide table with pipelines from factories outside this file.
- Float arithmetic is not modelled. Weights are only tested against zero, and matrices are opaque bytes.
- The stream is an in-memory byte buffer with a cursor. The real stream classes and their I/O are not modelled.
