/**
 * The skin attached to a geometry: its counts and the one buffer that holds
 * usedBones, the inverse matrices, the indices and the weights, carved as
 * `Layout.Carve` describes; and the two routines that rebuild the weight
 * count and the used-bone list from the vertex data.
 */
module Skins {
  import opened Bytes
  import opened Layout
  import opened Derivation
  import opened Format

  /** The `len` bytes of `d` behind view `v`; a nil view holds none. */
  function Behind(d: seq<byte>, v: View, len: nat): seq<byte>
    requires Fits(v, len, |d|)
  {
    if v.Nil? then [] else seq(len, i requires 0 <= i < len => d[v.offset + i])
  }

  /** Two buffers that agree from `cap` on agree behind every view that lies there. */
  lemma BehindTail(a: seq<byte>, b: seq<byte>, cap: nat, v: View, len: nat)
    requires |a| == |b| && cap <= |a| && Fits(v, len, |a|) && (v.At? ==> cap <= v.offset)
    requires a[cap..] == b[cap..]
    ensures Behind(a, v, len) == Behind(b, v, len)
  {
    if v.At? {
      forall i | v.offset <= i < v.offset + len
        ensures a[i] == b[i]
      {
        assert a[i] == a[cap..][i - cap] && b[i] == b[cap..][i - cap];
      }
    }
  }

  /** A copy into `[at, at + |c|)` leaves every view outside that range as it was. */
  lemma SplicedKeeps(d: seq<byte>, at: nat, c: seq<byte>, v: View, len: nat)
    requires at + |c| <= |d| && Fits(v, len, |d|)
    requires v.At? ==> v.offset + len <= at || at + |c| <= v.offset
    ensures Behind(Spliced(d, at, c), v, len) == Behind(d, v, len)
  {
    if v.At? {
      forall k | v.offset <= k < v.offset + len
        ensures Spliced(d, at, c)[k] == d[k]
      {
        SplicedAt(d, at, c, k);
      }
    }
  }

  /** A copy into `[at, at + |c|)` leaves `c` there. */
  lemma SplicedWrites(d: seq<byte>, at: nat, c: seq<byte>)
    requires at + |c| <= |d|
    ensures Behind(Spliced(d, at, c), At(at), |c|) == c
  {
    forall i | 0 <= i < |c|
      ensures Spliced(d, at, c)[at + i] == c[i]
    {
      SplicedAt(d, at, c, at + i);
    }
  }

  /** Entry `b` of the 256-entry table `tab` is nonzero exactly when `b` is in `s`. */
  ghost predicate Marks(tab: array<byte>, s: set<int>)
    reads tab
  {
    tab.Length == 256 && forall b :: 0 <= b < 256 ==> (tab[b] != 0 <==> b in s)
  }

  class Skin {
    var numBones: nat
    var numUsedBones: nat
    var numWeights: nat
    /** The single allocation behind the four views. */
    var data: array<byte>
    var usedBones: View
    var inverseMatrices: View
    var indices: View
    var weights: View
    var platformData: View

    /** The used-bone count the buffer was carved for: room for that many ids. */
    ghost var usedCapacity: nat
    /** The vertex count the buffer was carved for. */
    ghost var vertexCount: nat

    /** The views carve `data` soundly; it depends on none of the counts the routines below recompute. */
    ghost predicate Carved()
      reads this`numBones, this`data, this`usedBones, this`inverseMatrices, this`indices,
            this`weights, this`platformData, this`usedCapacity, this`vertexCount
    {
      Sound(Carving(data.Length, usedBones, inverseMatrices, indices, weights),
            numBones, usedCapacity, vertexCount) &&
      platformData.Nil?
    }

    /** The buffer is carved and the used-bone list fits its room. */
    ghost predicate Valid()
      reads this`numBones, this`data, this`usedBones, this`inverseMatrices, this`indices,
            this`weights, this`platformData, this`usedCapacity, this`vertexCount, this`numUsedBones
    {
      Carved() && numUsedBones <= usedCapacity
    }

    /** The `len` bytes behind view `v`; a nil view holds none. */
    ghost function ViewBytes(v: View, len: nat): seq<byte>
      requires Fits(v, len, data.Length)
      reads this`data, data
    {
      Behind(data[..], v, len)
    }

    /** The weights array as raw bytes, 16 per vertex. */
    ghost function WeightBytes(): (r: seq<byte>)
      requires Carved()
      reads this`numBones, this`data, this`usedBones, this`inverseMatrices, this`indices,
            this`weights, this`platformData, this`usedCapacity, this`vertexCount, data
      ensures |r| == 16 * vertexCount
    {
      ViewBytes(weights, 16 * vertexCount)
    }

    /** The indices array, 4 per vertex. */
    ghost function IndexBytes(): (r: seq<byte>)
      requires Carved()
      reads this`numBones, this`data, this`usedBones, this`inverseMatrices, this`indices,
            this`weights, this`platformData, this`usedCapacity, this`vertexCount, data
      ensures |r| == 4 * vertexCount
    {
      ViewBytes(indices, 4 * vertexCount)
    }

    /** The skin as a plain value. */
    ghost function Record(): (r: SkinRecord)
      requires Valid()
      reads this, data
      ensures WellFormed(r, vertexCount)
    {
      RecordOf(data[..])
    }

    /** The skin as a plain value were its buffer to hold `d`. */
    ghost function RecordOf(d: seq<byte>): (r: SkinRecord)
      requires Valid() && |d| == data.Length
      reads this`numBones, this`data, this`usedBones, this`inverseMatrices, this`indices,
            this`weights, this`platformData, this`usedCapacity, this`vertexCount, this`numUsedBones,
            this`numWeights
      ensures WellFormed(r, vertexCount)
    {
      SkinRecord(numBones, numUsedBones, numWeights,
                 Behind(d, usedBones, numUsedBones), Behind(d, inverseMatrices, 64 * numBones),
                 Behind(d, indices, 4 * vertexCount), Behind(d, weights, 16 * vertexCount))
    }

    /** Copying `c` to usedBones changes that field of the record and no other. */
    lemma UsedBonesLanded(d: seq<byte>, e: seq<byte>, c: seq<byte>)
      requires Valid() && |d| == data.Length && |c| == numUsedBones && e == Spliced(d, Offset(usedBones), c)
      ensures RecordOf(e) == RecordOf(d).(usedBones := c)
    {
      SplicedWrites(d, 0, c);
      SplicedKeeps(d, 0, c, inverseMatrices, 64 * numBones);
      SplicedKeeps(d, 0, c, indices, 4 * vertexCount);
      SplicedKeeps(d, 0, c, weights, 16 * vertexCount);
    }

    /** Copying `c` to the inverse matrices changes that field of the record and no other. */
    lemma MatricesLanded(d: seq<byte>, e: seq<byte>, c: seq<byte>)
      requires Valid() && |d| == data.Length && |c| == 64 * numBones && e == Spliced(d, Offset(inverseMatrices), c)
      ensures RecordOf(e) == RecordOf(d).(inverseMatrices := c)
    {
      var at := Offset(inverseMatrices);
      if numBones == 0 {
        assert e == d;
      } else {
        SplicedWrites(d, at, c);
        SplicedKeeps(d, at, c, usedBones, numUsedBones);
        SplicedKeeps(d, at, c, indices, 4 * vertexCount);
        SplicedKeeps(d, at, c, weights, 16 * vertexCount);
      }
    }

    /** Copying `c` to the indices changes that field of the record and no other. */
    lemma IndicesLanded(d: seq<byte>, e: seq<byte>, c: seq<byte>)
      requires Valid() && |d| == data.Length && |c| == 4 * vertexCount && e == Spliced(d, Offset(indices), c)
      ensures RecordOf(e) == RecordOf(d).(indices := c)
    {
      if indices.Nil? {
        assert e == d;
      } else {
        SplicedWrites(d, indices.offset, c);
        SplicedKeeps(d, indices.offset, c, usedBones, numUsedBones);
        SplicedKeeps(d, indices.offset, c, inverseMatrices, 64 * numBones);
        SplicedKeeps(d, indices.offset, c, weights, 16 * vertexCount);
      }
    }

    /** Copying `c` to the weights changes that field of the record and no other. */
    lemma WeightsLanded(d: seq<byte>, e: seq<byte>, c: seq<byte>)
      requires Valid() && |d| == data.Length && |c| == 16 * vertexCount && e == Spliced(d, Offset(weights), c)
      ensures RecordOf(e) == RecordOf(d).(weights := c)
    {
      if weights.Nil? {
        assert e == d;
      } else {
        SplicedWrites(d, weights.offset, c);
        SplicedKeeps(d, weights.offset, c, usedBones, numUsedBones);
        SplicedKeeps(d, weights.offset, c, inverseMatrices, 64 * numBones);
        SplicedKeeps(d, weights.offset, c, indices, 4 * vertexCount);
      }
    }

    /**
     * `new Skin` followed by `init(numBones, numUsedBones, numVertices)`, with
     * the allocation landing at address `base`: one buffer, carved by a cursor.
     * `init` leaves the weight count unset; it starts at 0 here.
     */
    constructor Init(numBones: nat, numUsedBones: nat, numVertices: nat, base: nat)
      ensures Valid() && fresh(data)
      ensures Carving(data.Length, usedBones, inverseMatrices, indices, weights) ==
              Carve(numBones, numUsedBones, numVertices, base)
      ensures this.numBones == numBones && this.numUsedBones == numUsedBones && numWeights == 0
      ensures usedCapacity == numUsedBones && vertexCount == numVertices
    {
      this.numBones := numBones;
      this.numUsedBones := numUsedBones;
      numWeights := 0;
      usedCapacity := numUsedBones;
      vertexCount := numVertices;
      var size := AllocSize(numBones, numUsedBones, numVertices);
      data := new byte[size];
      var p := 0;
      usedBones := Nil;
      if numUsedBones != 0 {
        usedBones := At(p);
        p := p + numUsedBones;
      }
      p := AlignUp16(base + p) - base;
      inverseMatrices := Nil;
      if numBones != 0 {
        inverseMatrices := At(p);
        p := p + 64 * numBones;
      }
      indices := Nil;
      if numVertices != 0 {
        indices := At(p);
        p := p + 4 * numVertices;
      }
      weights := Nil;
      if numVertices != 0 {
        weights := At(p);
      }
      platformData := Nil;
      CarveIsSound(numBones, numUsedBones, numVertices, base);
    }

    /** The `|s|` bytes of the buffer from byte `at` on are `s`. */
    ghost predicate Holds(at: nat, s: seq<byte>)
      reads this`data, data
    {
      at + |s| <= data.Length && data[at .. at + |s|] == s
    }

    /** The weights and the indices sit where their views say. */
    lemma ViewsHold()
      requires Carved()
      ensures Holds(Offset(weights), WeightBytes()) && Holds(Offset(indices), IndexBytes())
    {
    }

    /** `w == 0.0f` for the float stored at byte `p` of the buffer. */
    predicate ZeroAt(p: nat)
      requires p + 4 <= data.Length
      reads this`data, data
    {
      ZeroWeight(data[p], data[p + 1], data[p + 2], data[p + 3])
    }

    /** Slot `k` of vertex `v` of the weights held from byte `at` on is the float at `at + 16 * v + 4 * k`. */
    lemma SlotHolds(at: nat, ws: seq<byte>, v: nat, k: nat)
      requires Holds(at, ws) && k < 4 && 16 * (v + 1) <= |ws|
      ensures at + 16 * v + 4 * k + 4 <= data.Length
      ensures ZeroAt(at + 16 * v + 4 * k) <==> !Nonzero(ws, v, k)
    {
      var q := 16 * v + 4 * k;
      assert data[at + q] == ws[q] && data[at + q + 1] == ws[q + 1];
      assert data[at + q + 2] == ws[q + 2] && data[at + q + 3] == ws[q + 3];
    }

    /** Slot `i` of vertex `v` of the indices held from byte `at` on is the byte at `at + 4 * v + i`. */
    lemma IndexHolds(at: nat, idx: seq<byte>, v: nat, i: nat)
      requires Holds(at, idx) && i < 4 && 4 * (v + 1) <= |idx|
      ensures at + 4 * v + i < data.Length && data[at + 4 * v + i] == idx[4 * v + i]
    {
      assert data[at + 4 * v + i] == data[at .. at + |idx|][4 * v + i];
    }

    /**
     * The inner loop of `findNumWeights` on vertex `v` of the weights held
     * from byte `at` on: from count `k`, step past nonzero slots, stopping at 4.
     */
    method AdvanceCount(at: nat, v: nat, k: nat, ghost ws: seq<byte>) returns (r: nat)
      requires Holds(at, ws) && 16 * (v + 1) <= |ws| && 1 <= k < 4
      ensures r == Advance(ws, v, k)
    {
      var w := at + 16 * v;
      r := k;
      SlotHolds(at, ws, v, r);
      while !ZeroAt(w + 4 * r)
        invariant k <= r < 4 && Advance(ws, v, r) == Advance(ws, v, k)
        invariant w + 4 * r + 4 <= data.Length && (ZeroAt(w + 4 * r) <==> !Nonzero(ws, v, r))
        decreases 4 - r
      {
        r := r + 1;
        if r == 4 {
          return;
        }
        SlotHolds(at, ws, v, r);
      }
    }

    /**
     * The loop of `findNumWeights` over the weights held from byte `at` on:
     * starting from 1, for each vertex in turn, step the count past nonzero
     * slots; stop as soon as it reaches 4.
     */
    method CountWeights(at: nat, numVertices: nat, ghost ws: seq<byte>) returns (count: nat)
      requires Holds(at, ws) && 16 * numVertices <= |ws|
      ensures count == NumWeights(ws, numVertices)
    {
      count := 1;
      var m := 0;
      while m < numVertices && count < 4
        invariant m <= numVertices && count == NumWeights(ws, m)
      {
        count := AdvanceCount(at, m, count, ws);
        m := m + 1;
      }
      if count == 4 {
        NumWeightsSaturates(ws, m, numVertices);
      }
    }

    /** `findNumWeights`: the skin's weight count, recomputed from its first `numVertices` vertices. */
    method FindNumWeights(numVertices: nat)
      requires Valid() && numVertices <= vertexCount
      modifies this`numWeights
      ensures Valid() && Record() == old(Record()).(numWeights := numWeights)
      ensures numWeights == NumWeights(WeightBytes(), numVertices)
    {
      ViewsHold();
      numWeights := CountWeights(Offset(weights), numVertices, WeightBytes());
    }

    /**
     * One pass of the outer loop of `findUsedBones`, on vertex `v` of the
     * indices and weights held from bytes `ix` and `w` on: mark the bone of
     * every slot below `nw` whose weight is nonzero.
     */
    method MarkVertex(tab: array<byte>, ix: nat, w: nat, v: nat, nw: nat,
                      ghost idx: seq<byte>, ghost ws: seq<byte>, ghost before: set<int>)
      requires tab != data && Marks(tab, before) && Holds(ix, idx) && Holds(w, ws)
      requires nw <= 4 && 4 * (v + 1) <= |idx| && 16 * (v + 1) <= |ws|
      modifies tab
      ensures Marks(tab, before + SlotBones(idx, ws, v, nw))
    {
      for i := 0 to nw
        invariant Marks(tab, before + SlotBones(idx, ws, v, i))
      {
        SlotHolds(w, ws, v, i);
        if ZeroAt(w + 16 * v + 4 * i) {
          continue;
        }
        IndexHolds(ix, idx, v, i);
        var b := data[ix + 4 * v + i];
        if tab[b] == 0 {
          tab[b] := tab[b] + 1;
        }
      }
    }

    /**
     * The outer loop of `findUsedBones` over the indices and weights held
     * from bytes `ix` and `w` on: every vertex in turn marks its bones in the
     * zeroed table `tab`.
     */
    method MarkVertices(tab: array<byte>, ix: nat, w: nat, numVertices: nat, nw: nat,
                        ghost idx: seq<byte>, ghost ws: seq<byte>)
      requires tab != data && Marks(tab, {}) && Holds(ix, idx) && Holds(w, ws)
      requires nw <= 4 && 4 * numVertices <= |idx| && 16 * numVertices <= |ws|
      modifies tab
      ensures Marks(tab, Marked(idx, ws, numVertices, nw))
    {
      var m := 0;
      while m < numVertices
        invariant m <= numVertices && Marks(tab, Marked(idx, ws, m, nw))
      {
        MarkVertex(tab, ix, w, m, nw, idx, ws, Marked(idx, ws, m, nw));
        m := m + 1;
      }
    }

    /** The first half of `findUsedBones`: a zeroed 256-entry table, marked by every vertex. */
    method MarkBones(numVertices: nat) returns (tab: array<byte>)
      requires Carved() && numVertices <= vertexCount && numWeights <= 4
      ensures fresh(tab) && Marks(tab, Marked(IndexBytes(), WeightBytes(), numVertices, numWeights))
    {
      ViewsHold();
      tab := new byte[256](_ => 0);
      MarkVertices(tab, Offset(indices), Offset(weights), numVertices, numWeights, IndexBytes(), WeightBytes());
    }

    /**
     * The second half of `findUsedBones`: write the marked ids, ascending,
     * to the start of the buffer, where usedBones lies, and count them.
     */
    method EmitUsed(tab: array<byte>, ghost marked: set<int>, ghost cap: nat) returns (count: nat)
      requires tab != data && Marks(tab, marked) && |Ascending(marked, 256)| <= cap <= data.Length
      modifies data
      ensures count == |Ascending(marked, 256)| && data[..count] == Ascending(marked, 256)
      ensures data[cap..] == old(data[cap..])
    {
      count := 0;
      for i := 0 to 256
        invariant count == |Ascending(marked, i)| <= cap
        invariant data[..count] == Ascending(marked, i)
        invariant data[cap..] == old(data[cap..])
      {
        AscendingGrows(marked, i + 1, 256);
        if tab[i] != 0 {
          data[count] := i as byte;
          count := count + 1;
        }
      }
    }

    /** Rewriting bytes below the used-bone room leaves the matrices, indices and weights alone. */
    lemma TailKept(was: seq<byte>)
      requires Carved() && |was| == data.Length && data[usedCapacity..] == was[usedCapacity..]
      ensures ViewBytes(inverseMatrices, 64 * numBones) == Behind(was, inverseMatrices, 64 * numBones)
      ensures IndexBytes() == Behind(was, indices, 4 * vertexCount)
      ensures WeightBytes() == Behind(was, weights, 16 * vertexCount)
    {
      BehindTail(data[..], was, usedCapacity, inverseMatrices, 64 * numBones);
      BehindTail(data[..], was, usedCapacity, indices, 4 * vertexCount);
      BehindTail(data[..], was, usedCapacity, weights, 16 * vertexCount);
    }

    /**
     * `findUsedBones`: mark the used bones in a table, then write the marked
     * ids into usedBones in ascending order and count them.
     */
    method FindUsedBones(numVertices: nat)
      requires Valid() && numVertices <= vertexCount && numWeights <= 4
      requires |UsedBones(IndexBytes(), WeightBytes(), numVertices, numWeights)| <= usedCapacity
      modifies this`numUsedBones, data
      ensures Valid()
      ensures Record() == old(Record()).(numUsedBones := numUsedBones, usedBones := ViewBytes(usedBones, numUsedBones))
      ensures ViewBytes(usedBones, numUsedBones) == UsedBones(IndexBytes(), WeightBytes(), numVertices, numWeights)
    {
      var tab := MarkBones(numVertices);
      ghost var marked := Marked(IndexBytes(), WeightBytes(), numVertices, numWeights);
      numUsedBones := EmitUsed(tab, marked, usedCapacity);
      TailKept(old(data[..]));
    }
  
    /**
     * The old-format tail of `readSkin`: `findNumWeights` then
     * `findUsedBones`, which replace the weight count and the used-bone list
     * by the ones the vertex data give.
     */
    method DeriveOldFormat(numVertices: nat)
      requires Valid() && numVertices == vertexCount
      requires Derived(Record(), numVertices).numUsedBones <= usedCapacity
      modifies this`numWeights, this`numUsedBones, data
      ensures Valid() && Record() == Derived(old(Record()), numVertices)
    {
      FindNumWeights(numVertices);
      FindUsedBones(numVertices);
    }
  }
}
