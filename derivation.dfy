/**
 * Metadata that old-format skins do not store and that the reader rebuilds
 * from the vertex data: the number of weights in use (`findNumWeights`) and
 * the ascending list of bones that carry a nonzero weight (`findUsedBones`).
 *
 * `ws` is the weights array as raw bytes, one 16-byte tuple of four floats
 * per vertex; `idx` is the indices array, one 4-byte tuple per vertex.
 */
module Derivation {
  import opened Bytes

  /** The weight in slot `k` of vertex `v` compares unequal to 0.0f. */
  predicate Nonzero(ws: seq<byte>, v: nat, k: nat)
    requires k < 4 && 16 * (v + 1) <= |ws|
  {
    var p := 16 * v + 4 * k;
    !ZeroWeight(ws[p], ws[p + 1], ws[p + 2], ws[p + 3])
  }

  // ---------------------------------------------------------------- findNumWeights

  /**
   * The inner loop of `findNumWeights` on vertex `v`, entered with the
   * running count `k`: step past nonzero slots, stopping at 4.
   */
  function Advance(ws: seq<byte>, v: nat, k: nat): (r: nat)
    requires 1 <= k <= 4 && 16 * (v + 1) <= |ws|
    ensures k <= r <= 4
    decreases 4 - k
  {
    if k == 4 then 4 else if Nonzero(ws, v, k) then Advance(ws, v, k + 1) else k
  }

  /**
   * The count `findNumWeights` leaves after the first `n` vertices: it starts
   * at 1 and is carried from one vertex to the next, never reset.
   */
  function NumWeights(ws: seq<byte>, n: nat): (r: nat)
    requires 16 * n <= |ws|
    ensures 1 <= r <= 4
  {
    if n == 0 then 1 else Advance(ws, n - 1, NumWeights(ws, n - 1))
  }

  /** `Advance` stops at the first zero slot at or after `k`, or at 4. */
  lemma {:induction false} AdvanceStops(ws: seq<byte>, v: nat, k: nat)
    requires 1 <= k <= 4 && 16 * (v + 1) <= |ws|
    ensures forall j :: k <= j < Advance(ws, v, k) ==> Nonzero(ws, v, j)
    ensures Advance(ws, v, k) < 4 ==> !Nonzero(ws, v, Advance(ws, v, k))
    decreases 4 - k
  {
    if k < 4 && Nonzero(ws, v, k) {
      AdvanceStops(ws, v, k + 1);
    }
  }

  /** The count never decreases from one vertex to the next. */
  lemma {:induction false} NumWeightsMonotone(ws: seq<byte>, m: nat, n: nat)
    requires m <= n && 16 * n <= |ws|
    ensures NumWeights(ws, m) <= NumWeights(ws, n)
    decreases n - m
  {
    if m < n {
      NumWeightsMonotone(ws, m, n - 1);
    }
  }

  /** Once the count reaches 4 it stays there: the early return loses nothing. */
  lemma NumWeightsSaturates(ws: seq<byte>, m: nat, n: nat)
    requires m <= n && 16 * n <= |ws|
    requires NumWeights(ws, m) == 4
    ensures NumWeights(ws, n) == 4
  {
    NumWeightsMonotone(ws, m, n);
  }

  /** Only the zero-ness of slots 1 to 3 of each vertex matters; slot 0 is never read. */
  lemma {:induction false} NumWeightsReadsSlotsOneToThree(ws: seq<byte>, ws': seq<byte>, n: nat)
    requires 16 * n <= |ws| && 16 * n <= |ws'|
    requires forall v, k :: 0 <= v < n && 1 <= k < 4 ==> Nonzero(ws, v, k) == Nonzero(ws', v, k)
    ensures NumWeights(ws, n) == NumWeights(ws', n)
  {
    if n > 0 {
      NumWeightsReadsSlotsOneToThree(ws, ws', n - 1);
      AdvanceSameSlots(ws, ws', n - 1, NumWeights(ws, n - 1));
    }
  }

  lemma {:induction false} AdvanceSameSlots(ws: seq<byte>, ws': seq<byte>, v: nat, k: nat)
    requires 1 <= k <= 4 && 16 * (v + 1) <= |ws| && 16 * (v + 1) <= |ws'|
    requires forall j :: 1 <= j < 4 ==> Nonzero(ws, v, j) == Nonzero(ws', v, j)
    ensures Advance(ws, v, k) == Advance(ws', v, k)
    decreases 4 - k
  {
    if k < 4 {
      AdvanceSameSlots(ws, ws', v, k + 1);
    }
  }

  /** Vertex `v` is packed: once a slot from 1 on is zero, every later slot is zero too. */
  ghost predicate Packed(ws: seq<byte>, v: nat)
    requires 16 * (v + 1) <= |ws|
  {
    forall j, l :: 1 <= j < l < 4 && !Nonzero(ws, v, j) ==> !Nonzero(ws, v, l)
  }

  function Max(a: nat, b: nat): nat {
    if a < b then b else a
  }

  /** The largest per-vertex influence count, 1 plus the run of nonzero slots from slot 1. */
  function LongestRun(ws: seq<byte>, n: nat): (r: nat)
    requires 16 * n <= |ws|
  {
    if n == 0 then 1 else Max(LongestRun(ws, n - 1), Advance(ws, n - 1, 1))
  }

  /** On a packed vertex, entering with count `k` ends at the larger of `k` and the vertex's own run. */
  lemma {:induction false} AdvancePacked(ws: seq<byte>, v: nat, k: nat)
    requires 1 <= k <= 4 && 16 * (v + 1) <= |ws| && Packed(ws, v)
    ensures Advance(ws, v, k) == Max(k, Advance(ws, v, 1))
    decreases 4 - k
  {
    var run := Advance(ws, v, 1);
    AdvanceStops(ws, v, 1);
    if k < 4 {
      if Nonzero(ws, v, k) {
        AdvancePacked(ws, v, k + 1);
      }
    }
  }

  /**
   * When every vertex is packed, the carried count equals the largest
   * per-vertex influence count.
   */
  lemma {:induction false} NumWeightsOfPackedIsLongestRun(ws: seq<byte>, n: nat)
    requires 16 * n <= |ws|
    requires forall v :: 0 <= v < n ==> Packed(ws, v)
    ensures NumWeights(ws, n) == LongestRun(ws, n)
  {
    if n > 0 {
      NumWeightsOfPackedIsLongestRun(ws, n - 1);
      AdvancePacked(ws, n - 1, NumWeights(ws, n - 1));
    }
  }

  // ---------------------------------------------------------------- findUsedBones

  /** Slot `i` of vertex `v` has a nonzero weight and names bone `b`. */
  predicate Uses(idx: seq<byte>, ws: seq<byte>, v: nat, i: nat, b: byte) {
    i < 4 && 4 * (v + 1) <= |idx| && 16 * (v + 1) <= |ws| &&
    Nonzero(ws, v, i) && idx[4 * v + i] == b
  }

  /** The bones marked by slots `[0, i)` of vertex `v`. */
  function SlotBones(idx: seq<byte>, ws: seq<byte>, v: nat, i: nat): (r: set<int>)
    requires i <= 4 && 4 * (v + 1) <= |idx| && 16 * (v + 1) <= |ws|
    ensures forall b :: b in r ==> 0 <= b < 256
  {
    if i == 0 then {}
    else SlotBones(idx, ws, v, i - 1) +
         (if Nonzero(ws, v, i - 1) then {idx[4 * v + i - 1] as int} else {})
  }

  /** The presence table after the first `n` vertices, looking at slots `[0, nw)`. */
  function Marked(idx: seq<byte>, ws: seq<byte>, n: nat, nw: nat): (r: set<int>)
    requires nw <= 4 && 4 * n <= |idx| && 16 * n <= |ws|
    ensures forall b :: b in r ==> 0 <= b < 256
  {
    if n == 0 then {} else Marked(idx, ws, n - 1, nw) + SlotBones(idx, ws, n - 1, nw)
  }

  lemma {:induction false} SlotBonesMeansUses(idx: seq<byte>, ws: seq<byte>, v: nat, i: nat, b: byte)
    requires i <= 4 && 4 * (v + 1) <= |idx| && 16 * (v + 1) <= |ws|
    ensures (b as int) in SlotBones(idx, ws, v, i) <==> exists j :: 0 <= j < i && Uses(idx, ws, v, j, b)
  {
    if i > 0 {
      var last := i - 1;
      SlotBonesMeansUses(idx, ws, v, last, b);
      var here := Uses(idx, ws, v, last, b);
      assert (b as int) in SlotBones(idx, ws, v, i) <==>
             (b as int) in SlotBones(idx, ws, v, last) || here;
      if exists j :: 0 <= j < i && Uses(idx, ws, v, j, b) {
        var j :| 0 <= j < i && Uses(idx, ws, v, j, b);
        assert j < last || here;
      }
    }
  }

  /** A bone is marked exactly when some vertex has a nonzero weight for it in a slot below `nw`. */
  lemma {:induction false} MarkedMeansUsed(idx: seq<byte>, ws: seq<byte>, n: nat, nw: nat, b: byte)
    requires nw <= 4 && 4 * n <= |idx| && 16 * n <= |ws|
    ensures (b as int) in Marked(idx, ws, n, nw) <==>
            exists v, i :: 0 <= v < n && 0 <= i < nw && Uses(idx, ws, v, i, b)
  {
    if n > 0 {
      var last := n - 1;
      MarkedMeansUsed(idx, ws, last, nw, b);
      SlotBonesMeansUses(idx, ws, last, nw, b);
      if (b as int) in SlotBones(idx, ws, last, nw) {
        var j :| 0 <= j < nw && Uses(idx, ws, last, j, b);
        assert 0 <= last < n && 0 <= j < nw && Uses(idx, ws, last, j, b);
      }
      if exists v, i :: 0 <= v < n && 0 <= i < nw && Uses(idx, ws, v, i, b) {
        var v, i :| 0 <= v < n && 0 <= i < nw && Uses(idx, ws, v, i, b);
        if v == last {
          assert exists j :: 0 <= j < nw && Uses(idx, ws, last, j, b);
        } else {
          assert exists v', i' :: 0 <= v' < last && 0 <= i' < nw && Uses(idx, ws, v', i', b);
        }
      }
    }
  }

  /** The members of `s` below `n`, in ascending order, one byte each. */
  function Ascending(s: set<int>, n: nat): (r: seq<byte>)
    requires n <= 256
    ensures |r| <= n
  {
    if n == 0 then []
    else Ascending(s, n - 1) + (if n - 1 in s then [(n - 1) as byte] else [])
  }

  /** The list `findUsedBones` emits. */
  function UsedBones(idx: seq<byte>, ws: seq<byte>, n: nat, nw: nat): seq<byte>
    requires nw <= 4 && 4 * n <= |idx| && 16 * n <= |ws|
  {
    Ascending(Marked(idx, ws, n, nw), 256)
  }

  /** Every entry of the list is a member of `s` below `n`. */
  lemma {:induction false} AscendingSound(s: set<int>, n: nat)
    requires n <= 256
    ensures forall i :: 0 <= i < |Ascending(s, n)| ==>
              (Ascending(s, n)[i] as int) < n && (Ascending(s, n)[i] as int) in s
  {
    if n > 0 {
      var last := n - 1;
      AscendingSound(s, last);
      var r, prev := Ascending(s, n), Ascending(s, last);
      forall i | 0 <= i < |r| ensures (r[i] as int) < n && (r[i] as int) in s {
        if i < |prev| {
          assert r[i] == prev[i];
        } else {
          assert r[i] == last as byte;
        }
      }
    }
  }

  /** Every member of `s` below `n` is in the list. */
  lemma {:induction false} AscendingComplete(s: set<int>, n: nat, b: byte)
    requires n <= 256 && (b as int) < n && (b as int) in s
    ensures b in Ascending(s, n)
  {
    var last := n - 1;
    if (b as int) < last {
      AscendingComplete(s, last, b);
    } else {
      assert b == last as byte;
    }
  }

  lemma {:induction false} AscendingStrict(s: set<int>, n: nat)
    requires n <= 256
    ensures forall i, j :: 0 <= i < j < |Ascending(s, n)| ==> Ascending(s, n)[i] < Ascending(s, n)[j]
  {
    if n > 0 {
      var last := n - 1;
      AscendingStrict(s, last);
      AscendingSound(s, last);
      var r, prev := Ascending(s, n), Ascending(s, last);
      forall i, j | 0 <= i < j < |r| ensures r[i] < r[j] {
        if j < |prev| {
          assert r[i] == prev[i] && r[j] == prev[j];
        } else {
          assert r[i] == prev[i] && r[j] == last as byte;
        }
      }
    }
  }

  lemma {:induction false} AscendingGrows(s: set<int>, m: nat, n: nat)
    requires m <= n <= 256
    ensures |Ascending(s, m)| <= |Ascending(s, n)|
    decreases n - m
  {
    if m < n {
      AscendingGrows(s, m, n - 1);
    }
  }

  lemma {:induction false} AscendingCount(s: set<int>, n: nat)
    requires n <= 256
    ensures |Ascending(s, n)| == |set b | b in s && 0 <= b < n|
  {
    if n == 0 {
      assert (set b | b in s && 0 <= b < n) == {};
    } else {
      AscendingCount(s, n - 1);
      var below := set b | b in s && 0 <= b < n - 1;
      if n - 1 in s {
        assert (set b | b in s && 0 <= b < n) == below + {n - 1};
      } else {
        assert (set b | b in s && 0 <= b < n) == below;
      }
    }
  }

  /**
   * What `findUsedBones` promises: the list is strictly ascending, holds
   * exactly the bones some vertex weights with a nonzero weight in a slot
   * below `nw`, and its length is the number of such bones, at most 256.
   */
  lemma UsedBonesSpec(idx: seq<byte>, ws: seq<byte>, n: nat, nw: nat)
    requires nw <= 4 && 4 * n <= |idx| && 16 * n <= |ws|
    ensures forall i, j :: 0 <= i < j < |UsedBones(idx, ws, n, nw)| ==>
              UsedBones(idx, ws, n, nw)[i] < UsedBones(idx, ws, n, nw)[j]
    ensures forall b: byte :: b in UsedBones(idx, ws, n, nw) <==>
              exists v, i :: 0 <= v < n && 0 <= i < nw && Uses(idx, ws, v, i, b)
    ensures |UsedBones(idx, ws, n, nw)| == |Marked(idx, ws, n, nw)| <= 256
  {
    var s := Marked(idx, ws, n, nw);
    var r := UsedBones(idx, ws, n, nw);
    AscendingStrict(s, 256);
    AscendingSound(s, 256);
    AscendingCount(s, 256);
    assert (set b | b in s && 0 <= b < 256) == s;
    forall b: byte
      ensures b in r <==> exists v, i :: 0 <= v < n && 0 <= i < nw && Uses(idx, ws, v, i, b)
    {
      MarkedMeansUsed(idx, ws, n, nw, b);
      if (b as int) in s {
        AscendingComplete(s, 256, b);
      }
      if b in r {
        var k :| 0 <= k < |r| && r[k] == b;
      }
    }
  }

  // ---------------------------------------------------------------- worked examples

  /** Members of `s` at or above `m` do not change the list below `n` when none lies in `[m, n)`. */
  lemma {:induction false} AscendingBeyond(s: set<int>, m: nat, n: nat)
    requires m <= n <= 256
    requires forall b :: m <= b < n ==> b !in s
    ensures Ascending(s, n) == Ascending(s, m)
    decreases n - m
  {
    if m < n {
      AscendingBeyond(s, m, n - 1);
    }
  }

  /**
   * When every bone a nonzero weight names is below `numBones`, the list has
   * at most `numBones` entries: the old-format reader, which sizes usedBones
   * by the bone count, then has room for it.
   */
  lemma UsedBonesWithinBoneCount(idx: seq<byte>, ws: seq<byte>, n: nat, nw: nat, numBones: nat)
    requires nw <= 4 && 4 * n <= |idx| && 16 * n <= |ws| && numBones <= 256
    requires forall v, i :: 0 <= v < n && 0 <= i < nw && Nonzero(ws, v, i) ==> idx[4 * v + i] as int < numBones
    ensures |UsedBones(idx, ws, n, nw)| <= numBones
  {
    var s := Marked(idx, ws, n, nw);
    forall b | numBones <= b < 256
      ensures b !in s
    {
      MarkedMeansUsed(idx, ws, n, nw, b as byte);
    }
    AscendingBeyond(s, numBones, 256);
  }

  /**
   * Tuples shaped like [1, 0, 0, 0], [.5, .5, 0, 0] and [.3, .3, .3, .1] count
   * 1, 2 and 4 on their own, and 4 for the mesh.
   */
  lemma NumWeightsExample(ws: seq<byte>)
    requires 48 <= |ws|
    requires !Nonzero(ws, 0, 1)
    requires Nonzero(ws, 1, 1) && !Nonzero(ws, 1, 2)
    requires Nonzero(ws, 2, 1) && Nonzero(ws, 2, 2) && Nonzero(ws, 2, 3)
    ensures Advance(ws, 0, 1) == 1 && Advance(ws, 1, 1) == 2 && Advance(ws, 2, 1) == 4
    ensures NumWeights(ws, 3) == 4
  {
    assert NumWeights(ws, 1) == 1;
    assert NumWeights(ws, 2) == 2;
    assert Advance(ws, 2, 2) == 4;
  }

  /**
   * The carried count is not the per-vertex maximum: two vertices weighting
   * slots 0 and 1, then slots 0 and 2 (say [1, .5, 0, 0] and [1, 0, .5, 0])
   * give 3, one more than either vertex's leading run.
   */
  lemma CarriedCountExceedsLongestRun(ws: seq<byte>)
    requires 32 <= |ws|
    requires Nonzero(ws, 0, 1) && !Nonzero(ws, 0, 2)
    requires !Nonzero(ws, 1, 1) && Nonzero(ws, 1, 2) && !Nonzero(ws, 1, 3)
    ensures NumWeights(ws, 2) == 3 && LongestRun(ws, 2) == 2
  {
    assert Advance(ws, 0, 1) == 2 && NumWeights(ws, 1) == 2;
    assert Advance(ws, 1, 2) == 3;
    assert Advance(ws, 1, 1) == 1 && LongestRun(ws, 1) == 2;
  }

  /** Two vertices weighting bones 5 and 2, then 5 and 9, mark {2, 5, 9}. */
  lemma ExampleMarked(idx: seq<byte>, ws: seq<byte>)
    requires 8 <= |idx| && 32 <= |ws|
    requires idx[0] == 5 && idx[1] == 2 && idx[4] == 5 && idx[5] == 9
    requires Nonzero(ws, 0, 0) && Nonzero(ws, 0, 1) && Nonzero(ws, 1, 0) && Nonzero(ws, 1, 1)
    ensures Marked(idx, ws, 2, 2) == {2, 5, 9}
  {
    assert SlotBones(idx, ws, 0, 1) == {5};
    assert SlotBones(idx, ws, 0, 2) == {5} + {2};
    assert SlotBones(idx, ws, 1, 1) == {5};
    assert SlotBones(idx, ws, 1, 2) == {5} + {9};
    assert Marked(idx, ws, 1, 2) == {5, 2};
  }

  /** The only strictly ascending list of the members of {2, 5, 9}. */
  lemma AscendingOfThree(s: set<int>)
    requires s == {2, 5, 9}
    ensures Ascending(s, 256) == [2, 5, 9]
  {
    var r := Ascending(s, 256);
    AscendingStrict(s, 256);
    AscendingSound(s, 256);
    AscendingCount(s, 256);
    assert (set b | b in s && 0 <= b < 256) == s;
    assert |r| == 3;
    assert r[0] < r[1] < r[2];
  }

  /** Nonzero weights on bones 5, 2, 5, 9 give the list [2, 5, 9]. */
  lemma UsedBonesExample(idx: seq<byte>, ws: seq<byte>)
    requires 8 <= |idx| && 32 <= |ws|
    requires idx[0] == 5 && idx[1] == 2 && idx[4] == 5 && idx[5] == 9
    requires Nonzero(ws, 0, 0) && Nonzero(ws, 0, 1) && Nonzero(ws, 1, 0) && Nonzero(ws, 1, 1)
    ensures UsedBones(idx, ws, 2, 2) == [2, 5, 9]
  {
    ExampleMarked(idx, ws);
    AscendingOfThree(Marked(idx, ws, 2, 2));
  }
}
