/** What flattening and shape inference read of data of any shape, ragged or not. */
module TensorLeaves {
  import opened Basics
  import opened TensorNesting
  import opened RowMajor

  // ---------------------------------------------------------------- flattening

  /** `v` is a value that indexing into `data` leads to, and no array. */
  ghost predicate IsLeafOf(data: Json, v: Json) {
    !v.Arr? && exists index :: ElementAt(data, index) == Some(v)
  }

  /** Flattening gives exactly the values that are not arrays, however deep and uneven the nesting. */
  lemma {:induction false} FlatHoldsLeaves(data: Json, v: Json)
    ensures v in Flat(data) <==> IsLeafOf(data, v)
    decreases data, 1
  {
    if data.Arr? {
      FlatAllHoldsLeaves(data.items, v);
      if i: nat :| i < |data.items| && IsLeafOf(data.items[i], v) {
        var index :| ElementAt(data.items[i], index) == Some(v);
        assert ([i] + index)[1..] == index;
        assert ElementAt(data, [i] + index) == Some(v);
      }
      if IsLeafOf(data, v) {
        var index :| ElementAt(data, index) == Some(v);
        assert ElementAt(data.items[index[0]], index[1..]) == Some(v);
        assert IsLeafOf(data.items[index[0]], v);
      }
    } else {
      assert ElementAt(data, []) == Some(data);
    }
  }

  lemma {:induction false} FlatAllHoldsLeaves(xs: seq<Json>, v: Json)
    ensures v in FlatAll(xs) <==> exists i :: 0 <= i < |xs| && IsLeafOf(xs[i], v)
    decreases xs, 0
  {
    if xs != [] {
      FlatHoldsLeaves(xs[0], v);
      FlatAllHoldsLeaves(xs[1..], v);
      if i :| 0 <= i < |xs[1..]| && IsLeafOf(xs[1..][i], v) {
        assert IsLeafOf(xs[i + 1], v);
      }
      if i :| 0 <= i < |xs| && IsLeafOf(xs[i], v) && i > 0 {
        assert xs[1..][i - 1] == xs[i];
      }
    }
  }

  /** The leaves of an array are those of its elements, in order. */
  lemma FlatKeepsOrder(xs: seq<Json>, ys: seq<Json>)
    ensures Flat(Arr(xs + ys)) == Flat(Arr(xs)) + Flat(Arr(ys))
  {
    FlatAllConcat(xs, ys);
  }

  // ---------------------------------------------------------------- the spine

  function Zeros(n: nat): (index: seq<nat>)
    ensures |index| == n
  {
    if n == 0 then [] else [0] + Zeros(n - 1)
  }

  /** Each dimension is the length of the array at index (0, ..., 0), and the spine ends at the rank or where there is none. */
  lemma {:induction false} SpineReadsFirstChildren(data: Json, rank: nat, k: nat)
    requires k <= |Spine(data, rank)|
    ensures ElementAt(data, Zeros(k)).Some?
    ensures var inner := ElementAt(data, Zeros(k)).value;
            if k < |Spine(data, rank)| then inner.Arr? && |inner.items| == Spine(data, rank)[k] > 0
            else k == rank || !inner.Arr? || inner.items == []
    decreases k
  {
    if k > 0 {
      SpineReadsFirstChildren(data.items[0], rank - 1, k - 1);
      assert Zeros(k)[1..] == Zeros(k - 1);
    }
  }
}
