/** Where each element of a flat tensor ends up in the nested output: row-major order. */
module RowMajor {
  import opened Basics
  import opened TensorNesting
  import opened TensorRoundTrip

  /** The element reached by indexing level by level, outermost first. */
  function ElementAt(data: Json, index: seq<nat>): Option<Json>
    decreases |index|
  {
    if index == [] then Some(data)
    else if data.Arr? && index[0] < |data.items| then ElementAt(data.items[index[0]], index[1..])
    else None
  }

  ghost predicate InRange(index: seq<nat>, dims: seq<int>) {
    |index| == |dims| && forall k :: 0 <= k < |index| ==> index[k] < dims[k]
  }

  /** The row-major position: each index times the product of the dimensions inside it. */
  function Offset(index: seq<nat>, dims: seq<int>): int
    requires |index| == |dims|
  {
    if index == [] then 0
    else index[0] * Product(dims[1..]) + Offset(index[1..], dims[1..])
  }

  lemma {:induction false} OffsetLast(index: seq<nat>, dims: seq<int>)
    requires |index| == |dims| > 0
    ensures var n := |dims| - 1;
            Offset(index, dims) == Offset(index[..n], dims[..n]) * dims[n] + index[n]
  {
    var n := |dims| - 1;
    if n == 0 {
      assert Product(dims[1..]) == 1;
    } else {
      OffsetLast(index[1..], dims[1..]);
      assert dims[1..][..n - 1] == dims[..n][1..] && index[1..][..n - 1] == index[..n][1..];
      var inner := Product(dims[..n][1..]);
      assert Product(dims[1..]) == inner * dims[n];
      var rest := Offset(index[..n][1..], dims[..n][1..]);
      Horner(index[0], inner, rest, dims[n]);
    }
  }

  lemma Horner(i: int, inner: int, rest: int, d: int)
    ensures i * (inner * d) + rest * d == (i * inner + rest) * d
  {
  }

  lemma {:induction false} ElementAtLast(data: Json, index: seq<nat>)
    requires index != []
    ensures var n := |index| - 1;
            ElementAt(data, index) ==
            match ElementAt(data, index[..n])
            case Some(inner) => ElementAt(inner, [index[n]])
            case None => None
    decreases |index|
  {
    var n := |index| - 1;
    if n == 0 {
      assert index == [index[0]];
    } else if data.Arr? && index[0] < |data.items| {
      ElementAtLast(data.items[index[0]], index[1..]);
      assert index[1..][..n - 1] == index[..n][1..];
    }
  }

  lemma OffsetBound(head: int, rows: int, last: int, d: int)
    requires 0 <= head < rows && 0 <= last < d
    ensures 0 <= head * d + last < rows * d
  {
    assert head * d + d == (head + 1) * d;
    assert (head + 1) * d <= rows * d;
  }

  /** The element of the nested output at `index` is the flat value at the row-major position of `index`. */
  lemma {:induction false} FitIsRowMajor(values: seq<Json>, shape: seq<int>, depth: nat, index: seq<nat>)
    requires 1 <= depth <= |shape| && AllPositive(shape[..depth])
    requires |values| == Product(shape[..depth])
    requires InRange(index, shape[..depth])
    ensures 0 <= Offset(index, shape[..depth]) < |values|
    ensures ElementAt(Arr(Fit(values, shape, depth)), index) == Some(values[Offset(index, shape[..depth])])
    decreases depth
  {
    var dims := shape[..depth];
    var n := depth - 1;
    OffsetLast(index, dims);
    if depth == 1 {
      assert dims[..0] == [] && index[..0] == [];
      assert Product(dims) == dims[0];
      assert ElementAt(values[index[0]], []) == Some(values[index[0]]);
      assert index[1..] == [];
    } else {
      var d := shape[n];
      var outer := index[..n];
      assert shape[..n] == dims[..n];
      ProductPositive(dims);
      RowsFit(values, shape, depth);
      var rows := Rows(values, shape, depth);
      var chunks := Chunk(values, d, rows);
      FitIsRowMajor(chunks, shape, n, outer);
      var head := Offset(outer, shape[..n]);
      OffsetBound(head, rows, index[n], d);
      ElementAtLast(Arr(Fit(values, shape, depth)), index);
      ChunkRow(values, d, rows, head);
      assert [index[n]][1..] == [];
    }
  }
}
