/** Flattening, shape inference and nesting undo each other, and exactly when they do. */
module TensorRoundTrip {
  import opened Basics
  import opened TensorNesting

  // ---------------------------------------------------------------- nesting keeps the values and their order

  lemma {:induction false} ChunkKeepsLeaves(values: seq<Json>, dim: int, rows: nat)
    requires |values| == rows * dim
    requires rows > 0 ==> dim >= 1
    ensures FlatAll(Chunk(values, dim, rows)) == FlatAll(values)
    decreases rows
  {
    if rows == 0 {
      assert values == [];
    } else {
      RowsLeft(rows, dim);
      var row := Arr(values[..dim]);
      ChunkKeepsLeaves(values[dim..], dim, rows - 1);
      assert FlatAll([row]) == Flat(row) by { assert [row][1..] == []; }
      FlatAllConcat([row], Chunk(values[dim..], dim, rows - 1));
      FlatAllConcat(values[..dim], values[dim..]);
      assert values[..dim] + values[dim..] == values;
    }
  }

  lemma {:induction false} FitKeepsLeaves(values: seq<Json>, shape: seq<int>, depth: nat)
    requires Fits(values, shape, depth)
    ensures FlatAll(Fit(values, shape, depth)) == FlatAll(values)
    decreases depth
  {
    if depth > 1 {
      RowsFit(values, shape, depth);
      var rows := Rows(values, shape, depth);
      ChunkKeepsLeaves(values, shape[depth - 1], rows);
      FitKeepsLeaves(Chunk(values, shape[depth - 1], rows), shape, depth - 1);
    }
  }

  lemma {:induction false} FlatAllOfLeaves(values: seq<Json>)
    requires AllRectangular(values, [])
    ensures FlatAll(values) == values
  {
    if values != [] {
      assert Rectangular(values[0], []);
      FlatAllOfLeaves(values[1..]);
    }
  }

  // ---------------------------------------------------------------- nesting produces the asked-for shape

  lemma ChunkRow(values: seq<Json>, dim: int, rows: nat, i: nat)
    requires |values| == rows * dim
    requires i < rows && dim >= 1
    ensures 0 <= i * dim && i * dim + dim <= |values|
    ensures Chunk(values, dim, rows)[i] == Arr(values[i * dim..i * dim + dim])
    decreases rows
  {
    RowsLeft(rows, dim);
    if i > 0 {
      ChunkRow(values[dim..], dim, rows - 1, i - 1);
      assert (i - 1) * dim == i * dim - dim;
      assert values[dim..][i * dim - dim..i * dim] == values[i * dim..i * dim + dim];
    }
  }

  lemma ChunkIsRectangular(values: seq<Json>, dim: int, rows: nat, inner: seq<int>)
    requires |values| == rows * dim && dim >= 1
    requires AllRectangular(values, inner)
    ensures AllRectangular(Chunk(values, dim, rows), [dim] + inner)
  {
    forall i | 0 <= i < rows
      ensures Rectangular(Chunk(values, dim, rows)[i], [dim] + inner)
    {
      ChunkRow(values, dim, rows, i);
      assert ([dim] + inner)[1..] == inner;
    }
  }

  lemma {:induction false} FitIsRectangular(values: seq<Json>, shape: seq<int>, depth: nat, inner: seq<int>)
    requires 1 <= depth <= |shape| && AllPositive(shape[..depth])
    requires |values| == Product(shape[..depth])
    requires AllRectangular(values, inner)
    ensures Rectangular(Arr(Fit(values, shape, depth)), shape[..depth] + inner)
    decreases depth
  {
    var dims := shape[..depth];
    ProductPositive(dims);
    if depth == 1 {
      assert dims[..0] == [];
      assert Product(dims) == dims[0];
      assert (dims + inner)[1..] == inner;
    } else {
      RowsFit(values, shape, depth);
      var rows := Rows(values, shape, depth);
      var dim := shape[depth - 1];
      assert dims[depth - 1] == dim;
      ChunkIsRectangular(values, dim, rows, inner);
      assert AllPositive(shape[..depth - 1]) by { assert shape[..depth - 1] == dims[..depth - 1]; }
      FitIsRectangular(Chunk(values, dim, rows), shape, depth - 1, [dim] + inner);
      assert shape[..depth - 1] + ([dim] + inner) == dims + inner;
    }
  }

  /** An output tensor, read back: nesting it and then flattening and measuring it loses nothing. */
  lemma FittedOutputReadsBack(values: seq<Json>, shape: seq<int>)
    requires shape != [] && AllPositive(shape)
    requires |values| == Product(shape) && AllRectangular(values, [])
    ensures Fits(values, shape, |shape|)
    ensures var nested := Arr(Fit(values, shape, |shape|));
            Flat(nested) == values && ShapeWalk(nested, |shape|, []) == shape
  {
    var r := |shape|;
    assert shape[..r] == shape;
    var nested := Arr(Fit(values, shape, r));
    FitKeepsLeaves(values, shape, r);
    FlatAllOfLeaves(values);
    FitIsRectangular(values, shape, r, []);
    assert shape + [] == shape;
    SpineOfRectangular(nested, shape, r);
    ShapeWalkClosedForm(nested, r);
    assert shape + Ones(0) == shape;
  }

  // ---------------------------------------------------------------- nesting undoes flattening

  /** One level of nesting removed. */
  function Peel(xs: seq<Json>): seq<Json>
  {
    if xs == [] then []
    else (if xs[0].Arr? then xs[0].items else [xs[0]]) + Peel(xs[1..])
  }

  lemma {:induction false} PeelKeepsLeaves(xs: seq<Json>)
    ensures FlatAll(Peel(xs)) == FlatAll(xs)
  {
    if xs != [] {
      var head := if xs[0].Arr? then xs[0].items else [xs[0]];
      assert FlatAll(head) == Flat(xs[0]) by {
        if !xs[0].Arr? { assert head[1..] == []; }
      }
      FlatAllConcat(head, Peel(xs[1..]));
      PeelKeepsLeaves(xs[1..]);
    }
  }

  lemma AllRectangularConcat(xs: seq<Json>, ys: seq<Json>, dims: seq<int>)
    requires AllRectangular(xs, dims) && AllRectangular(ys, dims)
    ensures AllRectangular(xs + ys, dims)
  {
    forall i | 0 <= i < |xs + ys| ensures Rectangular((xs + ys)[i], dims) {
      assert (xs + ys)[i] == if i < |xs| then xs[i] else ys[i - |xs|];
    }
  }

  lemma {:induction false} ChunkUndoesPeel(xs: seq<Json>, dims: seq<int>)
    requires dims != [] && dims[0] >= 1 && AllRectangular(xs, dims)
    ensures |Peel(xs)| == |xs| * dims[0]
    ensures AllRectangular(Peel(xs), dims[1..])
    ensures Chunk(Peel(xs), dims[0], |xs|) == xs
  {
    if xs != [] {
      var d := dims[0];
      ChunkUndoesPeel(xs[1..], dims);
      assert Rectangular(xs[0], dims);
      var head, tail := xs[0].items, Peel(xs[1..]);
      RowsLeft(|xs|, d);
      AllRectangularConcat(head, tail, dims[1..]);
      assert Peel(xs)[..d] == head && Peel(xs)[d..] == tail;
      assert xs == [Arr(head)] + xs[1..];
    }
  }

  /** Values still nested below `depth` can be flattened first: regrouping rebuilds them before going further out. */
  lemma {:induction false} FitOfFlat(xs: seq<Json>, shape: seq<int>, depth: nat)
    requires 1 <= depth <= |shape| && AllPositive(shape)
    requires |xs| == Product(shape[..depth]) && AllRectangular(xs, shape[depth..])
    ensures Fits(FlatAll(xs), shape, |shape|) && Fits(xs, shape, depth)
    ensures Fit(FlatAll(xs), shape, |shape|) == Fit(xs, shape, depth)
    decreases |shape| - depth
  {
    if depth == |shape| {
      FlatAllOfLeaves(xs);
    } else {
      var ys := Peel(xs);
      ChunkUndoesPeel(xs, shape[depth..]);
      PeelKeepsLeaves(xs);
      assert shape[..depth + 1][..depth] == shape[..depth];
      assert shape[depth..][1..] == shape[depth + 1..];
      FitOfFlat(ys, shape, depth + 1);
      FitUnfolds(ys, xs, shape, depth);
    }
  }

  lemma FitUnfolds(ys: seq<Json>, xs: seq<Json>, shape: seq<int>, depth: nat)
    requires 1 <= depth < |shape| && AllPositive(shape)
    requires Fits(ys, shape, depth + 1)
    requires |xs| == Product(shape[..depth]) && |ys| == |xs| * shape[depth]
    requires Chunk(ys, shape[depth], |xs|) == xs
    ensures Fits(xs, shape, depth)
    ensures Fit(ys, shape, depth + 1) == Fit(xs, shape, depth)
  {
    ProductPositive(shape[..depth]);
    RowsLeft(|xs|, shape[depth]);
    assert ys != [];
  }

  /** The data survives flattening, shape inference, the rank check and nesting. */
  ghost predicate RoundTrips(data: Json, rank: nat)
    requires data.Arr?
  {
    var shape := ShapeWalk(data, rank, []);
    && |shape| == rank
    && Fits(Flat(data), shape, rank)
    && Fit(Flat(data), shape, rank) == data.items
  }

  /** Rectangular data round-trips exactly when no dimension is zero, or it is the empty vector. */
  lemma TensorRoundTrip(data: Json, dims: seq<int>)
    requires dims != [] && Rectangular(data, dims)
    ensures RoundTrips(data, |dims|) <==> AllPositive(dims) || dims == [0]
  {
    ShapeWalkClosedForm(data, |dims|);
    SpineOfRectangular(data, dims, |dims|);
    if AllPositive(dims) {
      PositiveRoundTrips(data, dims);
    } else {
      ZeroRoundTrips(data, dims);
    }
  }

  lemma PositiveRoundTrips(data: Json, dims: seq<int>)
    requires dims != [] && Rectangular(data, dims) && AllPositive(dims)
    ensures RoundTrips(data, |dims|)
  {
    ShapeWalkClosedForm(data, |dims|);
    SpineOfRectangular(data, dims, |dims|);
    assert dims[..|dims|] + Ones(0) == dims;
    assert Product(dims[..1]) == dims[0] by { assert dims[..1][..0] == []; }
    FitOfFlat(data.items, dims, 1);
  }

  lemma {:induction false} FitOfNothing(shape: seq<int>, depth: nat)
    requires 1 <= depth <= |shape|
    ensures Fit([], shape, depth) == []
    decreases depth
  {
    if depth > 1 {
      FitOfNothing(shape, depth - 1);
    }
  }

  lemma {:induction false} NothingInside(data: Json, dims: seq<int>)
    requires Rectangular(data, dims) && !AllPositive(dims)
    ensures Flat(data) == []
    decreases |dims|
  {
    FlatLength(data, dims);
    ProductFront(dims);
    if dims[0] > 0 {
      NothingInside(data.items[0], dims[1..]);
      FlatLength(data.items[0], dims[1..]);
    }
  }

  /** With a zero dimension nothing is left to rebuild the nesting from. */
  lemma ZeroRoundTrips(data: Json, dims: seq<int>)
    requires dims != [] && Rectangular(data, dims) && !AllPositive(dims)
    ensures RoundTrips(data, |dims|) <==> dims == [0]
  {
    var shape := ShapeWalk(data, |dims|, []);
    ShapeWalkClosedForm(data, |dims|);
    SpineOfRectangular(data, dims, |dims|);
    NothingInside(data, dims);
    if |shape| == |dims| {
      FitOfNothing(shape, |dims|);
    }
  }
}
