/** Flattening a nested JSON tensor, inferring its shape, and rebuilding the nesting of an output. */
module TensorNesting {
  import opened Basics

  // ---------------------------------------------------------------- flattening

  /** Every non-array value of a nested tensor, left to right. */
  function Flat(data: Json): seq<Json>
    decreases data, 1
  {
    if data.Arr? then FlatAll(data.items) else [data]
  }

  function FlatAll(xs: seq<Json>): seq<Json>
    decreases xs, 0
  {
    if xs == [] then [] else Flat(xs[0]) + FlatAll(xs[1..])
  }

  lemma {:induction false} FlatAllConcat(xs: seq<Json>, ys: seq<Json>)
    ensures FlatAll(xs + ys) == FlatAll(xs) + FlatAll(ys)
  {
    if xs == [] {
      assert xs + ys == ys;
    } else {
      assert (xs + ys)[1..] == xs[1..] + ys;
      FlatAllConcat(xs[1..], ys);
    }
  }

  method FlatJsonValues(data: Json, jsonValues: Vector<Json>)
    modifies jsonValues
    ensures jsonValues.items == old(jsonValues.items) + Flat(data)
    decreases data
  {
    if data.Arr? {
      for i := 0 to |data.items|
        invariant jsonValues.items == old(jsonValues.items) + FlatAll(data.items[..i])
      {
        FlatJsonValues(data.items[i], jsonValues);
        assert data.items[..i + 1] == data.items[..i] + [data.items[i]];
        FlatAllConcat(data.items[..i], [data.items[i]]);
      }
      assert data.items[..|data.items|] == data.items;
    } else {
      jsonValues.PushBack(data);
    }
  }

  // ---------------------------------------------------------------- shape inference

  /** What one call of the shape walk leaves in the accumulator it shares with its callers. */
  function ShapeWalk(data: Json, count: nat, acc: seq<int>): seq<int>
    decreases data
  {
    var walked :=
      if data.Arr? && count != 0 && data.items != [] then
        ShapeWalk(data.items[0], count - 1, acc + [|data.items|])
      else acc;
    PadTo(walked, count)
  }

  /** The one that a call appends when the accumulator is that long as it returns. */
  function PadTo(walked: seq<int>, count: nat): seq<int> {
    if |walked| == count - 1 then walked + [1] else walked
  }

  method CalcShape(data: Json, count: nat, inputShape: Vector<int>)
    modifies inputShape
    ensures inputShape.items == ShapeWalk(data, count, old(inputShape.items))
    decreases data
  {
    var isFirstVal := true;
    if data.Arr? && count != 0 {
      var i := 0;
      while i < |data.items|
        invariant i <= |data.items|
        invariant isFirstVal ==> i == 0 && inputShape.items == old(inputShape.items)
        invariant !isFirstVal ==> data.items != []
        invariant !isFirstVal ==>
          inputShape.items == ShapeWalk(data.items[0], count - 1, old(inputShape.items) + [|data.items|])
      {
        if isFirstVal {
          isFirstVal := false;
          inputShape.PushBack(|data.items|);
          CalcShape(data.items[i], count - 1, inputShape);
        } else {
          break;
        }
        i := i + 1;
      }
    }
    if |inputShape.items| == count - 1 {
      inputShape.PushBack(1);
    }
  }

  /** The lengths of the non-empty arrays met by always entering the first child, at most `rank` of them. */
  function Spine(data: Json, rank: nat): (dims: seq<int>)
    ensures |dims| <= rank
    ensures AllPositive(dims)
    decreases data
  {
    if data.Arr? && rank != 0 && data.items != [] then
      [|data.items|] + Spine(data.items[0], rank - 1)
    else []
  }

  function Ones(n: nat): (ones: seq<int>)
    ensures |ones| == n
  {
    if n == 0 then [] else Ones(n - 1) + [1]
  }

  /** The closed form of shape inference: pad the spine with ones to the rank, if it is long enough. */
  function InferredShape(data: Json, rank: nat): seq<int>
  {
    Padded(Spine(data, rank), rank)
  }

  function Padded(dims: seq<int>, rank: nat): seq<int>
    requires |dims| <= rank
  {
    if 2 * |dims| + 1 >= rank then dims + Ones(rank - |dims|) else dims
  }

  /** How many ones a call entered with `entered` levels recorded appends, when the walk ends with `k` of `rank`. */
  function PaddingFrom(entered: nat, k: nat, rank: nat): nat {
    if 2 * k + 1 >= rank && rank > k + entered then rank - k - entered else 0
  }

  lemma {:induction false} ShapeWalkGeneral(data: Json, count: nat, acc: seq<int>)
    ensures ShapeWalk(data, count, acc) ==
            acc + Spine(data, count) + Ones(PaddingFrom(|acc|, |acc| + |Spine(data, count)|, |acc| + count))
    decreases data
  {
    if data.Arr? && count != 0 && data.items != [] {
      var size, inner := |data.items|, Spine(data.items[0], count - 1);
      ShapeWalkGeneral(data.items[0], count - 1, acc + [size]);
      Regroup(acc, [size], inner);
      ReturnOneLevel(acc + ([size] + inner), |acc|, count);
    } else {
      AddOne(acc, 0);
      assert acc + [] == acc;
    }
  }

  /** Coming back from a first child adds a one exactly when the walk has left the accumulator that long. */
  lemma ReturnOneLevel(walked: seq<int>, entered: nat, count: nat)
    requires count >= 1 && entered < |walked| <= entered + count
    ensures PadTo(walked + Ones(PaddingFrom(entered + 1, |walked|, entered + count)), count) ==
            walked + Ones(PaddingFrom(entered, |walked|, entered + count))
  {
    AddOne(walked, PaddingFrom(entered + 1, |walked|, entered + count));
  }

  lemma AddOne(walked: seq<int>, n: nat)
    ensures walked + Ones(n) + [1] == walked + Ones(n + 1)
    ensures walked + Ones(0) == walked
  {
  }

  /** Shape inference pads the spine exactly when 2k + 1 reaches the rank, and otherwise leaves it bare. */
  lemma {:induction false} ShapeWalkClosedForm(data: Json, rank: nat)
    ensures ShapeWalk(data, rank, []) == InferredShape(data, rank)
    ensures |ShapeWalk(data, rank, [])| == rank <==> 2 * |Spine(data, rank)| + 1 >= rank
  {
    ShapeWalkGeneral(data, rank, []);
    PaddedFromStart(ShapeWalk(data, rank, []), [], Spine(data, rank), rank);
  }

  lemma PaddedFromStart(walked: seq<int>, acc: seq<int>, dims: seq<int>, rank: nat)
    requires |dims| <= rank && acc == []
    requires walked == acc + dims + Ones(PaddingFrom(|acc|, |acc| + |dims|, |acc| + rank))
    ensures walked == Padded(dims, rank)
    ensures |walked| == rank <==> 2 * |dims| + 1 >= rank
  {
    assert acc + dims == dims;
    assert dims + Ones(0) == dims;
  }

  predicate AllPositive(dims: seq<int>) {
    forall i :: 0 <= i < |dims| ==> dims[i] >= 1
  }

  // ---------------------------------------------------------------- rectangular tensors

  /** `data` is an array of arrays ... of non-array values, with exactly these lengths level by level. */
  ghost predicate Rectangular(data: Json, dims: seq<int>)
    decreases |dims|, 0
  {
    if dims == [] then !data.Arr?
    else data.Arr? && |data.items| == dims[0] && AllRectangular(data.items, dims[1..])
  }

  ghost predicate AllRectangular(xs: seq<Json>, dims: seq<int>)
    decreases |dims|, 1
  {
    forall i :: 0 <= i < |xs| ==> Rectangular(xs[i], dims)
  }

  function Product(dims: seq<int>): int
  {
    if dims == [] then 1 else Product(dims[..|dims| - 1]) * dims[|dims| - 1]
  }

  lemma {:induction false} ProductFront(dims: seq<int>)
    requires dims != []
    ensures Product(dims) == dims[0] * Product(dims[1..])
  {
    var n := |dims| - 1;
    if n > 0 {
      ProductFront(dims[..n]);
      assert dims[..n][1..] == dims[1..][..n - 1];
      var inner := Product(dims[1..n]);
      assert dims[1..][..n - 1] == dims[1..n];
      assert dims[0] * inner * dims[n] == dims[0] * (inner * dims[n]);
    }
  }

  lemma {:induction false} ProductConcat(a: seq<int>, b: seq<int>)
    ensures Product(a + b) == Product(a) * Product(b)
  {
    if b == [] {
      assert a + b == a;
    } else {
      var n := |b| - 1;
      assert (a + b)[..|a + b| - 1] == a + b[..n];
      ProductConcat(a, b[..n]);
      assert Product(a) * Product(b[..n]) * b[n] == Product(a) * (Product(b[..n]) * b[n]);
    }
  }

  lemma {:induction false} ProductPositive(dims: seq<int>)
    requires AllPositive(dims)
    ensures Product(dims) >= 1
  {
    if dims != [] {
      ProductPositive(dims[..|dims| - 1]);
    }
  }

  /** Entering first children of rectangular data reads off the dimensions, up to the rank or the first empty level. */
  lemma {:induction false} SpineOfRectangular(data: Json, dims: seq<int>, rank: nat)
    requires Rectangular(data, dims)
    ensures AllPositive(dims) && rank <= |dims| ==> Spine(data, rank) == dims[..rank]
    ensures AllPositive(dims) && rank > |dims| ==> Spine(data, rank) == dims
    ensures dims != [] && dims[0] == 0 ==> Spine(data, rank) == []
    decreases |dims|
  {
    if dims != [] && rank != 0 && data.items != [] {
      SpineOfRectangular(data.items[0], dims[1..], rank - 1);
      assert dims == [dims[0]] + dims[1..];
    }
  }

  lemma {:induction false} FlatLength(data: Json, dims: seq<int>)
    requires Rectangular(data, dims)
    ensures |Flat(data)| == Product(dims)
    decreases |dims|, 1
  {
    if dims != [] {
      FlatAllLength(data.items, dims[1..]);
      ProductFront(dims);
    }
  }

  lemma {:induction false} FlatAllLength(xs: seq<Json>, dims: seq<int>)
    requires AllRectangular(xs, dims)
    ensures |FlatAll(xs)| == |xs| * Product(dims)
    decreases |dims|, 2, |xs|
  {
    if xs != [] {
      FlatLength(xs[0], dims);
      FlatAllLength(xs[1..], dims);
      assert |xs| * Product(dims) == Product(dims) + (|xs| - 1) * Product(dims);
    }
  }

  // ---------------------------------------------------------------- rebuilding the nesting

  /** `values` cut into `rows` consecutive arrays of `dim` elements. */
  function Chunk(values: seq<Json>, dim: int, rows: nat): (chunks: seq<Json>)
    requires |values| == rows * dim
    requires rows > 0 ==> dim >= 1
    ensures |chunks| == rows
    decreases rows
  {
    if rows == 0 then []
    else
      RowsLeft(rows, dim);
      [Arr(values[..dim])] + Chunk(values[dim..], dim, rows - 1)
  }

  lemma RowsLeft(rows: int, dim: int)
    ensures (rows - 1) * dim == rows * dim - dim
    ensures rows >= 1 && dim >= 1 ==> dim <= rows * dim
  {
    if rows >= 1 && dim >= 1 {
      assert (rows - 1) * dim >= 0;
    }
  }

  /** What reading a tensor of this shape needs: as many values as the shape asks for, possibly none. */
  predicate Fits(values: seq<Json>, shape: seq<int>, depth: nat) {
    && 1 <= depth <= |shape|
    && (values == [] || (|values| == Product(shape[..depth]) && AllPositive(shape[..depth])))
  }

  function Rows(values: seq<Json>, shape: seq<int>, depth: nat): nat
    requires Fits(values, shape, depth) && depth > 1
  {
    if values == [] then 0
    else
      assert AllPositive(shape[..depth - 1]) by { assert shape[..depth - 1] == shape[..depth][..depth - 1]; }
      ProductPositive(shape[..depth - 1]);
      Product(shape[..depth - 1])
  }

  lemma RowsFit(values: seq<Json>, shape: seq<int>, depth: nat)
    requires Fits(values, shape, depth) && depth > 1
    ensures |values| == Rows(values, shape, depth) * shape[depth - 1]
    ensures Rows(values, shape, depth) > 0 ==> shape[depth - 1] >= 1
    ensures forall rows: seq<Json> :: |rows| == Rows(values, shape, depth) ==> Fits(rows, shape, depth - 1)
  {
    assert shape[..depth - 1] == shape[..depth][..depth - 1];
    assert values != [] ==> shape[..depth][depth - 1] == shape[depth - 1];
  }

  /** The nesting rebuilt from the innermost dimension outwards, for the first `depth` dimensions. */
  function Fit(values: seq<Json>, shape: seq<int>, depth: nat): seq<Json>
    requires Fits(values, shape, depth)
    decreases depth
  {
    if depth == 1 then values
    else
      RowsFit(values, shape, depth);
      Fit(Chunk(values, shape[depth - 1], Rows(values, shape, depth)), shape, depth - 1)
  }

  /**
   * The regrouping on every input; none where the source reads outside the shape (rank zero, whose depth wraps) or
   * outside the values (a last group that is not full), or never ends (a dimension that is not positive).
   */
  function Regrouped(values: seq<Json>, shape: seq<int>, depth: nat): Option<seq<Json>>
    requires depth <= |shape|
    decreases depth
  {
    if depth == 0 then None
    else if depth == 1 then Some(values)
    else
      var dim := shape[depth - 1];
      if values == [] then Regrouped([], shape, depth - 1)
      else if dim <= 0 || |values| % dim != 0 then None
      else
        FullGroups(|values|, dim);
        Regrouped(Chunk(values, dim, |values| / dim), shape, depth - 1)
  }

  lemma FullGroups(n: nat, dim: int)
    requires dim >= 1 && n % dim == 0
    ensures n == n / dim * dim && (n > 0 ==> n / dim >= 1)
  {
  }

  /** The recursion of the source: regroup by the last dimension not yet used, then go one level out. */
  method ValuesFitShape(values: seq<Json>, shape: seq<int>, outerDepth: nat) returns (nested: Option<seq<Json>>)
    requires outerDepth <= |shape|
    ensures nested == Regrouped(values, shape, outerDepth)
    decreases outerDepth
  {
    if outerDepth == 0 {
      return None;
    }
    var depth := outerDepth - 1;
    if depth <= 0 {
      return Some(values);
    }

    var dim := shape[depth];
    var result: seq<Json> := [];
    ghost var done: nat := 0;
    var i := 0;
    while i < |values|
      invariant Grouped(values, i, dim, done, result)
      decreases |values| - i
    {
      if dim <= 0 || i + dim > |values| {
        LastGroupIsShort(values, i, dim, done, result);
        return None;
      }
      var row: seq<Json> := [];
      for p := i to i + dim
        invariant row == values[i..p]
      {
        row := row + [values[p]];
      }
      OneGroup(values, i, dim, done, result);
      result := result + [Arr(row)];
      i := i + dim;
      done := done + 1;
    }
    AllGrouped(values, dim, done, result);
    nested := ValuesFitShape(result, shape, depth);
  }

  /** The values before `i` are grouped into `result`. */
  ghost predicate Grouped(values: seq<Json>, i: int, dim: int, done: nat, result: seq<Json>) {
    && 0 <= i <= |values| && i == done * dim && (done > 0 ==> dim >= 1)
    && result == Chunk(values[..i], dim, done)
  }

  lemma OneGroup(values: seq<Json>, i: nat, dim: int, done: nat, result: seq<Json>)
    requires Grouped(values, i, dim, done, result) && dim >= 1 && i + dim <= |values|
    ensures Grouped(values, i + dim, dim, done + 1, result + [Arr(values[i..i + dim])])
  {
    assert (done + 1) * dim == i + dim;
    assert values[..i + dim] == values[..i] + values[i..i + dim];
    ChunkOneMore(values[..i], values[i..i + dim], dim, done);
  }

  lemma {:induction false} ChunkOneMore(values: seq<Json>, row: seq<Json>, dim: int, rows: nat)
    requires dim >= 1 && |values| == rows * dim && |row| == dim
    ensures |values + row| == (rows + 1) * dim
    ensures Chunk(values + row, dim, rows + 1) == Chunk(values, dim, rows) + [Arr(row)]
    decreases rows
  {
    RowsLeft(rows + 1, dim);
    if rows == 0 {
      assert values + row == row && row[..dim] == row && row[dim..] == [];
    } else {
      RowsLeft(rows, dim);
      assert (values + row)[..dim] == values[..dim] && (values + row)[dim..] == values[dim..] + row;
      ChunkOneMore(values[dim..], row, dim, rows - 1);
      Regroup([Arr(values[..dim])], Chunk(values[dim..], dim, rows - 1), [Arr(row)]);
    }
  }

  lemma LastGroupIsShort(values: seq<Json>, i: nat, dim: int, done: nat, result: seq<Json>)
    requires Grouped(values, i, dim, done, result) && i < |values| && (dim <= 0 || i + dim > |values|)
    ensures dim <= 0 || |values| % dim != 0
  {
    if dim >= 1 {
      ShortRemainder(|values|, dim, done);
    }
  }

  lemma ShortRemainder(n: nat, dim: int, done: nat)
    requires dim >= 1 && done * dim < n < done * dim + dim
    ensures n % dim != 0
  {
    if n % dim == 0 {
      FullGroups(n, dim);
      var q := n / dim;
      if q <= done { MulMonotone(q, done, dim); } else { MulMonotone(done + 1, q, dim); }
    }
  }

  lemma AllGrouped(values: seq<Json>, dim: int, done: nat, result: seq<Json>)
    requires Grouped(values, |values|, dim, done, result)
    ensures values == [] ==> result == []
    ensures values != [] ==> dim >= 1 && |values| % dim == 0 && done == |values| / dim
    ensures values != [] ==> done * dim == |values| && result == Chunk(values, dim, done)
  {
    assert values[..|values|] == values;
    if values == [] {
      NoGroups(done, dim);
    } else {
      WholeQuotient(done, dim);
    }
  }

  lemma NoGroups(done: nat, dim: int)
    requires done * dim == 0 && (done > 0 ==> dim >= 1)
    ensures done == 0
  {
  }

  lemma WholeQuotient(q: nat, d: int)
    requires d >= 1
    ensures q * d / d == q && q * d % d == 0
  {
    var gap := q * d / d - q;
    assert q * d % d == -(gap * d);
    if gap >= 1 { MulMonotone(1, gap, d); } else if gap <= -1 { MulMonotone(gap, -1, d); }
  }

  /** Values that fit the shape are regrouped to the nesting of the shape. */
  lemma {:induction false} FittingIsRegrouped(values: seq<Json>, shape: seq<int>, depth: nat)
    requires Fits(values, shape, depth)
    ensures Regrouped(values, shape, depth) == Some(Fit(values, shape, depth))
    decreases depth
  {
    if depth > 1 {
      RowsFit(values, shape, depth);
      var rows := Rows(values, shape, depth);
      if values != [] { WholeQuotient(rows, shape[depth - 1]); }
      FittingIsRegrouped(Chunk(values, shape[depth - 1], rows), shape, depth - 1);
    }
  }

  /** The regrouping is defined exactly when the inner dimensions are positive and divide the number of values. */
  lemma {:induction false} RegroupedExactly(values: seq<Json>, shape: seq<int>, depth: nat)
    requires depth <= |shape|
    ensures Regrouped(values, shape, depth).Some? <==>
            depth >= 1 && (values == [] || Divides(|values|, shape[1..depth]))
    decreases depth
  {
    if depth == 1 {
      assert shape[1..1] == [];
    } else if depth > 1 {
      var dim, inner := shape[depth - 1], shape[1..depth - 1];
      assert shape[1..depth][..depth - 2] == inner && shape[1..depth][depth - 2] == dim;
      if values == [] {
        RegroupedExactly([], shape, depth - 1);
      } else if dim >= 1 && |values| % dim == 0 {
        FullGroups(|values|, dim);
        RegroupedExactly(Chunk(values, dim, |values| / dim), shape, depth - 1);
        DividesOneMore(|values|, inner, dim);
        assert inner + [dim] == shape[1..depth];
      } else {
        DividesLast(|values|, inner, dim);
        assert inner + [dim] == shape[1..depth];
      }
    }
  }

  /** All dimensions are positive and their product divides `n`. */
  predicate Divides(n: nat, dims: seq<int>) {
    AllPositive(dims) && (ProductPositive(dims); n % Product(dims) == 0)
  }

  lemma DividesOneMore(n: nat, dims: seq<int>, d: int)
    requires d >= 1 && n % d == 0
    ensures n / d >= 0
    ensures Divides(n, dims + [d]) <==> Divides(n / d, dims)
  {
    PositiveAppended(dims, d);
    if AllPositive(dims) {
      ProductPositive(dims);
      assert (dims + [d])[..|dims|] == dims;
      FullGroups(n, d);
      DividedTwice(n / d, Product(dims), d);
    }
  }

  lemma DividesLast(n: nat, dims: seq<int>, d: int)
    requires d <= 0 || n % d != 0
    ensures !Divides(n, dims + [d])
  {
    PositiveAppended(dims, d);
    if AllPositive(dims) && d >= 1 {
      ProductPositive(dims);
      assert (dims + [d])[..|dims|] == dims;
      NotDivided(n, Product(dims), d);
    }
  }

  lemma PositiveAppended(dims: seq<int>, d: int)
    ensures AllPositive(dims + [d]) <==> AllPositive(dims) && d >= 1
  {
    assert (dims + [d])[|dims|] == d;
    assert forall i :: 0 <= i < |dims| ==> (dims + [d])[i] == dims[i];
  }

  lemma DividedTwice(m: nat, p: int, d: int)
    requires p >= 1 && d >= 1
    ensures p * d >= 1 && (m * d % (p * d) == 0 <==> m % p == 0)
  {
    var q, r := m / p, m % p;
    MulMonotone(1, p, d);
    assert m == q * p + r;
    assert m * d == q * (p * d) + r * d by { Distribute(q, p, r, d); }
    MulMonotone(r + 1, p, d);
    assert r * d >= 0;
    QuotientAndRest(q, p * d, r * d);
    if r > 0 { MulMonotone(1, r, d); }
  }

  lemma Distribute(q: int, p: int, r: int, d: int)
    ensures (q * p + r) * d == q * (p * d) + r * d
  {
  }

  lemma QuotientAndRest(q: int, d: int, r: int)
    requires d >= 1 && 0 <= r < d
    ensures (q * d + r) % d == r
  {
    var x := q * d + r;
    var gap := x / d - q;
    assert gap * d == r - x % d;
    if gap >= 1 { MulMonotone(1, gap, d); } else if gap <= -1 { MulMonotone(gap, -1, d); }
  }

  lemma NotDivided(n: nat, p: int, d: int)
    requires p >= 1 && d >= 1 && n % d != 0
    ensures p * d >= 1 && n % (p * d) != 0
  {
    MulMonotone(1, p, d);
    var q := n / (p * d);
    if n % (p * d) == 0 {
      assert n == q * (p * d) == q * p * d;
      QuotientAndRest(q * p, d, 0);
    }
  }
}
