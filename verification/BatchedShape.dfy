/** The second shape inference: filling the dynamic dimension of a model shape from the number of values. */
module BatchedShape {
  import opened Basics
  import opened TensorNesting

  const EXACT_DOUBLES := 0x20_0000_0000_0000 // 2^53: below it every integer is a double

  // ---------------------------------------------------------------- ceiling of a double quotient

  function Max(a: int, b: int): int {
    if a >= b then a else b
  }

  function CeilDiv(a: int, s: int): int
    requires s >= 1
  {
    -((-a) / s)
  }

  lemma CeilDivBounds(a: int, s: int)
    requires s >= 1
    ensures (CeilDiv(a, s) - 1) * s < a <= CeilDiv(a, s) * s
  {
    var q := (-a) / s;
    assert -a == q * s + (-a) % s;
    assert (-q - 1) * s == -(q * s) - s;
    assert (-q) * s == -(q * s);
  }

  lemma CeilDivUnique(a: int, s: int, c: int)
    requires s >= 1 && (c - 1) * s < a <= c * s
    ensures c == CeilDiv(a, s)
  {
    CeilDivBounds(a, s);
    var d := CeilDiv(a, s);
    if c < d {
      MulMonotone(c, d - 1, s);
    } else if d < c {
      MulMonotone(d, c - 1, s);
    }
  }

  /**
   * `q` is a correctly rounded quotient of two integers: half a unit in the last place off, exact where a / s is. From
   * 2^53 on, where the divisor itself is rounded, only the range is known.
   */
  ghost predicate IsDoubleQuotient(q: real, a: nat, s: int)
    requires s != 0
  {
    if s < 0 then q <= 0.0
    else if s < EXACT_DOUBLES then
      && (a % s == 0 ==> q * s as real == a as real)
      && -(a as real) <= (q * s as real - a as real) * EXACT_DOUBLES as real <= a as real
    else (a == 0 ==> q == 0.0) && (0 < a < EXACT_DOUBLES ==> 0.0 < q <= 1.0)
  }

  /** Stands for floating-point division; callers know only that the result is correctly rounded. */
  method DoubleQuotient(a: nat, s: int) returns (q: real)
    requires s != 0
    ensures IsDoubleQuotient(q, a, s)
  {
    q := a as real / s as real;
    QuotientInRange(a as real, s as real, q);
  }

  lemma QuotientInRange(a: real, s: real, q: real)
    requires a >= 0.0 && s != 0.0 && q == a / s
    ensures q * s == a
    ensures s < 0.0 ==> q <= 0.0
    ensures s > 0.0 ==> (a == 0.0 ==> q == 0.0) && (0.0 < a ==> q > 0.0) && (a < s ==> q <= 1.0)
  {
    assert q * s == a;
    if s > 0.0 && q > 1.0 {
      assert (q - 1.0) * s > 0.0;
    }
  }

  function Ceil(q: real): int {
    -((-q).Floor)
  }

  /** Below 2^53 the rounded quotient never crosses an integer, so its ceiling is the exact one. */
  lemma DoubleCeilIsExact(q: real, a: nat, s: nat)
    requires a < EXACT_DOUBLES && s >= 1
    requires IsDoubleQuotient(q, a, s)
    ensures Ceil(q) == CeilDiv(a, s)
  {
    if s < EXACT_DOUBLES {
      SmallDivisor(q, a, s);
    } else {
      CeilDivUnique(a, s, if a == 0 then 0 else 1);
    }
  }

  lemma SmallDivisor(q: real, a: nat, s: nat)
    requires a < EXACT_DOUBLES && 1 <= s < EXACT_DOUBLES
    requires IsDoubleQuotient(q, a, s)
    ensures Ceil(q) == CeilDiv(a, s)
  {
    CeilDivBounds(a, s);
    var c := CeilDiv(a, s);
    var error := q * s as real - a as real;
    SmallError(error, a, EXACT_DOUBLES);
    if a % s == 0 {
      assert a == (a / s) * s;
      CeilDivUnique(a, s, a / s);
      ScaledOrder(q, c, s);
    } else {
      NotAMultiple(a, s, c);
      ScaledOrder(q, c, s);
      ScaledOrder(q, c - 1, s);
    }
  }

  lemma NotAMultiple(a: nat, s: nat, c: int)
    requires s >= 1 && a % s != 0 && (c - 1) * s < a <= c * s
    ensures (c - 1) * s + 1 <= a <= c * s - 1
  {
    MultipleOf(c, s);
  }

  lemma SmallError(e: real, a: int, bound: int)
    requires 0 <= a < bound && -(a as real) <= e * bound as real <= a as real
    ensures -1.0 < e < 1.0
  {
    ScaledOrder(e, 1, bound);
    ScaledOrder(e, -1, bound);
  }

  /** Scaling by a positive integer keeps the order of a real and an integer. */
  lemma ScaledOrder(q: real, c: int, s: nat)
    requires s >= 1
    ensures q * s as real < (c * s) as real <==> q < c as real
    ensures q * s as real > (c * s) as real <==> q > c as real
  {
    assert (c * s) as real == c as real * s as real;
    var gap := q - c as real;
    assert gap * s as real == q * s as real - c as real * s as real;
  }

  // ---------------------------------------------------------------- the operation

  /** A model shape: dynamic dimensions are -1, the others positive. */
  predicate ModelShape(shape: seq<int>) {
    forall i :: 0 <= i < |shape| ==> shape[i] == -1 || 1 <= shape[i]
  }

  /** The dimensions that are not dynamic. */
  function Fixed(shape: seq<int>): seq<int>
  {
    if shape == [] then []
    else
      var n := |shape| - 1;
      if shape[n] == -1 then Fixed(shape[..n]) else Fixed(shape[..n]) + [shape[n]]
  }

  lemma {:induction false} FixedPositive(shape: seq<int>)
    requires ModelShape(shape)
    ensures AllPositive(Fixed(shape)) && Product(Fixed(shape)) >= 1
  {
    if shape != [] {
      FixedPositive(shape[..|shape| - 1]);
    }
    ProductPositive(Fixed(shape));
  }

  /** The batch size a shape gets: one division by the product of its fixed dimensions. */
  function BatchSize(shape: seq<int>, valueCount: nat): int
    requires ModelShape(shape)
  {
    FixedPositive(shape);
    if Fixed(shape) == [] then valueCount
    else Max(1, CeilDiv(valueCount, Product(Fixed(shape))))
  }

  /** Dividing and rounding up twice is dividing by the product and rounding up once. */
  lemma CeilDivTwice(n: nat, p: int, s: int)
    requires p >= 1 && s >= 1
    ensures p * s >= 1
    ensures Max(1, CeilDiv(Max(1, CeilDiv(n, p)), s)) == Max(1, CeilDiv(n, p * s))
  {
    assert p * s >= 1 by { MulMonotone(1, p, s); }
    var c := CeilDiv(n, p);
    NestedCeilDiv(n, p, s);
    CeilDivBounds(n, p);
    if c < 1 {
      assert c * p <= 0 by { MulMonotone(c, 0, p); }
      CeilDivUnique(0, p * s, 0);
      CeilDivUnique(1, s, 1);
    }
  }

  lemma NestedCeilDiv(n: nat, p: int, s: int)
    requires p >= 1 && s >= 1 && p * s >= 1
    ensures CeilDiv(CeilDiv(n, p), s) == CeilDiv(n, p * s)
  {
    var c := CeilDiv(n, p);
    var d := CeilDiv(c, s);
    CeilDivBounds(n, p);
    CeilDivBounds(c, s);
    MulMonotone(c, d * s, p);
    Reassociate(d, s, p);
    MulMonotone((d - 1) * s, c - 1, p);
    Reassociate(d - 1, s, p);
    CeilDivUnique(n, p * s, d);
  }

  lemma Reassociate(d: int, s: int, p: int)
    ensures d * s * p == d * (p * s)
  {
  }

  lemma BatchSizeStep(shape: seq<int>, i: nat, valueCount: nat)
    requires ModelShape(shape) && i < |shape|
    ensures ModelShape(shape[..i]) && ModelShape(shape[..i + 1])
    ensures shape[i] == -1 ==> BatchSize(shape[..i + 1], valueCount) == BatchSize(shape[..i], valueCount)
    ensures shape[i] != -1 ==>
              BatchSize(shape[..i + 1], valueCount) == Max(1, CeilDiv(BatchSize(shape[..i], valueCount), shape[i]))
  {
    var before, after := shape[..i], shape[..i + 1];
    assert after[..i] == before;
    if shape[i] != -1 {
      FixedPositive(before);
      var fixed := Fixed(before);
      assert (fixed + [shape[i]])[..|fixed|] == fixed;
      if fixed == [] {
        assert Product(fixed) == 1;
      } else {
        CeilDivTwice(valueCount, Product(fixed), shape[i]);
      }
    }
  }

  /**
   * What the source computes is defined: a zero dimension divides only a count of zero. Otherwise it converts an
   * infinite double to an integer.
   */
  ghost predicate Defined(shape: seq<int>, valueCount: nat) {
    forall i :: 0 <= i < |shape| && shape[i] == 0 ==> valueCount == 0 && Fixed(shape[..i]) == []
  }

  /** The batch size of any shape: one as soon as a fixed dimension is not positive. */
  function Batch(shape: seq<int>, valueCount: nat): int {
    if ModelShape(shape) then BatchSize(shape, valueCount) else 1
  }

  lemma {:induction false} FixedOfModel(shape: seq<int>)
    ensures ModelShape(shape) <==> AllPositive(Fixed(shape))
    ensures ModelShape(shape) || Fixed(shape) != []
  {
    if shape != [] {
      var n := |shape| - 1;
      FixedOfModel(shape[..n]);
      PositiveAppended(Fixed(shape[..n]), shape[n]);
      assert ModelShape(shape) <==> ModelShape(shape[..n]) && (shape[n] == -1 || shape[n] >= 1);
    }
  }

  /** Without dimensions the batch size is the number of values. */
  lemma BatchOfNothing(valueCount: nat)
    ensures Defined([], valueCount) && Batch([], valueCount) == valueCount
  {
  }

  /** What one more dimension does to the batch size. */
  lemma BatchStep(shape: seq<int>, i: nat, valueCount: nat)
    requires i < |shape| && Defined(shape[..i], valueCount)
    ensures var (before, after) := (Batch(shape[..i], valueCount), Batch(shape[..i + 1], valueCount));
            && (shape[i] == -1 ==> after == before && Defined(shape[..i + 1], valueCount))
            && (shape[i] >= 1 ==> after == Max(1, CeilDiv(before, shape[i])) && Defined(shape[..i + 1], valueCount))
            && (shape[i] < -1 ==> after == 1 && Defined(shape[..i + 1], valueCount))
            && (shape[i] == 0 ==> after == 1 && (Defined(shape[..i + 1], valueCount) <==> before == 0))
  {
    var front, all := shape[..i], shape[..i + 1];
    assert all[..i] == front && all[i] == shape[i];
    DefinedStep(shape, i, valueCount);
    FixedOfModel(front);
    if ModelShape(front) {
      BatchIsZero(front, valueCount);
      if shape[i] == -1 || shape[i] >= 1 {
        assert ModelShape(all);
        PositiveStep(all, i, valueCount);
      } else {
        assert !ModelShape(all);
      }
    } else {
      var j :| 0 <= j < |front| && !(front[j] == -1 || 1 <= front[j]);
      assert all[j] == front[j];
      if shape[i] >= 1 { CeilDivUnique(1, shape[i], 1); }
    }
  }

  lemma PositiveStep(all: seq<int>, i: nat, valueCount: nat)
    requires |all| == i + 1 && ModelShape(all)
    ensures ModelShape(all[..i])
    ensures all[i] == -1 ==> BatchSize(all, valueCount) == BatchSize(all[..i], valueCount)
    ensures all[i] != -1 ==> BatchSize(all, valueCount) == Max(1, CeilDiv(BatchSize(all[..i], valueCount), all[i]))
  {
    assert all[..i + 1] == all;
    BatchSizeStep(all, i, valueCount);
  }

  lemma BatchIsZero(shape: seq<int>, valueCount: nat)
    requires ModelShape(shape)
    ensures BatchSize(shape, valueCount) == 0 <==> valueCount == 0 && Fixed(shape) == []
  {
    FixedPositive(shape);
  }

  lemma DefinedStep(shape: seq<int>, i: nat, valueCount: nat)
    requires i < |shape| && Defined(shape[..i], valueCount)
    ensures Defined(shape[..i + 1], valueCount) <==> shape[i] != 0 || (valueCount == 0 && Fixed(shape[..i]) == [])
  {
    var front, all := shape[..i], shape[..i + 1];
    assert all[i] == shape[i] && all[..i] == front;
    forall j | 0 <= j < i ensures all[j] == front[j] && all[..j] == front[..j] {
    }
  }

  /** A larger shape cannot be defined if a part of it is not. */
  lemma DefinedFront(shape: seq<int>, i: nat, valueCount: nat)
    requires i <= |shape| && Defined(shape, valueCount)
    ensures Defined(shape[..i], valueCount)
  {
    forall j | 0 <= j < i ensures shape[..i][j] == shape[j] && shape[..i][..j] == shape[..j] {
    }
  }

  /** None where the source would convert an infinite double to an integer. */
  method BatchedShape(shape: seq<int>, valueCount: nat) returns (result: Option<seq<int>>)
    requires valueCount < EXACT_DOUBLES
    ensures -1 !in shape ==> result == Some(shape)
    ensures -1 in shape ==> (result.Some? <==> Defined(shape, valueCount))
    ensures forall k :: 0 <= k < |shape| && shape[k] == -1 && -1 !in shape[..k] && result.Some? ==>
              result == Some(shape[k := Batch(shape, valueCount)])
  {
    if -1 !in shape {
      return Some(shape);
    }

    var shapeCopy := shape;
    var batch: int := valueCount;
    for i := 0 to |shapeCopy|
      invariant Defined(shape[..i], valueCount)
      invariant 0 <= batch < EXACT_DOUBLES && batch == Batch(shape[..i], valueCount)
    {
      BatchStep(shape, i, valueCount);
      var s := shapeCopy[i];
      if s == 0 {
        // the quotient is not a number, which the maximum ignores, or infinite
        if batch != 0 {
          assert !Defined(shape, valueCount) by {
            if Defined(shape, valueCount) { DefinedFront(shape, i + 1, valueCount); }
          }
          return None;
        }
        batch := 1;
      } else if s != -1 {
        var quotient := DoubleQuotient(batch, s);
        CeilOfQuotient(quotient, batch, s);
        batch := Max(1, Ceil(quotient));
      }
    }
    assert shape[..|shape|] == shape;

    for i := 0 to |shapeCopy|
      invariant shapeCopy == shape && -1 !in shape[..i]
    {
      if shapeCopy[i] == -1 {
        shapeCopy := shapeCopy[i := batch];
        break;
      }
    }
    result := Some(shapeCopy);
  }

  lemma CeilOfQuotient(q: real, a: nat, s: int)
    requires a < EXACT_DOUBLES && s != 0 && IsDoubleQuotient(q, a, s)
    ensures Max(1, Ceil(q)) == (if s < 0 then 1 else Max(1, CeilDiv(a, s))) < EXACT_DOUBLES
  {
    if s > 0 {
      DoubleCeilIsExact(q, a, s);
      CeilDivShrinks(a, s);
    }
  }

  lemma CeilDivShrinks(a: nat, s: int)
    requires s >= 1
    ensures 0 <= CeilDiv(a, s) <= a
  {
    CeilDivBounds(a, s);
    var c := CeilDiv(a, s);
    if c < 0 {
      MulMonotone(c, -1, s);
    } else if c > a {
      MulMonotone(a, c - 1, s);
      MulMonotone(1, s, a);
    }
  }

  // ---------------------------------------------------------------- what the batch size means

  /** Exactly one dimension is dynamic. */
  ghost predicate OneDynamic(shape: seq<int>, k: nat) {
    k < |shape| && shape[k] == -1 && forall i :: 0 <= i < |shape| && i != k ==> shape[i] != -1
  }

  /** The batch size is the only one whose rows the values fill, the last of them at least in part. */
  lemma BatchSizeIsUnique(shape: seq<int>, valueCount: nat, b: int)
    requires ModelShape(shape) && valueCount >= 1
    ensures var p := Product(Fixed(shape));
            p * (b - 1) < valueCount <= p * b <==> b == BatchSize(shape, valueCount)
  {
    FixedPositive(shape);
    var p := Product(Fixed(shape));
    var batch := BatchSize(shape, valueCount);
    CeilDivBounds(valueCount, p);
    if CeilDiv(valueCount, p) < 1 {
      MulMonotone(CeilDiv(valueCount, p), 0, p);
    }
    if Fixed(shape) == [] {
      CeilDivUnique(valueCount, 1, valueCount);
    }
    assert batch == CeilDiv(valueCount, p);
    if p * (b - 1) < valueCount <= p * b {
      CeilDivUnique(valueCount, p, b);
    }
  }

  lemma {:induction false} ProductOfPermutation(a: seq<int>, b: seq<int>)
    requires multiset(a) == multiset(b)
    ensures Product(a) == Product(b)
  {
    if a == [] {
      assert |multiset(b)| == 0;
    } else {
      assert a[0] in multiset(b);
      var j :| 0 <= j < |b| && b[j] == a[0];
      RemoveMatching(a, b, j);
      ProductOfPermutation(a[1..], b[..j] + b[j + 1..]);
      ProductWithout(b, j);
      ProductFront(a);
    }
  }

  lemma RemoveMatching(a: seq<int>, b: seq<int>, j: nat)
    requires a != [] && multiset(a) == multiset(b)
    requires j < |b| && b[j] == a[0]
    ensures multiset(a[1..]) == multiset(b[..j] + b[j + 1..])
  {
    assert a == [a[0]] + a[1..];
    assert multiset(a) == multiset{a[0]} + multiset(a[1..]);
    assert b == b[..j] + ([b[j]] + b[j + 1..]);
    assert multiset(b) == multiset(b[..j]) + (multiset{b[j]} + multiset(b[j + 1..]));
    var rest := multiset(b[..j] + b[j + 1..]);
    assert multiset(a[1..]) == multiset(a) - multiset{a[0]};
    assert rest == multiset(b) - multiset{a[0]};
  }

  lemma ProductWithout(b: seq<int>, j: nat)
    requires j < |b|
    ensures Product(b) == b[j] * Product(b[..j] + b[j + 1..])
  {
    var left, right := b[..j], b[j + 1..];
    assert b == left + b[j..] && b[j..][1..] == right;
    ProductConcat(left, b[j..]);
    ProductFront(b[j..]);
    ProductConcat(left, right);
    Swap(Product(left), b[j], Product(right));
  }

  lemma Swap(left: int, x: int, right: int)
    ensures left * (x * right) == x * (left * right)
  {
  }

  lemma {:induction false} FixedMultiset(shape: seq<int>)
    ensures multiset(Fixed(shape)) == multiset(shape)[-1 := 0]
  {
    if shape != [] {
      var n := |shape| - 1;
      FixedMultiset(shape[..n]);
      assert shape == shape[..n] + [shape[n]];
    }
  }

  /** The order of the dimensions does not matter. */
  lemma BatchSizeIgnoresOrder(shape: seq<int>, other: seq<int>, valueCount: nat)
    requires ModelShape(shape) && ModelShape(other)
    requires multiset(shape) == multiset(other)
    ensures BatchSize(shape, valueCount) == BatchSize(other, valueCount)
  {
    FixedMultiset(shape);
    FixedMultiset(other);
    ProductOfPermutation(Fixed(shape), Fixed(other));
    assert |multiset(Fixed(shape))| == |Fixed(shape)| && |multiset(Fixed(other))| == |Fixed(other)|;
  }

  lemma {:induction false} FixedWithoutDynamic(shape: seq<int>, k: nat)
    requires OneDynamic(shape, k)
    ensures Fixed(shape) == shape[..k] + shape[k + 1..]
  {
    var n := |shape| - 1;
    if k == n {
      AllFixed(shape[..n]);
    } else {
      FixedWithoutDynamic(shape[..n], k);
      assert shape[..n][..k] == shape[..k];
    }
  }

  lemma {:induction false} AllFixed(shape: seq<int>)
    requires -1 !in shape
    ensures Fixed(shape) == shape
  {
    if shape != [] {
      AllFixed(shape[..|shape| - 1]);
    }
  }

  lemma ProductOfFilled(shape: seq<int>, k: nat, b: int)
    requires OneDynamic(shape, k)
    ensures Product(shape[k := b]) == b * Product(Fixed(shape))
  {
    FixedWithoutDynamic(shape, k);
    ProductWithout(shape[k := b], k);
    assert shape[k := b][..k] == shape[..k] && shape[k := b][k + 1..] == shape[k + 1..];
  }

  /** The filled shape holds exactly the given values iff the fixed part divides their number. */
  lemma FilledShapeHoldsValues(shape: seq<int>, k: nat, valueCount: nat)
    requires ModelShape(shape) && OneDynamic(shape, k) && valueCount >= 1
    ensures Product(Fixed(shape)) >= 1
    ensures Product(shape[k := BatchSize(shape, valueCount)]) == valueCount <==>
            valueCount % Product(Fixed(shape)) == 0
  {
    FixedPositive(shape);
    var b := BatchSize(shape, valueCount);
    ProductOfFilled(shape, k, b);
    BatchSizeIsUnique(shape, valueCount, b);
    ExactlyFilled(valueCount, Product(Fixed(shape)), b);
  }

  lemma ExactlyFilled(n: int, p: int, b: int)
    requires p >= 1 && p * (b - 1) < n <= p * b
    ensures b * p == n <==> n % p == 0
  {
    Commute(b, p);
    Commute(b - 1, p);
    CeilDivUnique(n, p, b);
    if n % p == 0 {
      DividesExactly(n, p);
      CeilDivUnique(n, p, n / p);
    } else {
      MultipleOf(b, p);
    }
  }

  lemma Commute(a: int, b: int)
    ensures a * b == b * a
  {
  }

  lemma DividesExactly(n: int, p: int)
    requires p >= 1 && n % p == 0
    ensures n == (n / p) * p && (n / p - 1) * p < n
  {
  }

  lemma MultipleOf(b: int, p: int)
    requires p >= 1
    ensures (b * p) % p == 0
  {
    var gap := b - (b * p) / p;
    assert (b * p) % p == gap * p;
    if gap >= 1 {
      MulMonotone(1, gap, p);
    } else if gap < 0 {
      MulMonotone(gap, -1, p);
    }
  }

  // ---------------------------------------------------------------- agreement with the nesting

  /** An inferred shape that agrees with every fixed dimension is what the value count alone would have given. */
  lemma InferencesAgree(model: seq<int>, k: nat, inferred: seq<int>)
    requires ModelShape(model) && OneDynamic(model, k)
    requires |inferred| == |model| && AllPositive(inferred)
    requires forall i :: 0 <= i < |model| && i != k ==> inferred[i] == model[i]
    ensures Product(inferred) >= 1
    ensures model[k := BatchSize(model, Product(inferred))] == inferred
  {
    ProductPositive(inferred);
    var b := inferred[k];
    assert model[k := b] == inferred;
    ProductOfFilled(model, k, b);
    FixedPositive(model);
    FullRows(Product(Fixed(model)), b);
    BatchSizeIsUnique(model, Product(inferred), b);
  }

  lemma FullRows(p: int, b: int)
    requires p >= 1
    ensures p * (b - 1) < b * p <= p * b
  {
  }

  /** For rectangular data the accepted shape accounts for every value exactly when nothing is nested below the rank. */
  lemma InferredShapeCountsValues(data: Json, dims: seq<int>, rank: nat)
    requires Rectangular(data, dims) && AllPositive(dims)
    requires 2 * (if |dims| <= rank then |dims| else rank) + 1 >= rank
    ensures |ShapeWalk(data, rank, [])| == rank
    ensures Product(ShapeWalk(data, rank, [])) == |Flat(data)| <==>
            |dims| <= rank || Product(dims[rank..]) == 1
  {
    ShapeWalkClosedForm(data, rank);
    SpineOfRectangular(data, dims, rank);
    FlatLength(data, dims);
    KeptCounts(ShapeWalk(data, rank, []), Spine(data, rank), |Flat(data)|, dims, rank);
  }

  lemma KeptCounts(shape: seq<int>, kept: seq<int>, count: nat, dims: seq<int>, rank: nat)
    requires AllPositive(dims) && count == Product(dims) && 2 * |kept| + 1 >= rank
    requires |dims| <= rank ==> kept == dims
    requires |dims| > rank ==> kept == dims[..rank]
    requires shape == Padded(kept, rank)
    ensures |shape| == rank
    ensures Product(shape) == count <==> |dims| <= rank || Product(dims[rank..]) == 1
  {
    PaddedProduct(shape, kept, rank - |kept|);
    if |dims| > rank {
      ProductSplit(dims, rank);
    }
  }

  lemma PaddedProduct(shape: seq<int>, kept: seq<int>, n: nat)
    requires shape == kept + Ones(n)
    ensures |shape| == |kept| + n && Product(shape) == Product(kept)
  {
    PaddingKeepsProduct(kept, n);
  }

  lemma PaddingKeepsProduct(dims: seq<int>, n: nat)
    ensures Product(dims + Ones(n)) == Product(dims)
  {
    ProductConcat(dims, Ones(n));
    ProductOfOnes(n);
  }

  lemma ProductSplit(dims: seq<int>, rank: nat)
    requires rank < |dims| && AllPositive(dims)
    ensures Product(dims[..rank]) == Product(dims) <==> Product(dims[rank..]) == 1
  {
    assert dims == dims[..rank] + dims[rank..];
    ProductConcat(dims[..rank], dims[rank..]);
    ProductPositive(dims[..rank]);
    OnlyOneKeeps(Product(dims[..rank]), Product(dims[rank..]));
  }

  lemma OnlyOneKeeps(a: int, b: int)
    requires a >= 1
    ensures a == a * b <==> b == 1
  {
    if b >= 2 {
      MulMonotone(2, b, a);
    } else if b <= 0 {
      MulMonotone(b, 0, a);
    }
  }

  lemma {:induction false} ProductOfOnes(n: nat)
    ensures Product(Ones(n)) == 1
  {
    if n > 0 {
      assert Ones(n)[..n - 1] == Ones(n - 1);
      ProductOfOnes(n - 1);
    }
  }
}
