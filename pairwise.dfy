/** The pairwise metrics of `metric/pairwise.py`: Euclidean, Pearson and
    cosine similarities over 2-D numeric arrays, and the log-likelihood
    coefficient over arrays of item sets. */
module Pairwise {
  import opened Wrappers
  import opened Collections
  import opened Numerics

  /** The exceptions the metrics can raise: `ValueError("Incompatible
      dimension ...")`, and Python's `ZeroDivisionError` on a float division
      by zero. */
  datatype Error = DimensionMismatch | ZeroDivision

  /** A 2-D numpy array: its rows and its column count `shape[1]`, which is
      known even when there are no rows. */
  datatype Array2 = Array2(rows: seq<seq<real>>, cols: nat)

  /** numpy's shape invariant: every row has `cols` entries. */
  predicate Rectangular(a: Array2)
  {
    forall i :: 0 <= i < |a.rows| ==> |a.rows[i]| == a.cols
  }

  /** A result matrix with `nRows` rows of `nCols` entries each. */
  predicate HasShape<S>(m: seq<seq<S>>, nRows: nat, nCols: nat)
  {
    |m| == nRows && forall i :: 0 <= i < |m| ==> |m[i]| == nCols
  }

  // ---------------------------------------------------------------------
  // Euclidean

  /** The square of a real. */
  function Square(d: real): real
  {
    d * d
  }

  /** A product of two non-zero factors of the same sign is positive. The
      product is returned as a value: the solver rewrites a fact of the form
      `d * d > 0` into `d != 0` and then cannot recover the product's sign,
      while `m == d * d && m > 0` survives. */
  lemma Product(a: real, b: real) returns (m: real)
    requires (a > 0.0 && b > 0.0) || (a < 0.0 && b < 0.0)
    ensures m == a * b && m > 0.0
  {
    m := a * b;
  }

  /** A square is non-negative and zero exactly at zero. */
  lemma SquareSign(d: real)
    ensures Square(d) >= 0.0
    ensures Square(d) == 0.0 <==> d == 0.0
  {
    if d != 0.0 {
      var m := Product(d, d);
    }
  }

  /** The squared Euclidean distance, the sum of (u_k - v_k)^2, computed
      exactly (scipy's 'sqeuclidean'). */
  function SqEuclidean(u: seq<real>, v: seq<real>): (r: real)
    requires |u| == |v|
    ensures r >= 0.0
  {
    if |u| == 0 then 0.0
    else
      SquareSign(u[0] - v[0]);
      Square(u[0] - v[0]) + SqEuclidean(u[1..], v[1..])
  }

  /** The squared distance is non-negative and vanishes exactly between equal rows. */
  lemma {:induction false} SqEuclideanZeroIff(u: seq<real>, v: seq<real>)
    requires |u| == |v|
    ensures SqEuclidean(u, v) >= 0.0
    ensures SqEuclidean(u, v) == 0.0 <==> u == v
  {
    if |u| > 0 {
      SqEuclideanZeroIff(u[1..], v[1..]);
      SquareSign(u[0] - v[0]);
      if u[0] == v[0] && u[1..] == v[1..] {
        assert u == [u[0]] + u[1..] && v == [v[0]] + v[1..];
      }
    }
  }

  /** The squared distance does not depend on the order of its arguments. */
  lemma {:induction false} SqEuclideanSymmetric(u: seq<real>, v: seq<real>)
    requires |u| == |v|
    ensures SqEuclidean(u, v) == SqEuclidean(v, u)
  {
    if |u| > 0 {
      SqEuclideanSymmetric(u[1..], v[1..]);
      assert Square(u[0] - v[0]) == Square(v[0] - u[0]);
    }
  }

  /** One entry of `euclidean_distances`: the squared distance when
      `squared` holds (whatever `inverse` says), otherwise the distance d,
      mapped to 1/(1+d) when `inverse` holds. */
  function EuclideanEntry(u: seq<real>, v: seq<real>, squared: bool, inverse: bool, sqrt: real -> real): (r: real)
    requires |u| == |v| && SqrtLaws(sqrt)
    ensures r >= 0.0
    ensures !squared && inverse ==> 0.0 < r <= 1.0
  {
    if squared then SqEuclidean(u, v)
    else
      var d := sqrt(SqEuclidean(u, v));
      UnitRatio(1.0, 1.0 + d);
      if inverse then 1.0 / (1.0 + d) else d
  }

  /** `euclidean_distances(x, y, squared, inverse)`: raises on differing
      column counts before computing anything; otherwise one entry per pair
      of rows, in a matrix of shape rows(x) by rows(y). */
  function EuclideanDistances(x: Array2, y: Array2, squared: bool, inverse: bool, sqrt: real -> real)
    : (r: Result<seq<seq<real>>, Error>)
    requires Rectangular(x) && Rectangular(y) && SqrtLaws(sqrt)
    ensures r.Failure? <==> x.cols != y.cols
    ensures r.Failure? ==> r.error == DimensionMismatch
    ensures r.Success? ==> HasShape(r.value, |x.rows|, |y.rows|)
    ensures r.Success? ==> forall i, j :: 0 <= i < |x.rows| && 0 <= j < |y.rows| ==>
              r.value[i][j] == EuclideanEntry(x.rows[i], y.rows[j], squared, inverse, sqrt)
  {
    if x.cols != y.cols then Failure(DimensionMismatch)
    else
      Success(seq(|x.rows|, i requires 0 <= i < |x.rows| =>
        seq(|y.rows|, j requires 0 <= j < |y.rows| =>
          EuclideanEntry(x.rows[i], y.rows[j], squared, inverse, sqrt))))
  }

  /** With `squared` the result is the exact squared distance, and the
      `inverse` flag has no effect. */
  lemma SquaredIgnoresInverse(x: Array2, y: Array2, inverse: bool, sqrt: real -> real)
    requires Rectangular(x) && Rectangular(y) && SqrtLaws(sqrt)
    ensures EuclideanDistances(x, y, true, inverse, sqrt) == EuclideanDistances(x, y, true, !inverse, sqrt)
    ensures var r := EuclideanDistances(x, y, true, inverse, sqrt);
            r.Success? ==> forall i, j :: 0 <= i < |x.rows| && 0 <= j < |y.rows| ==>
              r.value[i][j] == SqEuclidean(x.rows[i], y.rows[j]) && r.value[i][j] >= 0.0
  {
    var r, s := EuclideanDistances(x, y, true, inverse, sqrt), EuclideanDistances(x, y, true, !inverse, sqrt);
    if r.Success? {
      forall i | 0 <= i < |x.rows|
        ensures r.value[i] == s.value[i]
        ensures forall j :: 0 <= j < |y.rows| ==> r.value[i][j] >= 0.0
      {
        forall j | 0 <= j < |y.rows|
          ensures r.value[i][j] == s.value[i][j] && r.value[i][j] >= 0.0
        {
          SqEuclideanZeroIff(x.rows[i], y.rows[j]);
        }
      }
      assert r.value == s.value;
    }
  }

  /** The plain distance (`squared=False, inverse=False`) is non-negative and
      zero exactly between equal rows. */
  lemma DistanceZeroIff(u: seq<real>, v: seq<real>, sqrt: real -> real)
    requires |u| == |v| && SqrtLaws(sqrt)
    ensures EuclideanEntry(u, v, false, false, sqrt) >= 0.0
    ensures EuclideanEntry(u, v, false, false, sqrt) == 0.0 <==> u == v
  {
    SqEuclideanZeroIff(u, v);
  }

  /** The inverse similarity 1/(1+d) (`squared=False, inverse=True`) lies in
      (0, 1] and is 1 exactly between equal rows. */
  lemma InverseSimilarityBounds(u: seq<real>, v: seq<real>, sqrt: real -> real)
    requires |u| == |v| && SqrtLaws(sqrt)
    ensures 0.0 < EuclideanEntry(u, v, false, true, sqrt) <= 1.0
    ensures EuclideanEntry(u, v, false, true, sqrt) == 1.0 <==> u == v
  {
    SqEuclideanZeroIff(u, v);
    var d := sqrt(SqEuclidean(u, v));
    assert d >= 0.0;
    assert 1.0 / (1.0 + d) == 1.0 <==> d == 0.0;
  }

  /** Comparing y with x gives the transposed matrix. */
  lemma EuclideanSymmetric(x: Array2, y: Array2, squared: bool, inverse: bool, sqrt: real -> real)
    requires Rectangular(x) && Rectangular(y) && SqrtLaws(sqrt)
    ensures var r, s := EuclideanDistances(x, y, squared, inverse, sqrt), EuclideanDistances(y, x, squared, inverse, sqrt);
            r.Success? <==> s.Success?
    ensures var r, s := EuclideanDistances(x, y, squared, inverse, sqrt), EuclideanDistances(y, x, squared, inverse, sqrt);
            r.Success? ==> forall i, j :: 0 <= i < |x.rows| && 0 <= j < |y.rows| ==> r.value[i][j] == s.value[j][i]
  {
    var r, s := EuclideanDistances(x, y, squared, inverse, sqrt), EuclideanDistances(y, x, squared, inverse, sqrt);
    if r.Success? {
      forall i, j | 0 <= i < |x.rows| && 0 <= j < |y.rows|
        ensures r.value[i][j] == s.value[j][i]
      {
        SqEuclideanSymmetric(x.rows[i], y.rows[j]);
      }
    }
  }

  /** The documented example: comparing an array with itself under the
      default flags gives 1 on the diagonal. */
  lemma EuclideanSelfDiagonal(x: Array2, sqrt: real -> real)
    requires Rectangular(x) && SqrtLaws(sqrt)
    ensures var r := EuclideanDistances(x, x, false, true, sqrt);
            r.Success? && forall i :: 0 <= i < |x.rows| ==> r.value[i][i] == 1.0
  {
    forall i | 0 <= i < |x.rows|
      ensures EuclideanEntry(x.rows[i], x.rows[i], false, true, sqrt) == 1.0
    {
      InverseSimilarityBounds(x.rows[i], x.rows[i], sqrt);
    }
  }

  // ---------------------------------------------------------------------
  // Pearson and cosine

  /** `1 - d` on a library distance, with NaN propagating. */
  function OneMinus(d: Option<real>): (r: Option<real>)
    ensures r.Some? <==> d.Some?
    ensures d.Some? && 0.0 <= d.value <= 2.0 ==> -1.0 <= r.value <= 1.0
    ensures d == Some(0.0) ==> r == Some(1.0)
  {
    match d
    case None => None
    case Some(v) => Some(1.0 - v)
  }

  /** `1 - cdist(x, y, metric)`: the dimension check first, then one
      similarity per pair of rows. Shared by Pearson and cosine, which
      differ only in the library distance. */
  function OneMinusDistance(x: Array2, y: Array2, dist: (seq<real>, seq<real>) -> Option<real>)
    : (r: Result<seq<seq<Option<real>>>, Error>)
    requires Rectangular(x) && Rectangular(y)
    ensures r.Failure? <==> x.cols != y.cols
    ensures r.Failure? ==> r.error == DimensionMismatch
    ensures r.Success? ==> HasShape(r.value, |x.rows|, |y.rows|)
    ensures r.Success? ==> forall i, j :: 0 <= i < |x.rows| && 0 <= j < |y.rows| ==>
              r.value[i][j] == OneMinus(dist(x.rows[i], y.rows[j]))
  {
    if x.cols != y.cols then Failure(DimensionMismatch)
    else
      Success(seq(|x.rows|, i requires 0 <= i < |x.rows| =>
        seq(|y.rows|, j requires 0 <= j < |y.rows| => OneMinus(dist(x.rows[i], y.rows[j])))))
  }

  /** `pearson_correlation(x, y)`: 1 minus scipy's correlation distance. */
  function PearsonCorrelation(x: Array2, y: Array2, correlation: (seq<real>, seq<real>) -> Option<real>)
    : (r: Result<seq<seq<Option<real>>>, Error>)
    requires Rectangular(x) && Rectangular(y)
    ensures r.Failure? <==> x.cols != y.cols
    ensures r.Failure? ==> r.error == DimensionMismatch
    ensures r.Success? ==> HasShape(r.value, |x.rows|, |y.rows|)
    ensures r.Success? ==> forall i, j :: 0 <= i < |x.rows| && 0 <= j < |y.rows| ==>
              r.value[i][j] == OneMinus(correlation(x.rows[i], y.rows[j]))
  {
    OneMinusDistance(x, y, correlation)
  }

  /** `cosine_distances(x, y)`: despite its name, 1 minus scipy's cosine
      distance, that is, the cosine similarity. */
  function CosineDistances(x: Array2, y: Array2, cosine: (seq<real>, seq<real>) -> Option<real>)
    : (r: Result<seq<seq<Option<real>>>, Error>)
    requires Rectangular(x) && Rectangular(y)
    ensures r.Failure? <==> x.cols != y.cols
    ensures r.Failure? ==> r.error == DimensionMismatch
    ensures r.Success? ==> HasShape(r.value, |x.rows|, |y.rows|)
    ensures r.Success? ==> forall i, j :: 0 <= i < |x.rows| && 0 <= j < |y.rows| ==>
              r.value[i][j] == OneMinus(cosine(x.rows[i], y.rows[j]))
  {
    OneMinusDistance(x, y, cosine)
  }

  /** A similarity `1 - d` over a lawful distance lies in [-1, 1] when
      defined, is symmetric (the matrix for (y, x) is the transpose), and is
      1 between a row and itself unless that row is degenerate. */
  lemma OneMinusDistanceLaws(x: Array2, y: Array2, dist: (seq<real>, seq<real>) -> Option<real>, degenerate: seq<real> -> bool)
    requires Rectangular(x) && Rectangular(y) && DistanceLaws(dist, degenerate)
    ensures var r, s := OneMinusDistance(x, y, dist), OneMinusDistance(y, x, dist);
            r.Success? ==> forall i, j :: 0 <= i < |x.rows| && 0 <= j < |y.rows| ==>
              && r.value[i][j] == s.value[j][i]
              && (r.value[i][j].Some? ==> -1.0 <= r.value[i][j].value <= 1.0)
              && (x.rows[i] == y.rows[j] && !degenerate(x.rows[i]) ==> r.value[i][j] == Some(1.0))
  {
  }

  /** Pearson correlation: in [-1, 1], symmetric, and 1 between identical
      rows of non-zero variance (the documented example of x against itself). */
  lemma PearsonLaws(x: Array2, y: Array2, correlation: (seq<real>, seq<real>) -> Option<real>)
    requires Rectangular(x) && Rectangular(y) && CorrelationLaws(correlation)
    ensures var r, s := PearsonCorrelation(x, y, correlation), PearsonCorrelation(y, x, correlation);
            r.Success? ==> forall i, j :: 0 <= i < |x.rows| && 0 <= j < |y.rows| ==>
              && r.value[i][j] == s.value[j][i]
              && (r.value[i][j].Some? ==> -1.0 <= r.value[i][j].value <= 1.0)
              && (x.rows[i] == y.rows[j] && !IsConstant(x.rows[i]) ==> r.value[i][j] == Some(1.0))
  {
    OneMinusDistanceLaws(x, y, correlation, IsConstant);
  }

  /** Cosine similarity: in [-1, 1], symmetric, and 1 between identical
      non-zero rows (the documented example of x against itself). */
  lemma CosineLawsHold(x: Array2, y: Array2, cosine: (seq<real>, seq<real>) -> Option<real>)
    requires Rectangular(x) && Rectangular(y) && CosineLaws(cosine)
    ensures var r, s := CosineDistances(x, y, cosine), CosineDistances(y, x, cosine);
            r.Success? ==> forall i, j :: 0 <= i < |x.rows| && 0 <= j < |y.rows| ==>
              && r.value[i][j] == s.value[j][i]
              && (r.value[i][j].Some? ==> -1.0 <= r.value[i][j].value <= 1.0)
              && (x.rows[i] == y.rows[j] && !IsZero(x.rows[i]) ==> r.value[i][j] == Some(1.0))
  {
    OneMinusDistanceLaws(x, y, cosine, IsZero);
  }

  // ---------------------------------------------------------------------
  // Log-likelihood coefficient

  /** `safe_log(d)`: 0 for a non-positive argument, the library log otherwise. */
  function SafeLog(log: real -> real, d: real): (r: real)
    ensures d <= 0.0 ==> r == 0.0
  {
    if d <= 0.0 then 0.0 else log(d)
  }

  /** `log_l(p, k, n)`: the binomial log-likelihood k log p + (n - k) log (1 - p),
      with `safe_log` in place of log. */
  function LogL(log: real -> real, p: real, k: real, n: real): (r: real)
    ensures p == 1.0 ==> r == k * SafeLog(log, 1.0)
    ensures p == 0.0 ==> r == (n - k) * SafeLog(log, 1.0)
  {
    k * SafeLog(log, p) + (n - k) * SafeLog(log, 1.0 - p)
  }

  /** `two_log_lambda(k1, k2, n1, n2)`, the G2 statistic of the 2x2 table.
      The float divisions (k1 + k2) / (n1 + n2), k1 / n1 and k2 / n2 raise
      `ZeroDivisionError` when their divisor is zero. */
  function TwoLogLambda(log: real -> real, k1: real, k2: real, n1: real, n2: real): (r: Result<real, Error>)
    ensures r.Failure? <==> n1 + n2 == 0.0 || n1 == 0.0 || n2 == 0.0
    ensures r.Failure? ==> r.error == ZeroDivision
  {
    if n1 + n2 == 0.0 || n1 == 0.0 || n2 == 0.0 then Failure(ZeroDivision)
    else
      var p := (k1 + k2) / (n1 + n2);
      Success(2.0 * (LogL(log, k1 / n1, k1, n1) + LogL(log, k2 / n2, k2, n2)
                     - LogL(log, p, k1, n1) - LogL(log, p, k2, n2)))
  }

  /** `np.intersect1d(a, b).size`: the number of distinct values common to
      both rows. */
  function Overlap<T(==)>(a: seq<T>, b: seq<T>): (r: nat)
    ensures r <= |a| && r <= |b|
  {
    ElementsCard(a);
    ElementsCard(b);
    SubsetCard(Elements(a) * Elements(b), Elements(a));
    SubsetCard(Elements(a) * Elements(b), Elements(b));
    |Elements(a) * Elements(b)|
  }

  /** The overlap never exceeds the size of either row. */
  lemma OverlapBounds<T>(a: seq<T>, b: seq<T>)
    ensures Overlap(a, b) <= |Elements(a)| <= |a|
    ensures Overlap(a, b) <= |Elements(b)| <= |b|
  {
    ElementsCard(a);
    ElementsCard(b);
    SubsetCard(Elements(a) * Elements(b), Elements(a));
    SubsetCard(Elements(a) * Elements(b), Elements(b));
  }

  /** A subset is no larger than its superset, and equal in size only when equal. */
  lemma SubsetCard<T>(s: set<T>, t: set<T>)
    requires s <= t
    ensures |s| <= |t|
    ensures |s| == |t| ==> s == t
  {
    assert t == s + (t - s);
    assert |t| == |s| + |t - s|;
  }

  /** The rows reach the G2 computation: they overlap, a is not covered by
      size, and b does not hold `n_items` elements. */
  predicate InG2Branch<T(==)>(nItems: int, a: seq<T>, b: seq<T>)
  {
    Overlap(a, b) > 0 && |a| != Overlap(a, b) && nItems != |b|
  }

  /** One entry of `loglikehood_coefficient(n_items, x, y)` for the rows a
      (of x) and b (of y): 0 when they share nothing; 1 when every element
      of a is shared (by size: `n_x - overlap == 0`) or b has `n_items`
      elements; otherwise 1 - 1/(1 + G2). Python's float divisions raise on
      zero divisors, which is the `Failure` case. */
  function PairScore<T(==)>(nItems: int, a: seq<T>, b: seq<T>, log: real -> real): (r: Result<real, Error>)
    ensures r.Failure? ==> r.error == ZeroDivision
    ensures r.Failure? ==> InG2Branch(nItems, a, b)
    ensures InG2Branch(nItems, a, b) && r.Success? ==> r.value != 1.0
  {
    var overlap := Overlap(a, b);
    if overlap == 0 then Success(0.0)
    else if |a| - overlap == 0 || nItems - |b| == 0 then Success(1.0)
    else
      OverlapBounds(a, b);
      match TwoLogLambda(log, overlap as real, (|a| - overlap) as real, |b| as real, (nItems - |b|) as real)
      case Failure(e) => Failure(e)
      case Success(g2) =>
        if 1.0 + g2 == 0.0 then Failure(ZeroDivision) else Success(1.0 - 1.0 / (1.0 + g2))
  }

  /** Rows that share no element score exactly 0, and only they take that branch. */
  lemma LlrDisjointIsZero<T>(nItems: int, a: seq<T>, b: seq<T>, log: real -> real)
    ensures Overlap(a, b) == 0 <==> Elements(a) !! Elements(b)
    ensures Elements(a) !! Elements(b) ==> PairScore(nItems, a, b, log) == Success(0.0)
  {
    if !(Elements(a) !! Elements(b)) {
      var e :| e in Elements(a) && e in Elements(b);
      assert e in Elements(a) * Elements(b);
    } else {
      assert Elements(a) * Elements(b) == {};
    }
  }

  /** For a row without repetitions, the size test `n_x - overlap == 0` holds
      exactly when the row is a subset of the other. */
  lemma SubsetTest<T>(a: seq<T>, b: seq<T>)
    requires Distinct(a)
    ensures |a| - Overlap(a, b) == 0 <==> Elements(a) <= Elements(b)
  {
    ElementsCard(a);
    SubsetCard(Elements(a) * Elements(b), Elements(a));
    if Elements(a) <= Elements(b) {
      assert Elements(a) * Elements(b) == Elements(a);
    }
  }

  /** A non-empty row without repetitions that is a subset of the other
      scores exactly 1. */
  lemma LlrSubsetIsOne<T>(nItems: int, a: seq<T>, b: seq<T>, log: real -> real)
    requires Distinct(a) && a != [] && Elements(a) <= Elements(b)
    ensures PairScore(nItems, a, b, log) == Success(1.0)
  {
    SubsetTest(a, b);
    assert a[0] in Elements(a) * Elements(b);
  }

  /** With some overlap, a row b that holds `n_items` elements scores exactly 1. */
  lemma LlrFullUniverseIsOne<T>(nItems: int, a: seq<T>, b: seq<T>, log: real -> real)
    requires Overlap(a, b) > 0 && nItems == |b|
    ensures PairScore(nItems, a, b, log) == Success(1.0)
  {
  }

  /** Self-comparison: a non-empty row without repetitions scores 1 against
      itself, whatever `n_items` is (the documented diagonal of 1s). */
  lemma LlrSelfIsOne<T>(nItems: int, a: seq<T>, log: real -> real)
    requires Distinct(a) && a != []
    ensures PairScore(nItems, a, a, log) == Success(1.0)
  {
    LlrSubsetIsOne(nItems, a, a, log);
  }

  /** In the G2 branch the divisors n1 = n_y (as the overlap is not empty)
      and n2 = n_items - n_y (by the guard) are non-zero, so the score raises
      exactly when the pooled ratio divides by n_items = 0 or when G2 is -1. */
  lemma LlrG2Branch<T>(nItems: int, a: seq<T>, b: seq<T>, log: real -> real)
    requires Overlap(a, b) > 0 && |a| != Overlap(a, b) && nItems != |b|
    ensures |b| > 0 && nItems - |b| != 0 && |a| > Overlap(a, b)
    ensures PairScore(nItems, a, b, log).Failure? <==>
              nItems == 0 ||
              TwoLogLambda(log, Overlap(a, b) as real, (|a| - Overlap(a, b)) as real, |b| as real, (nItems - |b|) as real)
                == Success(-1.0)
  {
  }

  /** The tangent-line bound of the logarithm, at the two given points. */
  lemma LogBound(log: real -> real, a: real, b: real)
    requires LogLaws(log) && a > 0.0 && b > 0.0
    ensures log(a) - log(b) >= 1.0 - b / a
  {
    assert LogRatio(log, a, b) >= 1.0 - b / a;
  }

  /** Multiplying an inequality by a non-negative factor. */
  lemma Scale(c: real, x: real, y: real)
    requires c >= 0.0 && x >= y
    ensures c * x >= c * y
  {
    if c > 0.0 && x > y {
      var m := Product(c, x - y);
    }
  }

  /** A ratio k / n of positive counts with k <= n lies in (0, 1], and is 1
      only when k == n. */
  lemma UnitRatio(k: real, n: real)
    requires 0.0 < k <= n
    ensures 0.0 < k / n <= 1.0
    ensures k / n == 1.0 <==> k == n
  {
  }

  /** k (1 - p / (k / n)) == k - p n for positive k and n. */
  lemma RatioIdentity(k: real, n: real, p: real)
    requires k > 0.0 && n > 0.0
    ensures k * (1.0 - p / (k / n)) == k - p * n
  {
    assert p / (k / n) == p * n / k;
  }

  /** 1 - k / n == (n - k) / n for positive n. */
  lemma Complement(k: real, n: real)
    requires n > 0.0
    ensures 1.0 - k / n == (n - k) / n
  {
    assert (n - k) / n == n / n - k / n;
  }

  /** Regrouping a difference of two weighted sums. */
  lemma Regroup(k: real, m: real, a: real, b: real, c: real, d: real)
    ensures (k * a + m * c) - (k * b + m * d) == k * (a - b) + m * (c - d)
  {
  }

  /** The weighted log-ratio of one outcome of the binomial: at least
      k - p n, by the tangent-line bound. */
  lemma OutcomeGain(log: real -> real, k: real, n: real, p: real)
    requires LogLaws(log) && 0.0 < k <= n && 0.0 < p
    ensures k * (log(k / n) - log(p)) >= k - p * n
  {
    UnitRatio(k, n);
    LogBound(log, k / n, p);
    Scale(k, log(k / n) - log(p), 1.0 - p / (k / n));
    RatioIdentity(k, n, p);
  }

  /** Each half of G2 is non-negative: the log-likelihood at the row's own
      ratio k / n is at least the log-likelihood at the pooled ratio p. */
  lemma LogLGain(log: real -> real, k: real, n: real, p: real)
    requires LogLaws(log)
    requires 0.0 < k <= n && 0.0 < p <= 1.0 && (p == 1.0 ==> k == n)
    ensures LogL(log, k / n, k, n) - LogL(log, p, k, n) >= 0.0
  {
    var q := k / n;
    UnitRatio(k, n);
    OutcomeGain(log, k, n, p);
    var lq, lp, lq', lp' := SafeLog(log, q), SafeLog(log, p), SafeLog(log, 1.0 - q), SafeLog(log, 1.0 - p);
    Regroup(k, n - k, lq, lp, lq', lp');
    assert LogL(log, q, k, n) - LogL(log, p, k, n) == k * (lq - lp) + (n - k) * (lq' - lp');
    if k == n {
      SameGain(k, n, p, lq - lp, lq' - lp');
    } else {
      Complement(k, n);
      OutcomeGain(log, n - k, n, 1.0 - p);
      AddGains(k, n, p, lq - lp, lq' - lp');
    }
  }

  /** The k == n case of `LogLGain`, over the log-ratios as plain numbers. */
  lemma SameGain(k: real, n: real, p: real, g: real, g': real)
    requires 0.0 < k == n && p <= 1.0 && k * g >= k - p * n
    ensures k * g + (n - k) * g' >= 0.0
  {
    Scale(n, 1.0, p);
  }

  /** The k < n case of `LogLGain`, over the log-ratios as plain numbers. */
  lemma AddGains(k: real, n: real, p: real, g: real, g': real)
    requires k * g >= k - p * n && (n - k) * g' >= (n - k) - (1.0 - p) * n
    ensures k * g + (n - k) * g' >= 0.0
  {
  }

  /** G2 is defined and non-negative on a table whose observed counts are
      positive and within their totals. */
  lemma G2NonNegative(log: real -> real, k1: real, k2: real, n1: real, n2: real)
    requires LogLaws(log)
    requires 0.0 < k1 <= n1 && 0.0 < k2 <= n2
    ensures TwoLogLambda(log, k1, k2, n1, n2).Success?
    ensures TwoLogLambda(log, k1, k2, n1, n2).value >= 0.0
  {
    var p := (k1 + k2) / (n1 + n2);
    UnitRatio(k1 + k2, n1 + n2);
    LogLGain(log, k1, n1, p);
    LogLGain(log, k2, n2, p);
  }

  /** 1 - 1/(1 + g) maps a non-negative g into [0, 1). */
  lemma SimilarityOfG2(g: real)
    requires g >= 0.0
    ensures 1.0 + g != 0.0
    ensures 0.0 <= 1.0 - 1.0 / (1.0 + g) < 1.0
  {
    UnitRatio(1.0, 1.0 + g);
  }

  /** In the G2 branch, for rows without repetitions drawn from a universe of
      `n_items` elements, no division raises and the score lies in [0, 1). */
  lemma LlrG2BelowOne<T>(nItems: int, a: seq<T>, b: seq<T>, log: real -> real)
    requires LogLaws(log)
    requires Distinct(a) && Distinct(b) && |Elements(a) + Elements(b)| <= nItems
    requires Overlap(a, b) > 0 && |a| != Overlap(a, b) && nItems != |b|
    ensures PairScore(nItems, a, b, log).Success?
    ensures 0.0 <= PairScore(nItems, a, b, log).value < 1.0
  {
    var overlap := Overlap(a, b);
    OverlapBounds(a, b);
    ElementsCard(a);
    ElementsCard(b);
    assert |Elements(a) + Elements(b)| == |a| + |b| - overlap;
    G2NonNegative(log, overlap as real, (|a| - overlap) as real, |b| as real, (nItems - |b|) as real);
    var g := TwoLogLambda(log, overlap as real, (|a| - overlap) as real, |b| as real, (nItems - |b|) as real);
    SimilarityOfG2(g.value);
  }

  /** For rows without repetitions drawn from a universe of `n_items`
      elements, no division raises and every score lies in [0, 1]. */
  lemma LlrConsistentInUnitInterval<T>(nItems: int, a: seq<T>, b: seq<T>, log: real -> real)
    requires LogLaws(log)
    requires Distinct(a) && Distinct(b) && |Elements(a) + Elements(b)| <= nItems
    ensures PairScore(nItems, a, b, log).Success?
    ensures 0.0 <= PairScore(nItems, a, b, log).value <= 1.0
  {
    if Overlap(a, b) > 0 && |a| != Overlap(a, b) && nItems != |b| {
      LlrG2BelowOne(nItems, a, b, log);
    }
  }

  /** The first documented example: the rows abcd and efgh compared with
      themselves over 7 items give the identity matrix. */
  lemma LlrDocSelf(abcd: seq<char>, efgh: seq<char>, log: real -> real)
    requires abcd == ['a', 'b', 'c', 'd'] && efgh == ['e', 'f', 'g', 'h']
    ensures PairScore(7, abcd, abcd, log) == Success(1.0)
    ensures PairScore(7, abcd, efgh, log) == Success(0.0)
    ensures PairScore(7, efgh, abcd, log) == Success(0.0)
    ensures PairScore(7, efgh, efgh, log) == Success(1.0)
  {
    DocSelfSets(abcd, efgh);
    LlrSelfIsOne(7, abcd, log);
    LlrSelfIsOne(7, efgh, log);
    LlrDisjointIsZero(7, abcd, efgh, log);
    LlrDisjointIsZero(7, efgh, abcd, log);
  }

  /** The elements of a row of four. */
  lemma FourElements<T>(s: seq<T>)
    requires |s| == 4
    ensures Elements(s) == {s[0], s[1], s[2], s[3]}
  {
  }

  /** The set facts of the rows abcd and efgh. */
  lemma DocSelfSets(abcd: seq<char>, efgh: seq<char>)
    requires abcd == ['a', 'b', 'c', 'd'] && efgh == ['e', 'f', 'g', 'h']
    ensures Distinct(abcd) && Distinct(efgh)
    ensures Elements(abcd) !! Elements(efgh)
  {
    FourElements(abcd);
    FourElements(efgh);
  }

  /** The second documented example: the rows abcd and efgh against the
      row abck over 8 items. The first score (0.67668852 in the
      documentation) takes the G2 branch and lies in [0, 1). */
  lemma LlrDocAgainstRow(abcd: seq<char>, abck: seq<char>, log: real -> real)
    requires LogLaws(log)
    requires abcd == ['a', 'b', 'c', 'd'] && abck == ['a', 'b', 'c', 'k']
    ensures Overlap(abcd, abck) == 3
    ensures PairScore(8, abcd, abck, log).Success?
    ensures 0.0 <= PairScore(8, abcd, abck, log).value < 1.0
  {
    DocRowSets(abcd, abck);
    LlrG2BelowOne(8, abcd, abck, log);
  }

  /** The set facts of the rows abcd and abck. */
  lemma DocRowSets(abcd: seq<char>, abck: seq<char>)
    requires abcd == ['a', 'b', 'c', 'd'] && abck == ['a', 'b', 'c', 'k']
    ensures Distinct(abcd) && Distinct(abck)
    ensures Overlap(abcd, abck) == 3 && |Elements(abcd) + Elements(abck)| == 5
  {
    FourElements(abcd);
    FourElements(abck);
    assert Elements(abcd) * Elements(abck) == {'a', 'b', 'c'};
    assert Elements(abcd) + Elements(abck) == {'a', 'b', 'c', 'd', 'k'};
  }

  /** The second documented example, second row: efgh shares nothing
      with abck and scores 0. */
  lemma LlrDocDisjointRow(efgh: seq<char>, abck: seq<char>, log: real -> real)
    requires efgh == ['e', 'f', 'g', 'h'] && abck == ['a', 'b', 'c', 'k']
    ensures PairScore(8, efgh, abck, log) == Success(0.0)
  {
    FourElements(efgh);
    FourElements(abck);
    LlrDisjointIsZero(8, efgh, abck, log);
  }

  /** Every pair of rows, one from x and one from y, is without repetitions
      and drawn from a universe of `n_items` elements. */
  predicate ConsistentItemSets<T(==)>(nItems: int, x: seq<seq<T>>, y: seq<seq<T>>)
  {
    forall i, j :: 0 <= i < |x| && 0 <= j < |y| ==>
      Distinct(x[i]) && Distinct(y[j]) && |Elements(x[i]) + Elements(y[j])| <= nItems
  }

  /** `loglikehood_coefficient(n_items, x, y)`: for each row of x a new row
      is appended to the result, and one score per row of y is appended to
      it. The first pair whose score raises ends the call with that error. */
  method LoglikehoodCoefficient<T(==)>(nItems: int, x: seq<seq<T>>, y: seq<seq<T>>, log: real -> real)
    returns (r: Result<seq<seq<real>>, Error>)
    ensures r.Success? ==> HasShape(r.value, |x|, |y|)
    ensures r.Success? ==> forall i, j :: 0 <= i < |x| && 0 <= j < |y| ==>
              PairScore(nItems, x[i], y[j], log) == Success(r.value[i][j])
    ensures r.Failure? ==> r.error == ZeroDivision
    ensures r.Failure? ==>
              exists i, j :: 0 <= i < |x| && 0 <= j < |y| && PairScore(nItems, x[i], y[j], log).Failure?
    ensures LogLaws(log) && ConsistentItemSets(nItems, x, y) ==>
              r.Success? && forall i, j :: 0 <= i < |x| && 0 <= j < |y| ==> 0.0 <= r.value[i][j] <= 1.0
  {
    var result: seq<seq<real>> := [];
    var i := 0;
    while i < |x|
      invariant 0 <= i <= |x|
      invariant HasShape(result, i, |y|)
      invariant forall a, b :: 0 <= a < i && 0 <= b < |y| ==>
                  PairScore(nItems, x[a], y[b], log) == Success(result[a][b])
    {
      result := result + [[]];
      var j := 0;
      while j < |y|
        invariant 0 <= j <= |y|
        invariant |result| == i + 1 && |result[i]| == j
        invariant forall a :: 0 <= a < i ==> |result[a]| == |y|
        invariant forall a, b :: 0 <= a < i && 0 <= b < |y| ==>
                    PairScore(nItems, x[a], y[b], log) == Success(result[a][b])
        invariant forall b :: 0 <= b < j ==> PairScore(nItems, x[i], y[b], log) == Success(result[i][b])
      {
        var score := PairScore(nItems, x[i], y[j], log);
        if score.Failure? {
          if LogLaws(log) && ConsistentItemSets(nItems, x, y) {
            LlrConsistentInUnitInterval(nItems, x[i], y[j], log);
            assert false;
          }
          return Failure(score.error);
        }
        result := result[i := result[i] + [score.value]];
        j := j + 1;
      }
      i := i + 1;
    }
    if LogLaws(log) && ConsistentItemSets(nItems, x, y) {
      forall a, b | 0 <= a < |x| && 0 <= b < |y|
        ensures 0.0 <= result[a][b] <= 1.0
      {
        LlrConsistentInUnitInterval(nItems, x[a], y[b], log);
      }
    }
    return Success(result);
  }
}
