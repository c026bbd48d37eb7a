/** The floating-point library calls the metrics and the classifier rely on
    (`sqrt` inside `scipy.spatial.distance.cdist`, `np.log`, scipy's
    correlation and cosine distances). Each is an uninterpreted function that
    the model receives as a parameter; the predicates below collect the only
    facts about them that the surrounding code depends on. A distance that
    returns `None` stands for the NaN scipy produces on degenerate rows. */
module Numerics {
  import opened Wrappers

  /** A library square root: non-negative on non-negative input, and zero
      exactly at zero. */
  ghost predicate SqrtLaws(sqrt: real -> real)
  {
    forall v :: v >= 0.0 ==> sqrt(v) >= 0.0 && (sqrt(v) == 0.0 <==> v == 0.0)
  }

  /** A library natural logarithm, through the tangent-line bound of a concave
      function: log(a) - log(b) >= 1 - b/a for positive a and b (which the
      real logarithm satisfies, as log(b/a) <= b/a - 1). */
  ghost predicate LogLaws(log: real -> real)
  {
    forall a, b :: a > 0.0 && b > 0.0 ==> LogRatio(log, a, b) >= 1.0 - b / a
  }

  /** log(a) - log(b), named so that the bound above is used only where a
      proof asks for it. */
  function LogRatio(log: real -> real, a: real, b: real): real
  {
    log(a) - log(b)
  }

  /** Every value of the row is the same as its first: zero variance. */
  predicate IsConstant(u: seq<real>)
  {
    forall i :: 0 <= i < |u| ==> u[i] == u[0]
  }

  /** Every value of the row is zero: zero norm. */
  predicate IsZero(u: seq<real>)
  {
    forall i :: 0 <= i < |u| ==> u[i] == 0.0
  }

  /** Facts about a distance in the sense of scipy's correlation and cosine
      distances: symmetric, within [0, 2] when defined, and zero from a row
      to itself unless the row is degenerate (`degenerate` is the condition
      under which the library produces NaN for the pair (u, u)). */
  ghost predicate DistanceLaws(dist: (seq<real>, seq<real>) -> Option<real>, degenerate: seq<real> -> bool)
  {
    && (forall u, v :: dist(u, v) == dist(v, u))
    && (forall u, v :: dist(u, v).Some? ==> 0.0 <= dist(u, v).value <= 2.0)
    && (forall u :: !degenerate(u) ==> dist(u, u) == Some(0.0))
  }

  /** scipy's correlation distance: degenerate on zero-variance rows. */
  ghost predicate CorrelationLaws(correlation: (seq<real>, seq<real>) -> Option<real>)
  {
    DistanceLaws(correlation, IsConstant)
  }

  /** scipy's cosine distance: degenerate on zero rows. */
  ghost predicate CosineLaws(cosine: (seq<real>, seq<real>) -> Option<real>)
  {
    DistanceLaws(cosine, IsZero)
  }
}
