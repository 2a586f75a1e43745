/** The division step of g6ts_geometry_features: from the central moments of a
    component to its two axes, and what those numbers are. */
module Ellipses {
  import opened Numbers
  import opened Positions

  const AXIS_SCALE_Q12: int := 18919

  function Halved(x: int): int {
    if x >= 0 then x / 2 else -((-x) / 2)
  }

  /** One axis from its eigenvalue in Q12, never below 1.0. */
  function AxisQ12(eigenvalue: int): int
    requires eigenvalue >= 0
  {
    Max(ONE_Q12, Root(eigenvalue * ONE_Q12) * AXIS_SCALE_Q12 / ONE_Q12)
  }

  lemma SumOfSquares(a: int, b: int)
    ensures a * a + 4 * b * b >= 0
  {}

  lemma AxisMono(a: int, b: int)
    requires 0 <= a <= b
    ensures ONE_Q12 <= AxisQ12(a) <= AxisQ12(b)
  {
    RootMono(a * ONE_Q12, b * ONE_Q12, Root(a * ONE_Q12), Root(b * ONE_Q12));
    DivMono(Root(a * ONE_Q12) * AXIS_SCALE_Q12, Root(b * ONE_Q12) * AXIS_SCALE_Q12, ONE_Q12);
  }

  /** Discriminant of the characteristic polynomial. */
  function Radicand(varX: int, varY: int, cov: int): (x: int)
    ensures x >= 0
  {
    var delta := varX - varY;
    SumOfSquares(delta, cov);
    delta * delta + 4 * cov * cov
  }

  function Eigenvalue(twice: int): (e: int)
    ensures e >= 0
  {
    Max(0, Halved(twice))
  }

  datatype Eigen = Eigen(high: int, low: int)

  function Eigenvalues(varX: int, varY: int, cov: int): (e: Eigen)
    ensures e.high >= e.low >= 0
  {
    var trace, discriminant := Max(0, varX + varY), Root(Radicand(varX, varY, cov));
    Eigen(Eigenvalue(trace + discriminant), Eigenvalue(trace - discriminant))
  }

  datatype Axes = Axes(major: int, minor: int, trace: int)

  /** Both axes; the major one is never the smaller, and neither is below 1.0. */
  function AxesOf(varX: int, varY: int, cov: int): (a: Axes)
    ensures a.major >= a.minor >= ONE_Q12
  {
    var e := Eigenvalues(varX, varY, cov);
    AxisMono(e.low, e.high);
    Axes(AxisQ12(e.high), AxisQ12(e.low), Max(0, varX + varY))
  }

  // ----- what the eigenvalues are

  /** The two add up to the trace and multiply to the determinant, within rounding. */
  ghost predicate SumAndProduct(trace: int, det: int, e: Eigen) {
    && trace - 1 <= e.high + e.low <= trace
    && -2 * trace <= 4 * (e.high * e.low) - 4 * det <= 2 * trace + 1
  }

  /** z * z - trace * z + det is zero at the higher one, within rounding. */
  ghost predicate Characteristic(trace: int, det: int, z: int) {
    -8 * z + 4 * trace - 3 <= 4 * (z * z - trace * z + det) <= 1
  }

  /** The eigenvalues of a matrix with this trace and determinant.  Truncation can
      make the determinant negative: then the lower one is cut to zero. */
  ghost predicate EigenLaw(trace: int, det: int, e: Eigen) {
    && e.high >= e.low >= 0 && Characteristic(trace, det, e.high)
    && (det >= 0 ==> SumAndProduct(trace, det, e))
    && (det < 0 ==> e.low == 0 && e.high >= trace)
  }

  lemma RadicandIs(varX: int, varY: int, cov: int, trace: int, det: int)
    requires trace == varX + varY && det == varX * varY - cov * cov
    ensures Radicand(varX, varY, cov) == trace * trace - 4 * det
  {
    var delta := varX - varY;
    assert delta * delta == varX * varX - 2 * (varX * varY) + varY * varY;
    assert trace * trace == varX * varX + 2 * (varX * varY) + varY * varY;
    assert 4 * cov * cov == 4 * (cov * cov);
  }

  lemma SquareLe(a: int, b: int)
    requires 0 <= a && 0 <= b && a * a <= b * b
    ensures a <= b
  {}

  lemma DifferenceOfSquares(a: int, b: int)
    ensures (a + b) * (a - b) == a * a - b * b
  {}

  lemma SquareOfDifference(a: int, b: int)
    ensures (a - b) * (a - b) == a * a - 2 * (b * a) + b * b
  {}

  lemma SquareOfNext(r: int)
    ensures (r + 1) * (r + 1) == r * r + 2 * r + 1
  {}

  lemma Double(h: int, l: int)
    ensures (2 * h) * (2 * l) == 4 * (h * l)
  {}

  /** 4 * h * l for the halves of t + r and t - r with the common remainder p. */
  lemma HalvesMultiply(t: int, r: int, h: int, l: int, p: int)
    requires 2 * h + p == t + r && 2 * l + p == t - r && 0 <= p <= 1
    ensures 4 * (h * l) == t * t - r * r - if p == 0 then 0 else 2 * t - 1
  {
    Double(h, l);
    DifferenceOfSquares(t - p, r);
    SquareOfDifference(t, p);
  }

  /** 4 * h * (h - t) for the half of t + r. */
  lemma HalfIsRoot(t: int, r: int, h: int, p: int)
    requires 2 * h + p == t + r && 0 <= p <= 1
    ensures 4 * (h * h - t * h) == r * r - t * t - if p == 0 then 0 else 2 * r - 1
  {
    Double(h, h - t);
    assert h * (h - t) == h * h - t * h;
    DifferenceOfSquares(r - p, t);
    SquareOfDifference(r, p);
  }

  lemma HigherObeys(t: int, det: int, r: int)
    requires t >= 0 && IsRoot(t * t - 4 * det, r)
    ensures Characteristic(t, det, Eigenvalue(t + r))
  {
    SquareOfNext(r);
    HalfIsRoot(t, r, (t + r) / 2, (t + r) % 2);
  }

  lemma BothObey(t: int, det: int, r: int)
    requires 0 <= r <= t && IsRoot(t * t - 4 * det, r)
    ensures SumAndProduct(t, det, Eigen(Eigenvalue(t + r), Eigenvalue(t - r)))
  {
    var h, l, p := (t + r) / 2, (t - r) / 2, (t + r) % 2;
    HalvesMultiply(t, r, h, l, p);
    NearProduct(t, det, r, h * l, p, t * t, r * r);
    assert Eigenvalue(t + r) == h && Eigenvalue(t - r) == l;
  }

  lemma NearProduct(t: int, det: int, r: int, product: int, p: int, tt: int, rr: int)
    requires 0 <= r <= t && rr == r * r && tt == t * t && IsRoot(tt - 4 * det, r)
    requires 0 <= p <= 1 && 4 * product == tt - rr - if p == 0 then 0 else 2 * t - 1
    ensures -2 * t <= 4 * product - 4 * det <= 2 * t + 1
  {
    SquareOfNext(r);
  }

  /** A root above the trace leaves nothing for the lower one. */
  lemma OneObeys(t: int, det: int, r: int)
    requires t >= 0 > det && IsRoot(t * t - 4 * det, r)
    ensures r >= t && Eigenvalue(t - r) == 0 && Eigenvalue(t + r) >= t
  {
    if r < t {
      SquareOfNext(r);
      Scale(r + 1, t, r + 1);
      Scale(r + 1, t, t);
    }
  }

  lemma RootBelowTrace(t: int, det: int, r: int)
    requires t >= 0 && det >= 0 && IsRoot(t * t - 4 * det, r)
    ensures r <= t
  {
    SquareLe(r, t);
  }

  lemma EigenvaluesObey(varX: int, varY: int, cov: int, trace: int, det: int)
    requires varX >= 0 && varY >= 0 && trace == varX + varY && det == varX * varY - cov * cov
    ensures EigenLaw(trace, det, Eigenvalues(varX, varY, cov))
  {
    RadicandIs(varX, varY, cov, trace, det);
    RootsObey(trace, det, Root(Radicand(varX, varY, cov)));
  }

  lemma RootsObey(t: int, det: int, r: int)
    requires t >= 0 && IsRoot(t * t - 4 * det, r)
    ensures EigenLaw(t, det, Eigen(Eigenvalue(t + r), Eigenvalue(t - r)))
  {
    HigherObeys(t, det, r);
    if det >= 0 {
      RootBelowTrace(t, det, r);
      BothObey(t, det, r);
    } else {
      OneObeys(t, det, r);
    }
  }

  // ----- what the axes are

  /** One axis in Q12 from its eigenvalue: the floored root in Q12, scaled and
      floored, or 1.0 when that is less. */
  ghost predicate AxisLaw(e: int, axis: int) {
    exists root, scaled :: IsRoot(e * 4096, root) && IsFloor(scaled, root * 18919, 4096)
                           && axis >= 4096 && axis >= scaled && (axis == 4096 || axis == scaled)
  }

  lemma AxisObeys(e: int)
    requires e >= 0
    ensures AxisLaw(e, AxisQ12(e))
  {
    var root := Root(e * ONE_Q12);
    FloorIs(root * 18919, 4096);
    assert IsRoot(e * 4096, root) && IsFloor(root * 18919 / 4096, root * 18919, 4096);
  }

  /** The floor of an axis hides every eigenvalue up to 192 / 4096. */
  lemma SmallAxis(e: int, axis: int)
    requires 0 <= e <= 192 && AxisLaw(e, axis)
    ensures axis == 4096
  {
    var root, scaled :| IsRoot(e * 4096, root) && IsFloor(scaled, root * 18919, 4096)
                        && axis >= 4096 && axis >= scaled && (axis == 4096 || axis == scaled);
    RootRange(e * 4096, root, 887);
  }

  // ----- degenerate ellipses

  /** When the determinant is as small as truncation alone leaves it, the lower
      eigenvalue is nearly zero. */
  lemma LowerIsSmall(trace: int, det: int, e: Eigen)
    requires trace >= 0 && det <= trace + 1 && EigenLaw(trace, det, e)
    ensures e.low <= 6
  {
    if e.low > 6 {
      Scale(7, e.low, e.high);
    }
  }
}
