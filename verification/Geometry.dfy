/** g6ts_geometry_features: weighted moments of one component, its axes and
    its spread, in fixed point. */
module Geometry {
  import opened Numbers
  import opened Sums
  import opened Grid
  import opened Candidates
  import opened Positions
  import opened Detection
  import opened Resegmentation
  import opened Ellipses

  const S64_MAX: int := 0x7fff_ffff_ffff_ffff
  const U32_MAX: int := 0xffff_ffff
  const SPREAD_SCALE_Q12: int := 25736
  /** Largest signal of a byte. */
  const SIGNAL_MAX: int := 1638

  /** Weight of every cell: its signal when it is in the component and positive. */
  ghost function Weights(grid: seq<int>, component: seq<bool>): (f: seq<int>)
    requires |component| == |grid|
    ensures |f| == |grid|
    ensures forall i | 0 <= i < |f| :: f[i] == if component[i] && SignalQ12(grid[i]) > 0 then SignalQ12(grid[i]) else 0
  {
    seq(|grid|, i requires 0 <= i < |grid| => if component[i] && SignalQ12(grid[i]) > 0 then SignalQ12(grid[i]) else 0)
  }

  /** Sum of f[i] * g[i] over i < n. */
  ghost function Moment(f: seq<int>, g: seq<int>, n: nat): int
    requires n <= |f| && n <= |g|
  {
    if n == 0 then 0 else Moment(f, g, n - 1) + f[n - 1] * g[n - 1]
  }

  /** Sum of f[i] * g[i] * h[i] over i < n. */
  ghost function Moment2(f: seq<int>, g: seq<int>, h: seq<int>, n: nat): int
    requires n <= |f| && n <= |g| && n <= |h|
  {
    if n == 0 then 0 else Moment2(f, g, h, n - 1) + f[n - 1] * g[n - 1] * h[n - 1]
  }

  /** The six accumulators. */
  datatype Sums6 = Sums6(w: int, x: int, y: int, xx: int, yy: int, xy: int)

  ghost predicate SumsOf(s: Sums6, f: seq<int>, xs: seq<int>, ys: seq<int>, n: nat)
    requires n <= |f| && n <= |xs| && n <= |ys|
  {
    && s.w == Total(f, n)
    && s.x == Moment(f, xs, n) && s.y == Moment(f, ys, n)
    && s.xx == Moment2(f, xs, xs, n) && s.yy == Moment2(f, ys, ys, n) && s.xy == Moment2(f, xs, ys, n)
  }

  // ----- Cauchy-Schwarz

  /** Sum of f[i] * (g[i] - t)^2, expanded. */
  lemma {:induction false} SpreadAround(f: seq<int>, g: seq<int>, n: nat, t: int)
    requires n <= |f| && n <= |g| && forall i | 0 <= i < n :: f[i] >= 0
    ensures Moment2(f, g, g, n) - 2 * t * Moment(f, g, n) + t * t * Total(f, n) >= 0
  {
    if n > 0 {
      SpreadAround(f, g, n - 1, t);
      SquareTerm(f[n - 1], g[n - 1], t, Moment2(f, g, g, n - 1), Moment(f, g, n - 1), Total(f, n - 1));
    }
  }

  lemma SquareTerm(w: int, x: int, t: int, a: int, b: int, s: int)
    requires w >= 0 && a - 2 * t * b + t * t * s >= 0
    ensures (a + w * x * x) - 2 * t * (b + w * x) + t * t * (s + w) >= 0
  {
    var d := x - t;
    assert w * (d * d) >= 0;
    assert w * (d * d) == w * x * x - 2 * t * (w * x) + t * t * w;
    assert 2 * t * (b + w * x) == 2 * t * b + 2 * t * (w * x);
    assert t * t * (s + w) == t * t * s + t * t * w;
  }

  /** The weighted second moment times the weight dominates the squared first. */
  lemma {:induction false} CauchySchwarz(f: seq<int>, g: seq<int>, n: nat)
    requires n <= |f| && n <= |g| && forall i | 0 <= i < n :: f[i] >= 0
    ensures Moment(f, g, n) * Moment(f, g, n) <= Moment2(f, g, g, n) * Total(f, n)
  {
    if n > 0 {
      CauchySchwarz(f, g, n - 1);
      SpreadAround(f, g, n - 1, g[n - 1]);
      CauchyStep(f[n - 1], g[n - 1], Moment2(f, g, g, n - 1), Moment(f, g, n - 1), Total(f, n - 1));
    }
  }

  lemma CauchyStep(w: int, x: int, a: int, b: int, s: int)
    requires w >= 0 && b * b <= a * s && a - 2 * x * b + x * x * s >= 0
    ensures (b + w * x) * (b + w * x) <= (a + w * x * x) * (s + w)
  {}

  // ----- ranges

  lemma {:induction false} MomentRange(f: seq<int>, g: seq<int>, n: nat, top: int)
    requires n <= |f| && n <= |g| && forall i | 0 <= i < n :: f[i] >= 0 && 0 <= g[i] <= top
    ensures 0 <= Total(f, n) && 0 <= Moment(f, g, n) <= top * Total(f, n)
  {
    if n > 0 {
      MomentRange(f, g, n - 1, top);
      Scale(g[n - 1], top, f[n - 1]);
      Scale(0, g[n - 1], f[n - 1]);
      Distribute(top, Total(f, n - 1), f[n - 1]);
    }
  }

  lemma {:induction false} Moment2Range(f: seq<int>, g: seq<int>, h: seq<int>, n: nat, top: int)
    requires n <= |f| && n <= |g| && n <= |h| && 0 <= top
    requires forall i | 0 <= i < n :: f[i] >= 0 && 0 <= g[i] <= top && 0 <= h[i] <= top
    ensures 0 <= Moment2(f, g, h, n) <= top * top * Total(f, n)
  {
    if n > 0 {
      WeightedProduct(f[n - 1], g[n - 1], h[n - 1], top);
      Distribute(top * top, Total(f, n - 1), f[n - 1]);
      Moment2Range(f, g, h, n - 1, top);
    }
  }

  lemma WeightedProduct(w: int, x: int, y: int, top: int)
    requires 0 <= w && 0 <= x <= top && 0 <= y <= top
    ensures 0 <= w * x * y <= top * top * w
  {
    var p := x * y;
    Scale(x, top, y);
    Scale(y, top, top);
    Scale(0, x, y);
    Scale(p, top * top, w);
    Scale(0, p, w);
    assert w * x * y == p * w;
  }

  ghost function Marked(component: seq<bool>, n: nat): nat
    requires n <= |component|
  {
    if n == 0 then 0 else Marked(component, n - 1) + if component[n - 1] then 1 else 0
  }

  lemma SignalRange(value: int)
    requires 0 <= value <= 255
    ensures SignalQ12(value) <= SIGNAL_MAX
  {}

  lemma {:induction false} TotalWeightRange(grid: seq<int>, component: seq<bool>, n: nat)
    requires n <= |grid| == |component| && forall i | 0 <= i < n :: 0 <= grid[i] <= 255
    ensures 0 <= Total(Weights(grid, component), n) <= SIGNAL_MAX * Marked(component, n)
  {
    if n > 0 {
      TotalWeightRange(grid, component, n - 1);
      SignalRange(grid[n - 1]);
    }
  }

  lemma {:induction false} MarkedIsSize(component: seq<bool>, xs: set<nat>, n: nat)
    requires n <= |component| && forall i: nat | i < |component| :: component[i] <==> i in xs
    ensures Marked(component, n) == |set x | x in xs && x < n|
  {
    var part := set x | x in xs && x < n;
    if n == 0 {
      assert part == {};
    } else {
      MarkedIsSize(component, xs, n - 1);
      var rest := set x | x in xs && x < n - 1;
      if component[n - 1] {
        assert part == rest + {n - 1};
      } else {
        assert part == rest;
      }
    }
  }

  // ----- the features

  /** Division that truncates toward zero, as the kernel's div64_s64. */
  function TruncDiv(a: int, b: int): int
    requires b > 0
  {
    if a >= 0 then a / b else -((-a) / b)
  }

  /** Variance or covariance in Q12. */
  function CentralQ12(second: int, a: int, b: int, w: int): int
    requires w > 0
  {
    Squares(w);
    TruncDiv((second * w - a * b) * ONE_Q12, w * w)
  }

  lemma Squares(w: int)
    requires w > 0
    ensures w * w > 0
  {}

  /** Feature slots 7 and 8. */
  datatype Shape = Shape(ratio: int, spread: int)

  function PanelAxes(s: Sums6): (a: Axes)
    requires s.w > 0
    ensures a.major >= a.minor >= ONE_Q12
  {
    AxesOf(CentralQ12(s.xx, s.x, s.x, s.w), CentralQ12(s.yy, s.y, s.y, s.w), CentralQ12(s.xy, s.x, s.y, s.w))
  }

  ghost predicate ShapeOf(s: Sums6, pixels: nat, shape: Shape) {
    if s.w == 0 then shape == Shape(ONE_Q12, ONE_Q12)
    else
      && s.w > 0
      && shape.ratio == PanelAxes(s).major * ONE_Q12 / PanelAxes(s).minor
      && shape.spread == if pixels < 2 then ONE_Q12
                         else PanelAxes(s).trace * SPREAD_SCALE_Q12 / (ONE_Q12 * (pixels - 1))
  }

  const WEIGHT_MAX: int := SIGNAL_MAX * PALM_PIXELS
  const LAST: int := COLS - 1
  /** Largest variance on the panel, in Q12. */
  const VARIANCE_MAX: int := LAST * LAST * ONE_Q12

  /** The accumulators of a component that passes the palm filter on the
      46 x 68 panel. */
  ghost predicate PanelSums(s: Sums6) {
    && 0 <= s.w <= WEIGHT_MAX
    && 0 <= s.x <= LAST * s.w && 0 <= s.y <= LAST * s.w
    && 0 <= s.xx <= LAST * LAST * s.w && 0 <= s.yy <= LAST * LAST * s.w && 0 <= s.xy <= LAST * LAST * s.w
    && s.x * s.x <= s.xx * s.w && s.y * s.y <= s.yy * s.w
  }

  lemma SumsInRange(s: Sums6, grid: seq<int>, component: seq<bool>, xs: seq<int>, ys: seq<int>, n: nat)
    requires n == |grid| == |component| == |xs| == |ys| && Marked(component, n) <= PALM_PIXELS
    requires forall i | 0 <= i < n :: 0 <= grid[i] <= 255 && 0 <= xs[i] <= LAST && 0 <= ys[i] <= LAST
    requires SumsOf(s, Weights(grid, component), xs, ys, n)
    ensures PanelSums(s)
  {
    var f := Weights(grid, component);
    TotalWeightRange(grid, component, n);
    Scale(Marked(component, n), PALM_PIXELS, SIGNAL_MAX);
    MomentRange(f, xs, n, LAST);
    MomentRange(f, ys, n, LAST);
    Moment2Range(f, xs, xs, n, LAST);
    Moment2Range(f, ys, ys, n, LAST);
    Moment2Range(f, xs, ys, n, LAST);
    CauchySchwarz(f, xs, n);
    CauchySchwarz(f, ys, n);
  }

  lemma ProductRange(a: int, b: int, top: int)
    requires 0 <= a <= top && 0 <= b <= top
    ensures 0 <= a * b <= top * top
  {}

  /** The numerator of a central moment, against the squared weight q. */
  lemma CentralNumerator(second: int, a: int, b: int, w: int)
    requires 0 < w <= WEIGHT_MAX
    requires 0 <= a <= LAST * w && 0 <= b <= LAST * w && 0 <= second <= LAST * LAST * w
    ensures 0 < w * w <= WEIGHT_MAX * WEIGHT_MAX
    ensures 0 <= second * w <= LAST * LAST * (w * w) && 0 <= a * b <= LAST * LAST * (w * w)
  {
    Squares(w);
    ProductRange(w, w, WEIGHT_MAX);
    Scale(0, second, w);
    Scale(second, LAST * LAST * w, w);
    assert (LAST * LAST * w) * w == LAST * LAST * (w * w);
    ProductRange(a, b, LAST * w);
    assert (LAST * w) * (LAST * w) == LAST * LAST * (w * w);
  }

  lemma TruncDivRange(num: int, q: int, top: int)
    requires q > 0 && 0 <= top && -(top * q) <= num <= top * q
    ensures -top <= TruncDiv(num, q) <= top && (num >= 0 ==> TruncDiv(num, q) >= 0)
  {
    if num >= 0 {
      DivUpper(num, q, top);
      DivLower(num, q, 0);
    } else {
      DivUpper(-num, q, top);
      DivLower(-num, q, 0);
    }
  }

  /** The products, the scaled difference and the squared weight of one second
      central moment fit. */
  ghost predicate ProductsFit(second: int, a: int, b: int, w: int) {
    && 0 <= second * w <= S64_MAX && 0 <= a * b <= S64_MAX && 0 < w * w <= S64_MAX
    && -S64_MAX <= (second * w - a * b) * ONE_Q12 <= S64_MAX
  }

  /** Ranges of one second central moment around the division. */
  lemma CentralRange(second: int, a: int, b: int, w: int)
    requires 0 < w <= WEIGHT_MAX
    requires 0 <= a <= LAST * w && 0 <= b <= LAST * w && 0 <= second <= LAST * LAST * w
    ensures ProductsFit(second, a, b, w)
    ensures -VARIANCE_MAX <= CentralQ12(second, a, b, w) <= VARIANCE_MAX
    ensures a * b <= second * w ==> CentralQ12(second, a, b, w) >= 0
  {
    CentralNumerator(second, a, b, w);
    CentralParts(second * w, a * b, w * w);
  }

  lemma CentralParts(p: int, m: int, q: int)
    requires 0 < q <= WEIGHT_MAX * WEIGHT_MAX && 0 <= p <= LAST * LAST * q && 0 <= m <= LAST * LAST * q
    ensures p <= S64_MAX && m <= S64_MAX && q <= S64_MAX
    ensures -S64_MAX <= (p - m) * ONE_Q12 <= S64_MAX
    ensures -VARIANCE_MAX <= TruncDiv((p - m) * ONE_Q12, q) <= VARIANCE_MAX
    ensures m <= p ==> TruncDiv((p - m) * ONE_Q12, q) >= 0
  {
    TruncDivRange((p - m) * ONE_Q12, q, VARIANCE_MAX);
  }

  lemma SquareRange(x: int, top: int)
    requires -top <= x <= top
    ensures 0 <= x * x <= top * top
  {}

  const DISCRIMINANT_MAX: int := 50_000_000

  /** The shifted eigenvalue and the scaled root fit 64 bits, the root and the
      axis 32 bits, and the axis can be shifted for the ratio. */
  ghost predicate AxisFits(e: int) {
    && 0 <= e * ONE_Q12 <= S64_MAX
    && 0 <= Root(e * ONE_Q12) <= U32_MAX && Root(e * ONE_Q12) * AXIS_SCALE_Q12 <= S64_MAX
    && AxisQ12(e) <= U32_MAX && AxisQ12(e) * ONE_Q12 <= S64_MAX
  }

  const EIGENVALUE_MAX: int := 80_000_000

  lemma AxisInRange(e: int)
    requires 0 <= e <= EIGENVALUE_MAX
    ensures AxisFits(e)
  {
    RootRange(e * ONE_Q12, Root(e * ONE_Q12), 600_000);
    DivUpper(Root(e * ONE_Q12) * AXIS_SCALE_Q12, ONE_Q12, 3_000_000);
  }

  /** Every intermediate from the trace and the discriminant to the axes and the spread fits. */
  ghost predicate AxesFit(trace: int, radicand: int) {
    && 0 <= radicand <= S64_MAX && 0 <= trace * SPREAD_SCALE_Q12 <= S64_MAX
    && -S64_MAX <= trace - Root(radicand) && trace + Root(radicand) <= S64_MAX
    && AxisFits(Eigenvalue(trace + Root(radicand))) && AxisFits(Eigenvalue(trace - Root(radicand)))
  }

  lemma RadicandRange(varX: int, varY: int, cov: int)
    requires 0 <= varX <= VARIANCE_MAX && 0 <= varY <= VARIANCE_MAX && -VARIANCE_MAX <= cov <= VARIANCE_MAX
    ensures Radicand(varX, varY, cov) < DISCRIMINANT_MAX * DISCRIMINANT_MAX <= S64_MAX
  {
    var delta := varX - varY;
    SquareRange(delta, VARIANCE_MAX);
    SquareRange(cov, VARIANCE_MAX);
    assert 4 * cov * cov == 4 * (cov * cov);
  }

  lemma EigenvaluesInRange(trace: int, discriminant: int)
    requires 0 <= trace <= 2 * VARIANCE_MAX && 0 <= discriminant < DISCRIMINANT_MAX
    ensures AxisFits(Eigenvalue(trace + discriminant)) && AxisFits(Eigenvalue(trace - discriminant))
  {
    AxisInRange(Eigenvalue(trace + discriminant));
    AxisInRange(Eigenvalue(trace - discriminant));
  }

  lemma AxesInRange(trace: int, radicand: int)
    requires 0 <= trace <= 2 * VARIANCE_MAX && 0 <= radicand < DISCRIMINANT_MAX * DISCRIMINANT_MAX
    ensures AxesFit(trace, radicand)
  {
    RootRange(radicand, Root(radicand), DISCRIMINANT_MAX);
    EigenvaluesInRange(trace, Root(radicand));
  }

  /** Variances are nonnegative and every intermediate of the division step fits. */
  lemma MomentsFit(s: Sums6)
    requires PanelSums(s) && s.w > 0
    ensures ProductsFit(s.xx, s.x, s.x, s.w) && ProductsFit(s.yy, s.y, s.y, s.w) && ProductsFit(s.xy, s.x, s.y, s.w)
    ensures 0 <= CentralQ12(s.xx, s.x, s.x, s.w) <= VARIANCE_MAX
    ensures 0 <= CentralQ12(s.yy, s.y, s.y, s.w) <= VARIANCE_MAX
    ensures -VARIANCE_MAX <= CentralQ12(s.xy, s.x, s.y, s.w) <= VARIANCE_MAX
    ensures var varX, varY := CentralQ12(s.xx, s.x, s.x, s.w), CentralQ12(s.yy, s.y, s.y, s.w);
            AxesFit(Max(0, varX + varY), Radicand(varX, varY, CentralQ12(s.xy, s.x, s.y, s.w)))
  {
    CentralRange(s.xx, s.x, s.x, s.w);
    CentralRange(s.yy, s.y, s.y, s.w);
    CentralRange(s.xy, s.x, s.y, s.w);
    var varX, varY, cov := CentralQ12(s.xx, s.x, s.x, s.w), CentralQ12(s.yy, s.y, s.y, s.w), CentralQ12(s.xy, s.x, s.y, s.w);
    RadicandRange(varX, varY, cov);
    AxesInRange(Max(0, varX + varY), Radicand(varX, varY, cov));
  }

  // ----- the shape by its moments

  /** v is a / b truncated toward zero. */
  ghost predicate IsTruncation(v: int, a: int, b: int) {
    if a >= 0 then IsFloor(v, a, b) else IsFloor(-v, -a, b)
  }

  /** A central moment in Q12: the weighted mean of the products less the product
      of the weighted means. */
  ghost predicate CentralMoment(v: int, second: int, a: int, b: int, w: int) {
    IsTruncation(v, (second * w - a * b) * 4096, w * w)
  }

  datatype Ellipse = Ellipse(varX: int, varY: int, cov: int, eigen: Eigen, major: int, minor: int)

  ghost predicate EllipseOf(s: Sums6, m: Ellipse) {
    && m.varX >= 0 && m.varY >= 0
    && CentralMoment(m.varX, s.xx, s.x, s.x, s.w)
    && CentralMoment(m.varY, s.yy, s.y, s.y, s.w)
    && CentralMoment(m.cov, s.xy, s.x, s.y, s.w)
    && EigenLaw(m.varX + m.varY, m.varX * m.varY - m.cov * m.cov, m.eigen)
    && AxisLaw(m.eigen.high, m.major) && AxisLaw(m.eigen.low, m.minor)
  }

  /** The two features by the ellipse of the moments. */
  ghost predicate Describing(m: Ellipse, pixels: nat, shape: Shape) {
    && IsFloor(shape.ratio, m.major * 4096, m.minor)
    && if pixels < 2 then shape.spread == 4096
       else IsFloor(shape.spread, (m.varX + m.varY) * 25736, 4096 * (pixels - 1))
  }

  ghost predicate ShapeByMoments(s: Sums6, pixels: nat, shape: Shape) {
    if s.w == 0 then shape.ratio == 4096 && shape.spread == 4096
    else exists m :: EllipseOf(s, m) && Describing(m, pixels, shape)
  }

  lemma TruncDivIs(a: int, b: int)
    requires b > 0
    ensures IsTruncation(TruncDiv(a, b), a, b)
  {
    if a >= 0 {
      FloorIs(a, b);
    } else {
      FloorIs(-a, b);
    }
  }

  lemma CentralIs(second: int, a: int, b: int, w: int)
    requires w > 0
    ensures CentralMoment(CentralQ12(second, a, b, w), second, a, b, w)
  {
    Squares(w);
    TruncDivIs((second * w - a * b) * ONE_Q12, w * w);
  }

  /** The ellipse the division step passes through. */
  ghost function PanelEllipse(s: Sums6): Ellipse
    requires s.w > 0
  {
    var varX, varY, cov := CentralQ12(s.xx, s.x, s.x, s.w), CentralQ12(s.yy, s.y, s.y, s.w), CentralQ12(s.xy, s.x, s.y, s.w);
    Ellipse(varX, varY, cov, Eigenvalues(varX, varY, cov), PanelAxes(s).major, PanelAxes(s).minor)
  }

  lemma PanelEllipseIs(s: Sums6)
    requires PanelSums(s) && s.w > 0
    ensures EllipseOf(s, PanelEllipse(s))
  {
    var m := PanelEllipse(s);
    CentralIs(s.xx, s.x, s.x, s.w);
    CentralIs(s.yy, s.y, s.y, s.w);
    CentralIs(s.xy, s.x, s.y, s.w);
    CentralRange(s.xx, s.x, s.x, s.w);
    CentralRange(s.yy, s.y, s.y, s.w);
    EigenvaluesObey(m.varX, m.varY, m.cov, m.varX + m.varY, m.varX * m.varY - m.cov * m.cov);
    AxisObeys(m.eigen.high);
    AxisObeys(m.eigen.low);
  }

  /** The formula yields the shape of the moments. */
  lemma ShapeIsByMoments(s: Sums6, pixels: nat, shape: Shape)
    requires PanelSums(s) && ShapeOf(s, pixels, shape)
    ensures ShapeByMoments(s, pixels, shape)
  {
    if s.w != 0 {
      var m := PanelEllipse(s);
      PanelEllipseIs(s);
      FloorIs(m.major * 4096, m.minor);
      if pixels >= 2 {
        FloorIs((m.varX + m.varY) * 25736, 4096 * (pixels - 1));
      }
      assert Describing(m, pixels, shape);
    }
  }

  // ----- components on a line

  /** Equality in Cauchy-Schwarz for the central moments. */
  ghost predicate Degenerate(s: Sums6) {
    (s.xy * s.w - s.x * s.y) * (s.xy * s.w - s.x * s.y) == (s.xx * s.w - s.x * s.x) * (s.yy * s.w - s.y * s.y)
  }

  /** Every cell with weight satisfies a * x + b * y == k. */
  ghost predicate OnLine(f: seq<int>, xs: seq<int>, ys: seq<int>, n: nat, a: int, b: int, k: int)
    requires n <= |f| && n <= |xs| && n <= |ys|
  {
    (a != 0 || b != 0) && forall i | 0 <= i < n && f[i] != 0 :: a * xs[i] + b * ys[i] == k
  }

  /** A term added to each of three sums in the same relation. */
  lemma Extend(a: int, b: int, k: int, p: int, q: int, r: int, dp: int, dq: int, dr: int)
    requires a * p + b * q == k * r && a * dp + b * dq == k * dr
    ensures a * (p + dp) + b * (q + dq) == k * (r + dr)
  {}

  lemma LineTerm(w: int, z: int, x: int, y: int, a: int, b: int, k: int)
    requires w == 0 || a * x + b * y == k
    ensures a * (w * x * z) + b * (w * y * z) == k * (w * z)
  {
    assert a * (w * x * z) + b * (w * y * z) == (w * z) * (a * x + b * y);
  }

  lemma Reorder(w: int, x: int, y: int)
    ensures w * y * x == w * x * y
  {}

  /** The moments of cells on a line are on the line as well. */
  lemma {:induction false} LineMoments(f: seq<int>, xs: seq<int>, ys: seq<int>, n: nat, a: int, b: int, k: int)
    requires n <= |f| && n <= |xs| && n <= |ys| && OnLine(f, xs, ys, n, a, b, k)
    ensures a * Moment(f, xs, n) + b * Moment(f, ys, n) == k * Total(f, n)
    ensures a * Moment2(f, xs, xs, n) + b * Moment2(f, xs, ys, n) == k * Moment(f, xs, n)
    ensures a * Moment2(f, xs, ys, n) + b * Moment2(f, ys, ys, n) == k * Moment(f, ys, n)
  {
    if n > 0 {
      LineMoments(f, xs, ys, n - 1, a, b, k);
      var w, x, y := f[n - 1], xs[n - 1], ys[n - 1];
      Reorder(w, x, y);
      LineTerm(w, 1, x, y, a, b, k);
      LineTerm(w, x, x, y, a, b, k);
      LineTerm(w, y, x, y, a, b, k);
      Extend(a, b, k, Moment(f, xs, n - 1), Moment(f, ys, n - 1), Total(f, n - 1), w * x, w * y, w);
      Extend(a, b, k, Moment2(f, xs, xs, n - 1), Moment2(f, xs, ys, n - 1), Moment(f, xs, n - 1), w * x * x, w * x * y, w * x);
      Extend(a, b, k, Moment2(f, xs, ys, n - 1), Moment2(f, ys, ys, n - 1), Moment(f, ys, n - 1), w * x * y, w * y * y, w * y);
    }
  }

  /** The central moments send the normal of the line to zero. */
  lemma Annihilates(a: int, b: int, k: int, p: int, q: int, z: int, x: int, y: int, w: int)
    requires a * p + b * q == k * z && a * x + b * y == k * w
    ensures a * (p * w - z * x) + b * (q * w - z * y) == 0
  {
    assert a * (p * w - z * x) + b * (q * w - z * y) == (a * p + b * q) * w - z * (a * x + b * y);
    assert (k * z) * w == z * (k * w);
  }

  lemma NullVector(a: int, b: int, x: int, c: int, y: int)
    requires (a != 0 || b != 0) && a * x + b * c == 0 && a * c + b * y == 0
    ensures c * c == x * y
  {
    assert a * (x * y - c * c) == y * (a * x + b * c) - c * (a * c + b * y);
    assert b * (x * y - c * c) == x * (a * c + b * y) - c * (a * x + b * c);
  }

  lemma LineIsDegenerate(s: Sums6, f: seq<int>, xs: seq<int>, ys: seq<int>, n: nat, a: int, b: int, k: int)
    requires n <= |f| && n <= |xs| && n <= |ys| && OnLine(f, xs, ys, n, a, b, k) && SumsOf(s, f, xs, ys, n)
    ensures Degenerate(s)
  {
    LineMoments(f, xs, ys, n, a, b, k);
    Annihilates(a, b, k, s.xx, s.xy, s.x, s.x, s.y, s.w);
    Annihilates(a, b, k, s.xy, s.yy, s.y, s.x, s.y, s.w);
    NullVector(a, b, s.xx * s.w - s.x * s.x, s.xy * s.w - s.x * s.y, s.yy * s.w - s.y * s.y);
  }

  lemma ProductBelow(a: int, b: int, c: int, d: int)
    requires 0 <= a < c && 0 <= b < d
    ensures a * b < c * d
  {
    Scale(a, c, b);
    Scale(b + 1, d, c);
  }

  lemma ProductAtMost(a: int, b: int, c: int, d: int)
    requires 0 <= a <= c && 0 <= b <= d
    ensures a * b <= c * d
  {
    Scale(a, c, b);
    Scale(b, d, c);
  }

  lemma Unscale(a: int, b: int, c: int, d: int, w: int)
    requires w > 0 && (a * w) * (b * w) < (c * w) * (d * w)
    ensures a * b < c * d
  {
    Squares(w);
    assert (a * w) * (b * w) == (a * b) * (w * w) && (c * w) * (d * w) == (c * d) * (w * w);
    Cancel(a * b, c * d, w * w);
  }

  /** Truncation alone leaves a determinant no larger than the trace and one. */
  lemma FlooredDeterminant(p: int, q: int, r: int, w: int, x: int, y: int, c: int)
    requires p >= 0 && q >= 0 && r >= 0 && p * q == r * r
    requires IsFloor(x, p, w) && IsFloor(y, q, w) && IsFloor(c, r, w)
    ensures x * y - c * c <= x + y + 1
  {
    NonnegativeFloor(x, p, w);
    NonnegativeFloor(y, q, w);
    NonnegativeFloor(c, r, w);
    ProductAtMost(x * w, y * w, p, q);
    ProductBelow(r, r, (c + 1) * w, (c + 1) * w);
    Unscale(x, y, c + 1, c + 1, w);
    ProductAtMost(c * w, c * w, r, r);
    ProductBelow(p, q, (x + 1) * w, (y + 1) * w);
    Unscale(c, c, x + 1, y + 1, w);
    DeterminantBound(x, y, c);
  }

  lemma NonnegativeFloor(v: int, a: int, b: int)
    requires IsFloor(v, a, b) && a >= 0
    ensures v >= 0 && v * b >= 0
  {
    if v < 0 {
      Scale(v + 1, 0, b);
    } else {
      Scale(0, v, b);
    }
  }

  lemma DeterminantBound(x: int, y: int, c: int)
    requires x >= 0 && y >= 0 && c >= 0 && x * y < (c + 1) * (c + 1) && c * c < (x + 1) * (y + 1)
    ensures x * y - c * c <= x + y + 1
  {
    assert (x + y) * (x + y) - 4 * (x * y) == (x - y) * (x - y);
    if 2 * c >= x + y + 2 {
      ProductAtMost(x + y + 2, x + y + 2, 2 * c, 2 * c);
    }
  }

  lemma TruncatedDeterminant(p: int, q: int, r: int, w: int, x: int, y: int, c: int)
    requires p >= 0 && q >= 0 && p * q == r * r
    requires IsTruncation(x, p, w) && IsTruncation(y, q, w) && IsTruncation(c, r, w)
    ensures x * y - c * c <= x + y + 1
  {
    if r >= 0 {
      FlooredDeterminant(p, q, r, w, x, y, c);
    } else {
      assert (-r) * (-r) == r * r && (-c) * (-c) == c * c;
      FlooredDeterminant(p, q, -r, w, x, y, -c);
    }
  }

  lemma ScaledSquare(p: int, q: int, r: int)
    requires p * q == r * r
    ensures (p * 4096) * (q * 4096) == (r * 4096) * (r * 4096)
  {
    assert (p * 4096) * (q * 4096) == (p * q) * 16777216;
    assert (r * 4096) * (r * 4096) == (r * r) * 16777216;
  }

  /** The minor axis of a degenerate ellipse is exactly 1.0. */
  lemma DegenerateIsThin(s: Sums6, m: Ellipse)
    requires Degenerate(s) && EllipseOf(s, m) && s.x * s.x <= s.xx * s.w && s.y * s.y <= s.yy * s.w
    ensures m.minor == 4096
  {
    var p, q, r := s.xx * s.w - s.x * s.x, s.yy * s.w - s.y * s.y, s.xy * s.w - s.x * s.y;
    ScaledSquare(p, q, r);
    TruncatedDeterminant(p * 4096, q * 4096, r * 4096, s.w * s.w, m.varX, m.varY, m.cov);
    LowerIsSmall(m.varX + m.varY, m.varX * m.varY - m.cov * m.cov, m.eigen);
    SmallAxis(m.eigen.low, m.minor);
  }

  /** A component whose cells with weight lie on one line, however it is turned,
      has the minor axis 1.0 and so its major axis for a ratio. */
  lemma LineIsThin(s: Sums6, f: seq<int>, xs: seq<int>, ys: seq<int>, n: nat, a: int, b: int, k: int, pixels: nat, shape: Shape)
    requires n <= |f| && n <= |xs| && n <= |ys| && OnLine(f, xs, ys, n, a, b, k) && SumsOf(s, f, xs, ys, n)
    requires PanelSums(s) && s.w > 0 && ShapeByMoments(s, pixels, shape)
    ensures exists m :: EllipseOf(s, m) && m.minor == 4096 && shape.ratio == m.major
  {
    LineIsDegenerate(s, f, xs, ys, n, a, b, k);
    var m :| EllipseOf(s, m) && Describing(m, pixels, shape);
    DegenerateIsThin(s, m);
  }

  lemma RatioAtLeastOne(major: int, minor: int)
    requires major >= minor > 0
    ensures major * ONE_Q12 / minor >= ONE_Q12
  {}

  lemma QuotientNonnegative(a: int, b: int)
    requires a >= 0 && b > 0
    ensures a / b >= 0
  {}

  /** The division step: from accumulators to the two features. */
  method Finish(s: Sums6, pixels: nat) returns (shape: Shape)
    requires PanelSums(s)
    ensures ShapeOf(s, pixels, shape) && ShapeByMoments(s, pixels, shape)
    ensures shape.ratio >= ONE_Q12 && shape.spread >= 0
  {
    if s.w == 0 {
      return Shape(ONE_Q12, ONE_Q12);
    }
    MomentsFit(s);
    var a := PanelAxes(s);
    RatioAtLeastOne(a.major, a.minor);
    var spread := ONE_Q12;
    if pixels >= 2 {
      QuotientNonnegative(a.trace * SPREAD_SCALE_Q12, ONE_Q12 * (pixels - 1));
      spread := a.trace * SPREAD_SCALE_Q12 / (ONE_Q12 * (pixels - 1));
    }
    shape := Shape(a.major * ONE_Q12 / a.minor, spread);
    ShapeIsByMoments(s, pixels, shape);
  }

  /** g6ts_geometry_features. */
  method GeometryFeatures(grid: seq<int>, component: seq<bool>, pixels: nat) returns (shape: Shape, s: Sums6)
    requires Frame(grid, ROWS, COLS) && |component| == |grid|
    requires Marked(component, |grid|) == pixels <= PALM_PIXELS
    ensures SumsOf(s, Weights(grid, component), Columns(|grid|, COLS), RowsOf(|grid|, COLS), |grid|)
    ensures PanelSums(s) && ShapeOf(s, pixels, shape) && ShapeByMoments(s, pixels, shape)
    ensures shape.ratio >= ONE_Q12 && shape.spread >= 0
  {
    s := Sums6(0, 0, 0, 0, 0, 0);
    ghost var f, xs, ys := Weights(grid, component), Columns(|grid|, COLS), RowsOf(|grid|, COLS);
    for index := 0 to |grid|
      invariant SumsOf(s, f, xs, ys, index)
    {
      var signal := SignalQ12(grid[index]);
      if !component[index] || signal <= 0 {
        continue;
      }
      RowColDivide(COLS, index);
      var row, col := index / COLS, index % COLS;
      s := Sums6(s.w + signal, s.x + signal * col, s.y + signal * row,
                 s.xx + signal * col * col, s.yy + signal * row * row, s.xy + signal * col * row);
    }
    forall i: nat | i < |grid|
      ensures 0 <= xs[i] <= LAST && 0 <= ys[i] <= LAST
    {
      CellOf(ROWS, COLS, i);
    }
    SumsInRange(s, grid, component, xs, ys, |grid|);
    shape := Finish(s, pixels);
  }
}
