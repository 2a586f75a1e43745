/** Fixed-point positions computed from a candidate. */
module Positions {
  import opened Numbers
  import opened Sums
  import opened Grid
  import opened Candidates

  const TWO24: int := 0x100_0000
  const TWO47: int := 0x8000_0000_0000
  const TWO48: int := 0x1_0000_0000_0000
  const U64_MAX: int := 0xffff_ffff_ffff_ffff
  const S16_MAX: int := 32767

  /** contact.x and contact.y: the weighted mean scaled so that last becomes 32767. */
  function LogicalCoordinate(weighted: int, strength: int, last: int): int
    requires strength > 0 && last > 0
  {
    weighted * LOGICAL_MAX / (strength * last)
  }

  /** contact.sensor_x_q24 and sensor_y_q24. */
  function SensorQ24(weighted: int, strength: int): int
    requires strength > 0
  {
    weighted * TWO24 / strength
  }

  /** g6ts_windows_assignment_coordinate. */
  function AssignmentCoordinate(positionQ24: int, scaleQ24: int): int {
    Min((positionQ24 * scaleQ24 + TWO47) / TWO48, S16_MAX)
  }

  // ----- division facts

  lemma DivLower(a: int, b: int, q: int)
    requires b > 0 && q * b <= a
    ensures q <= a / b
  {
    var r := a / b;
    assert a < r * b + b;
    Cancel(q, r + 1, b);
  }

  lemma DivUpper(a: int, b: int, q: int)
    requires b > 0 && a < (q + 1) * b
    ensures a / b <= q
  {
    var r := a / b;
    assert r * b <= a;
    Cancel(r, q + 1, b);
  }

  lemma Cancel(x: int, y: int, b: int)
    requires b > 0 && x * b < y * b
    ensures x < y
  {}

  lemma DivMono(a: int, a': int, b: int)
    requires b > 0 && a <= a'
    ensures a / b <= a' / b
  {
    DivLower(a', b, a / b);
  }

  lemma Scale(a: int, b: int, c: int)
    requires a <= b && 0 <= c
    ensures a * c <= b * c
  {}

  // ----- the centroid lies in the bounding box

  lemma {:induction false} WeightedBetween(f: seq<int>, g: seq<int>, xs: set<nat>, n: nat, lo: int, hi: int)
    requires n <= |f| == |g|
    requires forall i: nat | i < n && i in xs :: lo <= f[i] <= hi && g[i] >= 0
    ensures lo * MemberTotal(g, xs, n) <= MemberTotal(Products(f, g), xs, n) <= hi * MemberTotal(g, xs, n)
    ensures MemberTotal(g, xs, n) >= 0
  {
    if n > 0 {
      WeightedBetween(f, g, xs, n - 1, lo, hi);
      var rest := MemberTotal(g, xs, n - 1);
      if n - 1 in xs {
        Scale(lo, f[n - 1], g[n - 1]);
        Scale(f[n - 1], hi, g[n - 1]);
        assert lo * (rest + g[n - 1]) == lo * rest + lo * g[n - 1];
        assert hi * (rest + g[n - 1]) == hi * rest + hi * g[n - 1];
      }
    }
  }

  lemma {:induction false} PartAtMost(g: seq<int>, xs: set<nat>, n: nat, x: nat, top: int)
    requires n <= |g| && (forall i: nat | i < n && i in xs :: 0 <= g[i] <= top) && top >= 0
    ensures 0 <= MemberTotal(g, xs, n) <= n * top
    ensures x in xs && x < n ==> g[x] <= MemberTotal(g, xs, n)
  {
    if n > 0 {
      PartAtMost(g, xs, n - 1, x, top);
      assert n * top == (n - 1) * top + top;
    }
  }

  /** A component of active cells. */
  ghost predicate Component(c: Candidate, grid: seq<int>, rows: nat, cols: nat, xs: set<nat>) {
    && Frame(grid, rows, cols)
    && Describes(c, grid, cols, xs)
    && forall x | x in xs :: grid[x] <= ACTIVE_MAX
  }

  /** Weighted sums stay between the box sides times the strength. */
  lemma WeightsInBox(c: Candidate, grid: seq<int>, rows: nat, cols: nat, xs: set<nat>)
    requires Component(c, grid, rows, cols, xs)
    ensures c.strength >= SIGNAL_ZERO - ACTIVE_MAX
    ensures 0 <= c.minCol <= c.maxCol < cols && 0 <= c.minRow <= c.maxRow < rows
    ensures c.minCol * c.strength <= c.weightedX <= c.maxCol * c.strength
    ensures c.minRow * c.strength <= c.weightedY <= c.maxRow * c.strength
    ensures c.strength <= |grid| * SIGNAL_ZERO
  {
    var g, n := Strengths(grid), |grid|;
    WeightedBetween(Columns(n, cols), g, xs, n, c.minCol, c.maxCol);
    WeightedBetween(RowsOf(n, cols), g, xs, n, c.minRow, c.maxRow);
    var l :| l in xs && Columns(n, cols)[l] == c.minCol;
    var r :| r in xs && Columns(n, cols)[r] == c.maxCol;
    var t :| t in xs && RowsOf(n, cols)[t] == c.minRow;
    var b :| b in xs && RowsOf(n, cols)[b] == c.maxRow;
    CellOf(rows, cols, l);
    CellOf(rows, cols, r);
    CellOf(rows, cols, t);
    CellOf(rows, cols, b);
    PartAtMost(g, xs, n, l, SIGNAL_ZERO);
  }

  lemma LogicalAtLeast(weighted: int, strength: int, last: int, lo: int)
    requires strength > 0 && last > 0 && 0 <= lo && lo * strength <= weighted
    ensures 0 <= lo * LOGICAL_MAX / last <= LogicalCoordinate(weighted, strength, last)
  {
    var a := lo * LOGICAL_MAX / last;
    DivLower(lo * LOGICAL_MAX, last, 0);
    Scale(a * last, lo * LOGICAL_MAX, strength);
    assert a * (strength * last) == (a * last) * strength;
    assert (lo * LOGICAL_MAX) * strength == (lo * strength) * LOGICAL_MAX;
    DivLower(weighted * LOGICAL_MAX, strength * last, a);
  }

  lemma LogicalAtMost(weighted: int, strength: int, last: int, hi: int)
    requires strength > 0 && last > 0 && hi <= last && weighted <= hi * strength
    ensures LogicalCoordinate(weighted, strength, last) <= hi * LOGICAL_MAX / last <= LOGICAL_MAX
  {
    var b := hi * LOGICAL_MAX / last;
    assert hi * LOGICAL_MAX + 1 <= (b + 1) * last;
    Scale(hi * LOGICAL_MAX + 1, (b + 1) * last, strength);
    assert (b + 1) * (strength * last) == ((b + 1) * last) * strength;
    assert (hi * LOGICAL_MAX + 1) * strength == (hi * strength) * LOGICAL_MAX + strength;
    DivUpper(weighted * LOGICAL_MAX, strength * last, b);
    Scale(hi, last, LOGICAL_MAX);
    DivUpper(hi * LOGICAL_MAX, last, LOGICAL_MAX);
  }

  lemma SensorInBox(weighted: int, strength: int, lo: int, hi: int)
    requires strength > 0 && 0 <= lo <= hi
    requires lo * strength <= weighted <= hi * strength
    ensures lo * TWO24 <= SensorQ24(weighted, strength) <= hi * TWO24
  {
    assert (lo * TWO24) * strength == (lo * strength) * TWO24;
    assert (hi * TWO24 + 1) * strength == (hi * strength) * TWO24 + strength;
    DivLower(weighted * TWO24, strength, lo * TWO24);
    DivUpper(weighted * TWO24, strength, hi * TWO24);
  }

  /** The positions of a contact lie in the box of its component. */
  lemma CentroidInBox(c: Candidate, grid: seq<int>, rows: nat, cols: nat, xs: set<nat>)
    requires Component(c, grid, rows, cols, xs)
    ensures c.strength > 0
    ensures var x := LogicalCoordinate(c.weightedX, c.strength, cols - 1);
            c.minCol * LOGICAL_MAX / (cols - 1) <= x <= c.maxCol * LOGICAL_MAX / (cols - 1) && 0 <= x <= LOGICAL_MAX
    ensures var y := LogicalCoordinate(c.weightedY, c.strength, rows - 1);
            c.minRow * LOGICAL_MAX / (rows - 1) <= y <= c.maxRow * LOGICAL_MAX / (rows - 1) && 0 <= y <= LOGICAL_MAX
    ensures c.minCol * TWO24 <= SensorQ24(c.weightedX, c.strength) <= c.maxCol * TWO24
    ensures c.minRow * TWO24 <= SensorQ24(c.weightedY, c.strength) <= c.maxRow * TWO24
  {
    WeightsInBox(c, grid, rows, cols, xs);
    LogicalAtLeast(c.weightedX, c.strength, cols - 1, c.minCol);
    LogicalAtMost(c.weightedX, c.strength, cols - 1, c.maxCol);
    LogicalAtLeast(c.weightedY, c.strength, rows - 1, c.minRow);
    LogicalAtMost(c.weightedY, c.strength, rows - 1, c.maxRow);
    SensorInBox(c.weightedX, c.strength, c.minCol, c.maxCol);
    SensorInBox(c.weightedY, c.strength, c.minRow, c.maxRow);
  }

  const ROWS: nat := 46
  const COLS: nat := 68
  /** Shipped scales of the assignment coordinates. */
  const X_SCALE_Q24: nat := 68082944
  const Y_SCALE_Q24: nat := 67306464

  /** On the 46 x 68 panel every product of the position formulas fits in 64 bits. */
  lemma PositionsFit(c: Candidate, grid: seq<int>, xs: set<nat>)
    requires Component(c, grid, ROWS, COLS, xs)
    ensures 0 <= c.weightedX * LOGICAL_MAX <= U64_MAX && 0 <= c.weightedY * LOGICAL_MAX <= U64_MAX
    ensures 0 <= c.weightedX * TWO24 <= U64_MAX && 0 <= c.weightedY * TWO24 <= U64_MAX
    ensures 0 < c.strength * (COLS - 1) <= U64_MAX && c.strength < 0x1_0000_0000
    ensures SensorQ24(c.weightedX, c.strength) < 0x1_0000_0000 && SensorQ24(c.weightedY, c.strength) < 0x1_0000_0000
  {
    WeightsInBox(c, grid, ROWS, COLS, xs);
    Scale(c.maxCol, COLS, c.strength);
    Scale(c.maxRow, COLS, c.strength);
    Scale(0, c.minCol, c.strength);
    Scale(0, c.minRow, c.strength);
    CentroidInBox(c, grid, ROWS, COLS, xs);
  }

  // ----- the assignment coordinate

  /** Half-up rounding of (weighted / strength) * (scaleQ24 / 2^24). */
  ghost function RoundedHalfUp(weighted: int, strength: int, scaleQ24: int): int
    requires strength > 0
  {
    (2 * weighted * scaleQ24 + strength * TWO24) / (2 * strength * TWO24)
  }

  /** Quantising the centroid first loses at most one unit, and never gains. */
  lemma AssignmentCoordinateNearlyRounds(weighted: int, strength: int, scaleQ24: int)
    requires strength > 0 && 0 <= weighted && 0 <= scaleQ24 <= TWO48
    ensures var exact, k := Min(RoundedHalfUp(weighted, strength, scaleQ24), S16_MAX),
                            AssignmentCoordinate(SensorQ24(weighted, strength), scaleQ24);
            exact - 1 <= k <= exact
  {
    var p := SensorQ24(weighted, strength);
    var k := (p * scaleQ24 + TWO47) / TWO48;
    var d := 2 * strength * TWO24;
    var n := 2 * weighted * scaleQ24 + strength * TWO24;
    var loss := weighted * TWO24 - p * strength;
    assert 0 <= loss < strength;
    // n * 2^24 == (p * scale + 2^47) * 2 * strength + 2 * loss * scale
    assert n * TWO24 == 2 * scaleQ24 * (weighted * TWO24) + strength * TWO48;
    assert weighted * TWO24 == p * strength + loss;
    Distribute(scaleQ24, p * strength, loss);
    assert scaleQ24 * (p * strength) == (p * scaleQ24) * strength;
    var m := p * scaleQ24 + TWO47;
    assert n * TWO24 == 2 * strength * m + 2 * (scaleQ24 * loss);
    Scale(0, scaleQ24, loss);
    Scale(scaleQ24, TWO48, loss);
    KernelBelow(n, m, strength, k, loss, scaleQ24);
  }

  lemma Distribute(a: int, b: int, c: int)
    ensures a * (b + c) == a * b + a * c
  {}

  lemma KernelBelow(n: int, m: int, strength: int, k: int, loss: int, scaleQ24: int)
    requires strength > 0 && 0 <= loss < strength
    requires k == m / TWO48
    requires n * TWO24 == 2 * strength * m + 2 * (scaleQ24 * loss)
    requires 0 <= scaleQ24 * loss <= TWO48 * loss
    ensures k <= n / (2 * strength * TWO24) <= k + 1
  {
    var d := 2 * strength * TWO24;
    assert k * TWO48 <= m < (k + 1) * TWO48;
    Scale(k * TWO48, m, 2 * strength);
    Scale(m + 1, (k + 1) * TWO48, 2 * strength);
    assert (k * TWO48) * (2 * strength) == (k * d) * TWO24;
    assert ((k + 1) * TWO48) * (2 * strength) == ((k + 1) * d) * TWO24;
    assert (m + 1) * (2 * strength) == 2 * strength * m + 2 * strength;
    Cancel24(k * d, n);
    DivLower(n, d, k);
    assert n * TWO24 < ((k + 1) * d) * TWO24 + 2 * TWO48 * strength;
    assert (d) * TWO24 == 2 * TWO48 * strength;
    assert ((k + 2) * d) * TWO24 == ((k + 1) * d) * TWO24 + d * TWO24;
    Cancel(n, (k + 2) * d, TWO24);
    DivUpper(n, d, k + 1);
  }

  lemma Cancel24(a: int, n: int)
    requires a * TWO24 <= n * TWO24
    ensures a <= n
  {}

  /** With the shipped horizontal scale the two can differ. */
  lemma AssignmentCoordinateCanFallShort()
    ensures RoundedHalfUp(11359, 319, X_SCALE_Q24) == 145
    ensures AssignmentCoordinate(SensorQ24(11359, 319), X_SCALE_Q24) == 144
  {}

  /** Below the cap they agree exactly when what quantisation drops does not
      carry the fraction over the next unit. */
  lemma AssignmentCoordinateExact(weighted: int, strength: int, scaleQ24: int)
    requires strength > 0 && 0 <= weighted && 0 <= scaleQ24
    requires var p := SensorQ24(weighted, strength); (p * scaleQ24 + TWO47) / TWO48 <= S16_MAX
    ensures var p := SensorQ24(weighted, strength);
            var m := p * scaleQ24 + TWO47;
            AssignmentCoordinate(p, scaleQ24) == RoundedHalfUp(weighted, strength, scaleQ24) <==>
              strength * (m % TWO48) + scaleQ24 * (weighted * TWO24 - p * strength) < strength * TWO48
  {
    var p := SensorQ24(weighted, strength);
    var m, loss := p * scaleQ24 + TWO47, weighted * TWO24 - p * strength;
    var k, r := m / TWO48, m % TWO48;
    var n := 2 * weighted * scaleQ24 + strength * TWO24;
    assert n * TWO24 == 2 * scaleQ24 * (weighted * TWO24) + strength * TWO48;
    Distribute(scaleQ24, p * strength, loss);
    assert scaleQ24 * (p * strength) == (p * scaleQ24) * strength;
    assert n * TWO24 == 2 * strength * m + 2 * (scaleQ24 * loss);
    Scale(0, scaleQ24, loss);
    Distribute(2 * strength, k * TWO48, r);
    QuotientIs(n, strength, k, 2 * strength * r + 2 * (scaleQ24 * loss));
  }

  lemma QuotientIs(n: int, strength: int, k: int, extra: int)
    requires strength > 0 && extra >= 0
    requires n * TWO24 == 2 * strength * (k * TWO48) + extra
    ensures n / (2 * strength * TWO24) == k <==> extra < 2 * strength * TWO48
  {
    var d := 2 * strength * TWO24;
    assert n * TWO24 == (k * d) * TWO24 + extra;
    Cancel24(k * d, n);
    DivLower(n, d, k);
    if extra < 2 * strength * TWO48 {
      assert ((k + 1) * d) * TWO24 == (k * d) * TWO24 + 2 * strength * TWO48;
      Cancel(n, (k + 1) * d, TWO24);
      DivUpper(n, d, k);
    } else {
      assert ((k + 1) * d) * TWO24 == (k * d) * TWO24 + 2 * strength * TWO48;
      Cancel24((k + 1) * d, n);
      DivLower(n, d, k + 1);
    }
  }
}
