/** What one candidate records about its component: the sums and extremes that
    g6ts_find_contacts accumulates while it drains the queue. */
module Candidates {
  import opened Numbers
  import opened Sums
  import opened Grid

  const SIGNAL_ZERO: int := 180
  const ACTIVE_MAX: int := 171
  const LOGICAL_MAX: int := 32767

  /** Raw bytes of one frame. */
  ghost predicate Frame(grid: seq<int>, rows: nat, cols: nat) {
    && rows > 1 && cols > 1 && |grid| == rows * cols
    && forall i | 0 <= i < |grid| :: 0 <= grid[i] <= 255
  }

  function ActiveMask(grid: seq<int>): (mask: seq<bool>)
    ensures |mask| == |grid| && forall i | 0 <= i < |grid| :: mask[i] == (grid[i] <= ACTIVE_MAX)
  {
    seq(|grid|, i requires 0 <= i < |grid| => grid[i] <= ACTIVE_MAX)
  }

  datatype Candidate = Candidate(
    pixels: nat, strength: int, weightedX: int, weightedY: int,
    minCol: int, maxCol: int, minRow: int, maxRow: int, peak: int)

  function Empty(rows: nat, cols: nat): Candidate {
    Candidate(0, 0, 0, 0, cols - 1, 0, rows - 1, 0, 255)
  }

  /** One pass of the queue loop. */
  function Include(c: Candidate, row: nat, col: nat, value: int): Candidate {
    var strength := SIGNAL_ZERO - value;
    Candidate(c.pixels + 1, c.strength + strength,
              c.weightedX + col * strength, c.weightedY + row * strength,
              Min(c.minCol, col), Max(c.maxCol, col),
              Min(c.minRow, row), Max(c.maxRow, row),
              Min(c.peak, value))
  }

  // ----- the same quantities as properties of the set of cells

  ghost function Strengths(grid: seq<int>): (f: seq<int>)
    ensures |f| == |grid| && forall i | 0 <= i < |f| :: f[i] == SIGNAL_ZERO - grid[i]
  {
    seq(|grid|, i requires 0 <= i < |grid| => SIGNAL_ZERO - grid[i])
  }

  /** Column and row of every cell. */
  ghost function Columns(n: nat, cols: nat): (f: seq<int>)
    requires cols > 0
    ensures |f| == n && forall i: nat | i < n :: f[i] == Col(cols, i)
  {
    seq(n, (i: nat) => Col(cols, i))
  }

  ghost function RowsOf(n: nat, cols: nat): (f: seq<int>)
    requires cols > 0
    ensures |f| == n && forall i: nat | i < n :: f[i] == Row(cols, i)
  {
    seq(n, (i: nat) => Row(cols, i))
  }

  ghost function Products(f: seq<int>, g: seq<int>): (h: seq<int>)
    requires |f| == |g|
    ensures |h| == |f| && forall i | 0 <= i < |h| :: h[i] == f[i] * g[i]
  {
    seq(|f|, i requires 0 <= i < |f| => f[i] * g[i])
  }

  ghost predicate Sizes(c: Candidate, grid: seq<int>, cols: nat, xs: set<nat>)
    requires cols > 0
  {
    && c.pixels == |xs|
    && c.strength == MemberTotal(Strengths(grid), xs, |grid|)
    && c.weightedX == MemberTotal(Products(Columns(|grid|, cols), Strengths(grid)), xs, |grid|)
    && c.weightedY == MemberTotal(Products(RowsOf(|grid|, cols), Strengths(grid)), xs, |grid|)
  }

  /** v is the least value of f over xs. */
  ghost predicate Least(v: int, f: seq<int>, xs: set<nat>) {
    && (forall x | x in xs :: x < |f| && v <= f[x])
    && exists x | x in xs :: f[x] == v
  }

  ghost predicate Greatest(v: int, f: seq<int>, xs: set<nat>) {
    && (forall x | x in xs :: x < |f| && f[x] <= v)
    && exists x | x in xs :: f[x] == v
  }

  lemma LeastAdd(v: int, f: seq<int>, xs: set<nat>, x: nat)
    requires Least(v, f, xs) && x < |f|
    ensures Least(Min(v, f[x]), f, xs + {x})
  {}

  lemma GreatestAdd(v: int, f: seq<int>, xs: set<nat>, x: nat)
    requires Greatest(v, f, xs) && x < |f|
    ensures Greatest(Max(v, f[x]), f, xs + {x})
  {}

  /** The box is the bounding box of xs and the peak its least value. */
  ghost predicate TightBox(c: Candidate, grid: seq<int>, cols: nat, xs: set<nat>)
    requires cols > 0
  {
    && Least(c.minCol, Columns(|grid|, cols), xs) && Greatest(c.maxCol, Columns(|grid|, cols), xs)
    && Least(c.minRow, RowsOf(|grid|, cols), xs) && Greatest(c.maxRow, RowsOf(|grid|, cols), xs)
    && Least(c.peak, grid, xs)
  }

  /** c is the record of exactly the component xs. */
  ghost predicate Describes(c: Candidate, grid: seq<int>, cols: nat, xs: set<nat>)
    requires cols > 0
  {
    && xs != {} && (forall x | x in xs :: x < |grid|)
    && Sizes(c, grid, cols, xs)
    && TightBox(c, grid, cols, xs)
  }

  lemma IncludeSizes(c: Candidate, grid: seq<int>, cols: nat, xs: set<nat>, x: nat)
    requires cols > 0 && x < |grid| && x !in xs
    requires Sizes(c, grid, cols, xs)
    ensures Sizes(Include(c, Row(cols, x), Col(cols, x), grid[x]), grid, cols, xs + {x})
  {
    MemberTotalAdd(Strengths(grid), xs, x, |grid|);
    MemberTotalAdd(Products(Columns(|grid|, cols), Strengths(grid)), xs, x, |grid|);
    MemberTotalAdd(Products(RowsOf(|grid|, cols), Strengths(grid)), xs, x, |grid|);
  }

  lemma IncludeBox(c: Candidate, grid: seq<int>, cols: nat, xs: set<nat>, x: nat)
    requires cols > 0 && x < |grid| && TightBox(c, grid, cols, xs)
    ensures TightBox(Include(c, Row(cols, x), Col(cols, x), grid[x]), grid, cols, xs + {x})
  {
    LeastAdd(c.minCol, Columns(|grid|, cols), xs, x);
    GreatestAdd(c.maxCol, Columns(|grid|, cols), xs, x);
    LeastAdd(c.minRow, RowsOf(|grid|, cols), xs, x);
    GreatestAdd(c.maxRow, RowsOf(|grid|, cols), xs, x);
    LeastAdd(c.peak, grid, xs, x);
  }

  lemma Single(v: int, f: seq<int>, x: nat)
    requires x < |f| && v == f[x]
    ensures Least(v, f, {x}) && Greatest(v, f, {x})
  {}

  /** The first pass on an empty record. */
  lemma IncludeFirst(grid: seq<int>, rows: nat, cols: nat, x: nat)
    requires Frame(grid, rows, cols) && x < |grid|
    ensures Describes(Include(Empty(rows, cols), Row(cols, x), Col(cols, x), grid[x]), grid, cols, {x})
  {
    var c, none := Include(Empty(rows, cols), Row(cols, x), Col(cols, x), grid[x]), {};
    CellOf(rows, cols, x);
    Single(c.minCol, Columns(|grid|, cols), x);
    Single(c.minRow, RowsOf(|grid|, cols), x);
    Single(c.peak, grid, x);
    MemberTotalEnds(Strengths(grid), none, |grid|);
    MemberTotalEnds(Products(Columns(|grid|, cols), Strengths(grid)), none, |grid|);
    MemberTotalEnds(Products(RowsOf(|grid|, cols), Strengths(grid)), none, |grid|);
    IncludeSizes(Empty(rows, cols), grid, cols, none, x);
    assert none + {x} == {x};
  }

  /** Including one more cell describes one more cell. */
  lemma IncludeDescribes(c: Candidate, grid: seq<int>, cols: nat, xs: set<nat>, x: nat)
    requires cols > 0 && x < |grid| && x !in xs && Describes(c, grid, cols, xs)
    ensures Describes(Include(c, Row(cols, x), Col(cols, x), grid[x]), grid, cols, xs + {x})
  {
    IncludeSizes(c, grid, cols, xs, x);
    IncludeBox(c, grid, cols, xs, x);
  }
}
