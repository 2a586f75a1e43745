/** Four-connected reachability among the marked cells of a row-major grid. */
module Grid {
  import opened Sums

  /** mask has one entry per cell of a grid with rows x cols cells. */
  ghost predicate Mask(mask: seq<bool>, rows: nat, cols: nat) {
    cols > 0 && |mask| == rows * cols
  }

  /** Row and column of cell i, by counting whole rows off. */
  ghost function Row(cols: nat, i: nat): nat
    requires cols > 0
  {
    if i < cols then 0 else 1 + Row(cols, i - cols)
  }

  ghost function Col(cols: nat, i: nat): nat
    requires cols > 0
  {
    if i < cols then i else Col(cols, i - cols)
  }

  /** The code divides. */
  lemma {:induction false} RowColDivide(cols: nat, i: nat)
    requires cols > 0
    ensures Row(cols, i) == i / cols && Col(cols, i) == i % cols
  {
    if i >= cols {
      RowColDivide(cols, i - cols);
      DivisionIs(i, cols, (i - cols) / cols + 1, (i - cols) % cols);
    } else {
      DivisionIs(i, cols, 0, i);
    }
  }

  function Abs(x: int): nat {
    if x < 0 then -x else x
  }

  ghost predicate Adjacent(cols: nat, i: nat, j: nat)
    requires cols > 0
  {
    Abs(Row(cols, i) - Row(cols, j)) + Abs(Col(cols, i) - Col(cols, j)) == 1
  }

  lemma CellAt(rows: nat, cols: nat, row: nat, col: nat)
    requires row < rows && col < cols
    ensures row * cols + col < rows * cols
    ensures Row(cols, row * cols + col) == row && Col(cols, row * cols + col) == col
  {
    MultipleMono(row, rows - 1, cols);
    var i := row * cols + col;
    RowColDivide(cols, i);
    DivisionIs(i, cols, row, col);
  }

  lemma DivisionIs(i: nat, cols: nat, q: nat, r: nat)
    requires cols > 0 && i == q * cols + r && r < cols
    ensures i / cols == q && i % cols == r
  {
    var d := i / cols - q;
    assert i == (i / cols) * cols + i % cols;
    assert d * cols == r - i % cols;
    WholeMultiple(d, cols);
  }

  lemma WholeMultiple(d: int, cols: int)
    requires cols > 0
    ensures d >= 1 ==> d * cols >= cols
    ensures d <= -1 ==> d * cols <= -cols
  {}

  lemma CellOf(rows: nat, cols: nat, i: nat)
    requires cols > 0 && i < rows * cols
    ensures Row(cols, i) < rows && Col(cols, i) < cols
    ensures i == Row(cols, i) * cols + Col(cols, i)
  {}

  lemma MultipleMono(a: nat, b: nat, c: nat)
    ensures a <= b ==> a * c <= b * c
  {}

  ghost predicate Path(mask: seq<bool>, cols: nat, p: seq<nat>)
    requires cols > 0
  {
    && |p| > 0
    && (forall k | 0 <= k < |p| :: p[k] < |mask| && mask[p[k]])
    && forall k | 0 <= k < |p| - 1 :: Adjacent(cols, p[k], p[k + 1])
  }

  ghost predicate Links(mask: seq<bool>, cols: nat, p: seq<nat>, a: nat, b: nat)
    requires cols > 0
  {
    Path(mask, cols, p) && p[0] == a && p[|p| - 1] == b
  }

  /** b can be reached from a through marked cells. */
  ghost predicate Reach(mask: seq<bool>, cols: nat, a: nat, b: nat)
    requires cols > 0
  {
    exists p :: Links(mask, cols, p, a, b)
  }

  lemma ReachSelf(mask: seq<bool>, cols: nat, a: nat)
    requires cols > 0 && a < |mask| && mask[a]
    ensures Reach(mask, cols, a, a)
  {
    assert Links(mask, cols, [a], a, a);
  }

  lemma ReachStep(mask: seq<bool>, cols: nat, a: nat, b: nat, c: nat)
    requires cols > 0 && Reach(mask, cols, a, b)
    requires c < |mask| && mask[c] && Adjacent(cols, b, c)
    ensures Reach(mask, cols, a, c)
  {
    var p :| Links(mask, cols, p, a, b);
    assert Links(mask, cols, p + [c], a, c);
  }

  lemma {:induction false} ReachTransitive(mask: seq<bool>, cols: nat, a: nat, b: nat, c: nat)
    requires cols > 0 && Reach(mask, cols, a, b) && Reach(mask, cols, b, c)
    ensures Reach(mask, cols, a, c)
  {
    var p :| Links(mask, cols, p, a, b);
    var q :| Links(mask, cols, q, b, c);
    var pq := p + q[1..];
    assert forall k | |p| - 1 <= k < |pq| :: pq[k] == q[k - (|p| - 1)];
    assert Links(mask, cols, pq, a, c);
  }

  ghost function Reversed(p: seq<nat>): (r: seq<nat>)
    ensures |r| == |p| && forall k | 0 <= k < |p| :: r[k] == p[|p| - 1 - k]
  {
    seq(|p|, k requires 0 <= k < |p| => p[|p| - 1 - k])
  }

  lemma ReachSymmetric(mask: seq<bool>, cols: nat, a: nat, b: nat)
    requires cols > 0 && Reach(mask, cols, a, b)
    ensures Reach(mask, cols, b, a)
  {
    var p :| Links(mask, cols, p, a, b);
    var r := Reversed(p);
    forall k | 0 <= k < |r| - 1
      ensures Adjacent(cols, r[k], r[k + 1])
    {
      assert Adjacent(cols, p[|p| - 2 - k], p[|p| - 2 - k + 1]);
    }
    assert Links(mask, cols, r, b, a);
  }

  /** Marked cells next to a member are members. */
  ghost predicate Closed(mask: seq<bool>, cols: nat, xs: set<nat>)
    requires cols > 0
  {
    forall x: nat, y: nat {:trigger Adjacent(cols, x, y)} | x in xs && y < |mask| && mask[y] && Adjacent(cols, x, y) :: y in xs
  }

  lemma {:induction false} PathStaysIn(mask: seq<bool>, cols: nat, xs: set<nat>, p: seq<nat>)
    requires cols > 0 && Closed(mask, cols, xs) && Path(mask, cols, p) && p[0] in xs
    ensures p[|p| - 1] in xs
  {
    if |p| > 1 {
      var front := p[..|p| - 1];
      PathStaysIn(mask, cols, xs, front);
      assert Adjacent(cols, p[|p| - 2], p[|p| - 2 + 1]);
    }
  }

  /** The equivalence class of a under reachability. */
  ghost function Class(mask: seq<bool>, cols: nat, a: nat): set<nat>
    requires cols > 0
  {
    set b: nat | b < |mask| && Reach(mask, cols, a, b)
  }

  /** A closed set of cells reachable from its member a is the class of a. */
  lemma ClosedIsClass(mask: seq<bool>, cols: nat, xs: set<nat>, a: nat)
    requires cols > 0 && a in xs && Closed(mask, cols, xs)
    requires forall x | x in xs :: x < |mask| && Reach(mask, cols, a, x)
    ensures xs == Class(mask, cols, a)
  {
    forall b: nat | b < |mask| && Reach(mask, cols, a, b)
      ensures b in xs
    {
      var p :| Links(mask, cols, p, a, b);
      PathStaysIn(mask, cols, xs, p);
    }
  }

  lemma ClassIsClosed(mask: seq<bool>, cols: nat, a: nat)
    requires cols > 0
    ensures Closed(mask, cols, Class(mask, cols, a))
  {
    forall x: nat, y: nat | x in Class(mask, cols, a) && y < |mask| && mask[y] && Adjacent(cols, x, y)
      ensures y in Class(mask, cols, a)
    {
      ReachStep(mask, cols, a, x, y);
    }
  }

  /** Related cells have one class, unrelated cells disjoint classes. */
  lemma ClassesPartition(mask: seq<bool>, cols: nat, a: nat, b: nat)
    requires cols > 0 && a < |mask| && b < |mask| && mask[a] && mask[b]
    ensures a in Class(mask, cols, a)
    ensures Reach(mask, cols, a, b) ==> Class(mask, cols, a) == Class(mask, cols, b)
    ensures !Reach(mask, cols, a, b) ==> Class(mask, cols, a) !! Class(mask, cols, b)
  {
    ReachSelf(mask, cols, a);
    if Reach(mask, cols, a, b) {
      ReachSymmetric(mask, cols, a, b);
      forall c: nat | c < |mask|
        ensures Reach(mask, cols, a, c) <==> Reach(mask, cols, b, c)
      {
        if Reach(mask, cols, a, c) {
          ReachTransitive(mask, cols, b, a, c);
        }
        if Reach(mask, cols, b, c) {
          ReachTransitive(mask, cols, a, b, c);
        }
      }
    } else {
      forall c: nat | c in Class(mask, cols, a)
        ensures c !in Class(mask, cols, b)
      {
        if Reach(mask, cols, b, c) {
          ReachSymmetric(mask, cols, b, c);
          ReachTransitive(mask, cols, a, c, b);
        }
      }
    }
  }

  ghost predicate NoRepeats(q: seq<nat>) {
    forall j, k | 0 <= j < k < |q| :: q[j] != q[k]
  }

  /** Distinct cells of an n-cell grid fit in n queue places. */
  lemma {:induction false} DistinctFit(q: seq<nat>, n: nat)
    requires NoRepeats(q) && forall k | 0 <= k < |q| :: q[k] < n
    ensures |q| <= n
    ensures |Cells(q)| == |q|
  {
    CellsSize(q);
    assert Cells(q) <= Below(n);
    SubsetSize(Cells(q), Below(n));
  }

  ghost function Cells(q: seq<nat>): set<nat> {
    set k | 0 <= k < |q| :: q[k]
  }

  lemma {:induction false} CellsSize(q: seq<nat>)
    requires NoRepeats(q)
    ensures |Cells(q)| == |q|
  {
    if |q| > 0 {
      var front := q[..|q| - 1];
      CellsSize(front);
      assert Cells(q) == Cells(front) + {q[|q| - 1]};
      assert q[|q| - 1] !in Cells(front);
    }
  }

  lemma SubsetSize(a: set<nat>, b: set<nat>)
    requires a <= b
    ensures |a| <= |b|
  {
    assert b == a + (b - a);
  }
}
