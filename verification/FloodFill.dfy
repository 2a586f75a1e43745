/** The in-place flood fill behind g6ts_find_contacts: heat_seen marks cells,
    heat_queue is the breadth-first queue of one component. */
module FloodFill {
  import opened Grid
  import opened Candidates

  /** before: cells of earlier components; region: the class being filled;
      q: the queue so far. */
  ghost predicate Filling(mask: seq<bool>, cols: nat, before: set<nat>, region: set<nat>,
                          seen: seq<bool>, q: seq<nat>) {
    && cols > 0 && |seen| == |mask|
    && NoRepeats(q) && |q| > 0
    && Closed(mask, cols, region)
    && (forall k | 0 <= k < |q| :: q[k] < |mask| && q[k] in region && q[k] !in before)
    && (forall i: nat | i < |mask| :: seen[i] <==> i in before || i in q)
  }

  /** Every marked neighbour of cell i has been seen. */
  ghost predicate Surrounded(mask: seq<bool>, cols: nat, seen: seq<bool>, i: nat)
    requires cols > 0 && |seen| == |mask|
  {
    forall y: nat {:trigger Adjacent(cols, i, y)} | y < |mask| && mask[y] && Adjacent(cols, i, y) :: seen[y]
  }

  ghost predicate Earlier(dr: int, dc: int, r: int, c: int) {
    r < dr || (r == dr && c < dc)
  }

  /** The neighbours of i at offsets before (dr, dc) have been seen. */
  ghost predicate SurroundedUpTo(mask: seq<bool>, cols: nat, seen: seq<bool>, i: nat, dr: int, dc: int)
    requires cols > 0 && |seen| == |mask|
  {
    forall y: nat {:trigger Adjacent(cols, i, y)} | y < |mask| && mask[y] && Adjacent(cols, i, y) &&
                    Earlier(dr, dc, Row(cols, y) - Row(cols, i), Col(cols, y) - Col(cols, i)) :: seen[y]
  }

  lemma Push(mask: seq<bool>, cols: nat, before: set<nat>, region: set<nat>,
             seen: seq<bool>, q: seq<nat>, b: nat, c: nat)
    requires Filling(mask, cols, before, region, seen, q)
    requires b in q && c < |mask| && mask[c] && !seen[c]
    requires Abs(Row(cols, b) - Row(cols, c)) + Abs(Col(cols, b) - Col(cols, c)) == 1
    ensures Filling(mask, cols, before, region, seen[c := true], q + [c])
    ensures |q| + 1 <= |mask|
  {
    assert Adjacent(cols, b, c);
    DistinctFit(q + [c], |mask|);
  }

  /** q is the whole class of start, apart from the earlier cells, and seen
      marks exactly the cells of both. */
  ghost predicate Filled(mask: seq<bool>, cols: nat, before: set<nat>, start: nat, seen: seq<bool>, q: seq<nat>)
    requires cols > 0
  {
    && NoRepeats(q) && |q| > 0 && q[0] == start
    && Cells(q) == Class(mask, cols, start)
    && Settled(mask, cols, before + Cells(q), seen)
    && forall x | x in Cells(q) :: x !in before
  }

  /** seen marks exactly xs, a union of whole classes. */
  ghost predicate Settled(mask: seq<bool>, cols: nat, xs: set<nat>, seen: seq<bool>)
    requires cols > 0
  {
    && |seen| == |mask|
    && Closed(mask, cols, xs)
    && (forall x | x in xs :: x < |mask| && mask[x])
    && forall i: nat | i < |mask| :: seen[i] <==> i in xs
  }

  lemma Started(mask: seq<bool>, cols: nat, before: set<nat>, start: nat, seen: seq<bool>)
    requires cols > 0 && Settled(mask, cols, before, seen)
    requires start < |mask| && mask[start] && !seen[start]
    ensures Filling(mask, cols, before, Class(mask, cols, start), seen[start := true], [start])
  {
    ReachSelf(mask, cols, start);
    ClassIsClosed(mask, cols, start);
  }

  /** When every queued cell is surrounded the queue is one whole class. */
  lemma Finished(mask: seq<bool>, cols: nat, before: set<nat>, start: nat, seen: seq<bool>, q: seq<nat>)
    requires cols > 0 && Filling(mask, cols, before, Class(mask, cols, start), seen, q)
    requires Closed(mask, cols, before) && q[0] == start
    requires forall x | x in before :: x < |mask| && mask[x]
    requires forall k | 0 <= k < |q| :: Surrounded(mask, cols, seen, q[k])
    ensures Filled(mask, cols, before, start, seen, q)
  {
    var xs := Cells(q);
    forall x | x in xs
      ensures x < |mask| && mask[x]
    {
      var p :| Links(mask, cols, p, start, x);
    }
    forall x: nat, y: nat | x in xs && y < |mask| && mask[y] && Adjacent(cols, x, y)
      ensures y in xs
    {
      assert Surrounded(mask, cols, seen, x);
      assert Adjacent(cols, y, x);
      assert y !in before;
    }
    assert q[0] in xs;
    ClosedIsClass(mask, cols, xs, start);
  }

  ghost predicate Grew(seen: seq<bool>, seen': seq<bool>) {
    && |seen| == |seen'|
    && forall i | 0 <= i < |seen| && seen[i] :: seen'[i]
  }

  class Scanner {
    const rows: nat
    const cols: nat
    const seen: array<bool>
    const queue: array<nat>

    ghost predicate Valid() {
      cols > 0 && seen.Length == rows * cols && queue.Length == rows * cols
    }

    constructor (rows: nat, cols: nat)
      requires cols > 0
      ensures Valid() && this.rows == rows && this.cols == cols && fresh(seen) && fresh(queue)
    {
      this.rows, this.cols := rows, cols;
      seen := new bool[rows * cols];
      queue := new nat[rows * cols];
    }

    /** Queue the unseen marked neighbours of cell index. */
    method PushNeighbours(mask: seq<bool>, index: nat, tail: nat, ghost before: set<nat>, ghost region: set<nat>)
      returns (newTail: nat)
      requires Valid() && Mask(mask, rows, cols)
      requires tail <= queue.Length && index in queue[..tail]
      requires Filling(mask, cols, before, region, seen[..], queue[..tail])
      modifies seen, queue
      ensures tail <= newTail <= queue.Length && old(queue[..tail]) <= queue[..newTail]
      ensures Filling(mask, cols, before, region, seen[..], queue[..newTail])
      ensures Surrounded(mask, cols, seen[..], index)
      ensures Grew(old(seen[..]), seen[..])
    {
      var row, col := index / cols, index % cols;
      RowColDivide(cols, index);
      newTail := tail;
      NoneDone(mask, cols, seen[..], index);
      for dr := -1 to 2
        invariant tail <= newTail <= queue.Length && old(queue[..tail]) <= queue[..newTail]
        invariant Filling(mask, cols, before, region, seen[..], queue[..newTail])
        invariant SurroundedUpTo(mask, cols, seen[..], index, dr, -1)
        invariant Grew(old(seen[..]), seen[..])
      {
        for dc := -1 to 2
          invariant tail <= newTail <= queue.Length && old(queue[..tail]) <= queue[..newTail]
          invariant Filling(mask, cols, before, region, seen[..], queue[..newTail])
          invariant SurroundedUpTo(mask, cols, seen[..], index, dr, dc)
          invariant Grew(old(seen[..]), seen[..])
        {
          newTail := PushNeighbour(mask, index, newTail, before, region, row, col, dr, dc);
        }
        RowDone(mask, cols, seen[..], index, dr);
      }
      RowsDone(mask, cols, seen[..], index);
    }

    /** Body of the neighbour loops. */
    method PushNeighbour(mask: seq<bool>, index: nat, tail: nat, ghost before: set<nat>, ghost region: set<nat>,
                         row: nat, col: nat, dr: int, dc: int) returns (newTail: nat)
      requires Valid() && Mask(mask, rows, cols)
      requires tail <= queue.Length && index in queue[..tail]
      requires Filling(mask, cols, before, region, seen[..], queue[..tail])
      requires row == Row(cols, index) && col == Col(cols, index) && -1 <= dr <= 1 && -1 <= dc <= 1
      requires SurroundedUpTo(mask, cols, seen[..], index, dr, dc)
      modifies seen, queue
      ensures tail <= newTail <= queue.Length && old(queue[..tail]) <= queue[..newTail]
      ensures Filling(mask, cols, before, region, seen[..], queue[..newTail])
      ensures SurroundedUpTo(mask, cols, seen[..], index, dr, dc + 1)
      ensures Grew(old(seen[..]), seen[..])
    {
      newTail := tail;
      var nr, nc := row + dr, col + dc;
      if Abs(dr) + Abs(dc) != 1 || nr < 0 || nr >= rows || nc < 0 || nc >= cols {
        OffGrid(mask, rows, cols, seen[..], index, dr, dc);
        return;
      }
      var neighbour := nr * cols + nc;
      CellAt(rows, cols, nr, nc);
      ghost var q, marks := queue[..tail], seen[..];
      if !seen[neighbour] && mask[neighbour] {
        Push(mask, cols, before, region, marks, q, index, neighbour);
        seen[neighbour] := true;
        queue[tail] := neighbour;
        newTail := tail + 1;
        assert queue[..newTail] == q + [neighbour] && seen[..] == marks[neighbour := true];
      }
      OnGrid(mask, rows, cols, marks, seen[..], index, dr, dc, neighbour);
    }

    /** Body of the queue loop: record one cell and queue its neighbours. */
    method Drain(mask: seq<bool>, grid: seq<int>, ghost before: set<nat>, ghost region: set<nat>, head: nat, tail: nat, c: Candidate)
      returns (newTail: nat, c': Candidate)
      requires Valid() && Mask(mask, rows, cols) && Frame(grid, rows, cols) && |grid| == |mask|
      requires head < tail <= queue.Length
      requires Draining(mask, grid, rows, cols, before, region, seen[..], queue[..tail], head, c)
      modifies seen, queue
      ensures tail <= newTail <= queue.Length && queue[0] == old(queue[0])
      ensures Draining(mask, grid, rows, cols, before, region, seen[..], queue[..newTail], head + 1, c')
    {
      var index := queue[head];
      ghost var q, marks := queue[..tail], seen[..];
      assert index == q[head] && index < |mask|;
      var value := grid[index];
      RowColDivide(cols, index);
      c' := Include(c, index / cols, index % cols, value);
      newTail := PushNeighbours(mask, index, tail, before, region);
      Drained(mask, grid, rows, cols, before, region, marks, q, seen[..], queue[..newTail], head, c);
    }

    /** The queue loop, from a queue that holds only the start cell. */
    method DrainQueue(mask: seq<bool>, grid: seq<int>, ghost before: set<nat>, ghost region: set<nat>)
      returns (tail: nat, c: Candidate)
      requires Valid() && Mask(mask, rows, cols) && Frame(grid, rows, cols) && |grid| == |mask|
      requires 0 < queue.Length && Filling(mask, cols, before, region, seen[..], queue[..1])
      modifies seen, queue
      ensures 0 < tail <= queue.Length && queue[0] == old(queue[0])
      ensures Draining(mask, grid, rows, cols, before, region, seen[..], queue[..tail], tail, c)
    {
      var head := 0;
      tail, c := 1, Empty(rows, cols);
      while head < tail
        invariant head <= tail <= queue.Length && 0 < tail && queue[0] == old(queue[0])
        invariant Draining(mask, grid, rows, cols, before, region, seen[..], queue[..tail], head, c)
        decreases queue.Length - head
      {
        tail, c := Drain(mask, grid, before, region, head, tail, c);
        head := head + 1;
      }
    }

    /** One component: the queue ends up holding the class of start, and the
        record accumulated on the way describes exactly that class. */
    method Fill(mask: seq<bool>, grid: seq<int>, start: nat, ghost before: set<nat>) returns (tail: nat, c: Candidate)
      requires Valid() && Mask(mask, rows, cols) && Frame(grid, rows, cols) && |grid| == |mask|
      requires start < |mask| && mask[start] && !seen[start]
      requires Settled(mask, cols, before, seen[..])
      modifies seen, queue
      ensures 0 < tail <= queue.Length && Filled(mask, cols, before, start, seen[..], queue[..tail])
      ensures Describes(c, grid, cols, Class(mask, cols, start))
    {
      Started(mask, cols, before, start, seen[..]);
      seen[start] := true;
      queue[0] := start;
      assert queue[..1] == [start];
      tail, c := DrainQueue(mask, grid, before, Class(mask, cols, start));
      DrainedAll(mask, grid, rows, cols, before, start, seen[..], queue[..tail], c);
    }
  }

  /** Queue loop: the first head cells are surrounded and recorded in c. */
  ghost predicate Draining(mask: seq<bool>, grid: seq<int>, rows: nat, cols: nat, before: set<nat>, region: set<nat>,
                           seen: seq<bool>, q: seq<nat>, head: nat, c: Candidate) {
    && Filling(mask, cols, before, region, seen, q)
    && head <= |q| && |grid| == |mask|
    && (forall k | 0 <= k < head :: Surrounded(mask, cols, seen, q[k]))
    && c == Summary(grid, rows, cols, q, head)
  }

  /** The cells surrounded so far stay surrounded, and q[head] joins them. */
  lemma SurroundedNext(mask: seq<bool>, cols: nat, seen: seq<bool>, q: seq<nat>, seen': seq<bool>, q': seq<nat>, head: nat)
    requires cols > 0 && |seen| == |mask| && head < |q| && q <= q'
    requires forall k | 0 <= k < head :: Surrounded(mask, cols, seen, q[k])
    requires Grew(seen, seen') && Surrounded(mask, cols, seen', q[head])
    ensures forall k | 0 <= k < head + 1 :: Surrounded(mask, cols, seen', q'[k])
  {}

  lemma Drained(mask: seq<bool>, grid: seq<int>, rows: nat, cols: nat, before: set<nat>, region: set<nat>,
                seen: seq<bool>, q: seq<nat>, seen': seq<bool>, q': seq<nat>, head: nat, c: Candidate)
    requires Draining(mask, grid, rows, cols, before, region, seen, q, head, c)
    requires head < |q| && Filling(mask, cols, before, region, seen', q') && q <= q'
    requires Surrounded(mask, cols, seen', q[head]) && Grew(seen, seen')
    ensures Draining(mask, grid, rows, cols, before, region, seen', q', head + 1,
                     Include(c, Row(cols, q[head]), Col(cols, q[head]), grid[q[head]]))
  {
    SummaryOfPrefix(grid, rows, cols, q, q', head);
    assert q'[head] == q[head];
    SurroundedNext(mask, cols, seen, q, seen', q', head);
  }

  lemma DrainedAll(mask: seq<bool>, grid: seq<int>, rows: nat, cols: nat, before: set<nat>, start: nat,
                   seen: seq<bool>, q: seq<nat>, c: Candidate)
    requires Frame(grid, rows, cols)
    requires Draining(mask, grid, rows, cols, before, Class(mask, cols, start), seen, q, |q|, c)
    requires Closed(mask, cols, before) && q[0] == start
    requires forall x | x in before :: x < |mask| && mask[x]
    ensures Filled(mask, cols, before, start, seen, q)
    ensures Describes(c, grid, cols, Class(mask, cols, start))
  {
    Finished(mask, cols, before, start, seen, q);
    AllFirstCells(q);
    SummaryDescribes(grid, rows, cols, q, |q|);
  }

  /** The record after popping the first head cells. */
  ghost function Summary(grid: seq<int>, rows: nat, cols: nat, q: seq<nat>, head: nat): Candidate
    requires cols > 0 && head <= |q| && forall k | 0 <= k < |q| :: q[k] < |grid|
  {
    if head == 0 then Empty(rows, cols)
    else Include(Summary(grid, rows, cols, q, head - 1), Row(cols, q[head - 1]), Col(cols, q[head - 1]), grid[q[head - 1]])
  }

  lemma {:induction false} SummaryOfPrefix(grid: seq<int>, rows: nat, cols: nat, q: seq<nat>, q': seq<nat>, head: nat)
    requires cols > 0 && head <= |q| && q <= q' && forall k | 0 <= k < |q'| :: q'[k] < |grid|
    ensures Summary(grid, rows, cols, q, head) == Summary(grid, rows, cols, q', head)
  {
    if head > 0 {
      SummaryOfPrefix(grid, rows, cols, q, q', head - 1);
      assert q[head - 1] == q'[head - 1];
    }
  }

  ghost function FirstCells(q: seq<nat>, head: nat): set<nat>
    requires head <= |q|
  {
    if head == 0 then {} else FirstCells(q, head - 1) + {q[head - 1]}
  }

  lemma {:induction false} FirstCellsAre(q: seq<nat>, head: nat, x: nat)
    requires head <= |q|
    ensures x in FirstCells(q, head) <==> exists k | 0 <= k < head :: q[k] == x
  {
    if head > 0 {
      FirstCellsAre(q, head - 1, x);
    }
  }

  lemma AllFirstCells(q: seq<nat>)
    ensures FirstCells(q, |q|) == Cells(q)
  {
    forall x: nat
      ensures x in FirstCells(q, |q|) <==> x in Cells(q)
    {
      FirstCellsAre(q, |q|, x);
    }
  }

  lemma NotYetPopped(q: seq<nat>, head: nat)
    requires NoRepeats(q) && 0 < head <= |q|
    ensures q[head - 1] !in FirstCells(q, head - 1)
  {
    FirstCellsAre(q, head - 1, q[head - 1]);
  }

  /** The record does not depend on the order in which the cells were popped. */
  lemma {:induction false} SummaryDescribes(grid: seq<int>, rows: nat, cols: nat, q: seq<nat>, head: nat)
    requires Frame(grid, rows, cols) && NoRepeats(q) && 0 < head <= |q| && forall k | 0 <= k < |q| :: q[k] < |grid|
    ensures Describes(Summary(grid, rows, cols, q, head), grid, cols, FirstCells(q, head))
  {
    var xs, x := FirstCells(q, head - 1), q[head - 1];
    if head == 1 {
      assert xs + {x} == {x};
      IncludeFirst(grid, rows, cols, x);
    } else {
      SummaryDescribes(grid, rows, cols, q, head - 1);
      NotYetPopped(q, head);
      IncludeDescribes(Summary(grid, rows, cols, q, head - 1), grid, cols, xs, x);
    }
  }

  /** Neighbours differ by at most one in each direction. */
  lemma NoneDone(mask: seq<bool>, cols: nat, seen: seq<bool>, i: nat)
    requires cols > 0 && |seen| == |mask|
    ensures SurroundedUpTo(mask, cols, seen, i, -1, -1)
  {}

  lemma RowDone(mask: seq<bool>, cols: nat, seen: seq<bool>, i: nat, dr: int)
    requires cols > 0 && |seen| == |mask| && SurroundedUpTo(mask, cols, seen, i, dr, 2)
    ensures SurroundedUpTo(mask, cols, seen, i, dr + 1, -1)
  {}

  lemma RowsDone(mask: seq<bool>, cols: nat, seen: seq<bool>, i: nat)
    requires cols > 0 && |seen| == |mask| && SurroundedUpTo(mask, cols, seen, i, 2, -1)
    ensures Surrounded(mask, cols, seen, i)
  {}

  lemma OffGrid(mask: seq<bool>, rows: nat, cols: nat, seen: seq<bool>, index: nat, dr: int, dc: int)
    requires Mask(mask, rows, cols) && |seen| == |mask| && index < |mask|
    requires SurroundedUpTo(mask, cols, seen, index, dr, dc)
    requires var nr, nc := Row(cols, index) + dr, Col(cols, index) + dc;
             Abs(dr) + Abs(dc) != 1 || nr < 0 || nr >= rows || nc < 0 || nc >= cols
    ensures SurroundedUpTo(mask, cols, seen, index, dr, dc + 1)
  {
    forall y: nat | y < |mask| && mask[y] && Adjacent(cols, index, y) &&
                    Earlier(dr, dc + 1, Row(cols, y) - Row(cols, index), Col(cols, y) - Col(cols, index))
      ensures seen[y]
    {
      CellOf(rows, cols, y);
    }
  }

  /** The cell at offset (dr, dc) is the only one there. */
  lemma OnGrid(mask: seq<bool>, rows: nat, cols: nat, seen: seq<bool>, seen': seq<bool>,
               index: nat, dr: int, dc: int, neighbour: nat)
    requires Mask(mask, rows, cols) && |seen| == |mask| && index < |mask| && neighbour < |mask|
    requires SurroundedUpTo(mask, cols, seen, index, dr, dc) && Grew(seen, seen')
    requires Row(cols, neighbour) == Row(cols, index) + dr && Col(cols, neighbour) == Col(cols, index) + dc
    requires seen'[neighbour] || !mask[neighbour]
    ensures SurroundedUpTo(mask, cols, seen', index, dr, dc + 1)
  {
    forall y: nat | y < |mask| && mask[y] && Adjacent(cols, index, y) &&
                    Earlier(dr, dc + 1, Row(cols, y) - Row(cols, index), Col(cols, y) - Col(cols, index))
      ensures seen'[y]
    {
      CellOf(rows, cols, y);
      CellOf(rows, cols, neighbour);
    }
  }
}
