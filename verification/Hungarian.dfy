/** The square assignment solver of g6ts_assign_tracks, on its own work arrays. */
module Hungarian {
  import opened HungarianSpec

  /** The four facts one growth step of an augmentation starts from. */
  ghost predicate Growing(c: Matrix, n: nat, top: nat, u: seq<int>, v: seq<int>, p: seq<int>,
                          used: seq<bool>, way: seq<int>, minv: seq<int>, rank: seq<nat>, j0: int) {
    && Tree(c, n, top, u, v, p, used, way, rank)
    && Frontiers(c, n, top, u, v, p, used, used, minv, way)
    && Distinct(n, p, 0)
    && 0 <= j0 <= n && !used[j0]
    && if j0 == 0 then forall k | 0 <= k <= n :: !used[k]
       else used[0] && minv[j0] == 0
  }

  /** Column j0 joins the tree with a rank above every used column. */
  lemma JoinTree(c: Matrix, n: nat, top: nat, u: seq<int>, v: seq<int>, p: seq<int>,
                 used: seq<bool>, way: seq<int>, minv: seq<int>, rank: seq<nat>, j0: int,
                 height: nat, used': seq<bool>, rank': seq<nat>)
    requires Growing(c, n, top, u, v, p, used, way, minv, rank, j0)
    requires p[j0] != 0
    requires Below(n, used, rank, height)
    requires used' == used[j0 := true] && rank' == rank[j0 := height]
    ensures Tree(c, n, top, u, v, p, used', way, rank')
    ensures Frontiers(c, n, top, u, v, p, used', used, minv, way)
    ensures used'[0]
  {
    forall k | 1 <= k <= n && used'[k]
      ensures ToParent(c, n, top, u, v, p, used', way, rank', k)
    {
      if k == j0 {
        assert Frontier(c, n, top, u, v, p, used, minv, way, k);
      } else {
        assert ToParent(c, n, top, u, v, p, used, way, rank, k);
      }
    }
    forall j | 1 <= j <= n && !used'[j]
      ensures Frontier(c, n, top, u, v, p, used, minv, way, j)
    {
      assert !used[j];
    }
  }

  /** Slacks of one row, entry 0 unused. */
  ghost function RowSlack(c: Matrix, n: nat, u: seq<int>, v: seq<int>, r: int): (s: seq<int>)
    requires |c| == n && forall q | 0 <= q < n :: |c[q]| == n
    requires |u| > n && |v| > n && 1 <= r <= n
    ensures |s| == n + 1 && forall j | 1 <= j <= n :: s[j] == Slack(c, n, u, v, r, j)
  {
    seq(n + 1, j requires 0 <= j <= n => if j == 0 then 0 else Slack(c, n, u, v, r, j))
  }

  /** The row can be scanned without leaving 32 bits. */
  ghost predicate RowInRange(c: Matrix, n: nat, top: nat, u: seq<int>, v: seq<int>, r: int) {
    && |c| == n && (forall q | 0 <= q < n :: |c[q]| == n)
    && |u| > n && |v| > n && 1 <= r <= n && 0 <= u[r] <= top
    && forall j | 1 <= j <= n :: 0 <= c[r - 1][j - 1] <= top && 0 <= Slack(c, n, u, v, r, j) <= 2 * top
  }

  ghost predicate Improves(s: seq<int>, used: seq<bool>, minv: seq<int>, j: int)
    requires 0 <= j < |s| && j < |used| && j < |minv|
  {
    j != 0 && !used[j] && s[j] < minv[j]
  }

  ghost function RelaxMin(n: nat, s: seq<int>, used: seq<bool>, minv: seq<int>): (m: seq<int>)
    requires |s| > n && |used| > n && |minv| > n
    ensures |m| == n + 1
  {
    seq(n + 1, j requires 0 <= j <= n => if Improves(s, used, minv, j) then s[j] else minv[j])
  }

  ghost function RelaxWay(n: nat, s: seq<int>, used: seq<bool>, j0: int, minv: seq<int>, way: seq<int>): (w: seq<int>)
    requires |s| > n && |used| > n && |minv| > n && |way| > n
    ensures |w| == n + 1
  {
    seq(n + 1, j requires 0 <= j <= n => if Improves(s, used, minv, j) then j0 else way[j])
  }

  /** Effect of scanning a row of slacks s once over the unused columns. */
  ghost predicate Relaxed(n: nat, s: seq<int>, used: seq<bool>, j0: int,
                          minv: seq<int>, way: seq<int>, minv': seq<int>, way': seq<int>) {
    && |s| > n && |used| > n && |minv| > n && |way| > n && |minv'| > n && |way'| > n
    && forall j | 0 <= j <= n :: minv'[j] == RelaxMin(n, s, used, minv)[j] && way'[j] == RelaxWay(n, s, used, j0, minv, way)[j]
  }

  lemma RelaxKeeps(c: Matrix, n: nat, top: nat, u: seq<int>, v: seq<int>, p: seq<int>,
                   used: seq<bool>, seen: seq<bool>, rank: seq<nat>, j0: int,
                   minv: seq<int>, way: seq<int>, minv': seq<int>, way': seq<int>)
    requires Tree(c, n, top, u, v, p, used, way, rank)
    requires Frontiers(c, n, top, u, v, p, used, seen, minv, way)
    requires 0 <= j0 <= n && used[j0]
    requires forall k | 0 <= k <= n :: used[k] == (seen[k] || k == j0)
    requires |minv'| > n && |way'| > n
    requires forall j | 1 <= j <= n :: Slack(c, n, u, v, p[j0], j) < INT_MAX
    requires Relaxed(n, RowSlack(c, n, u, v, p[j0]), used, j0, minv, way, minv', way')
    ensures Tree(c, n, top, u, v, p, used, way', rank)
    ensures Frontiers(c, n, top, u, v, p, used, used, minv', way')
    ensures forall j | 1 <= j <= n && !used[j] :: 0 <= minv'[j] < INT_MAX
  {
    forall k | 1 <= k <= n && used[k]
      ensures ToParent(c, n, top, u, v, p, used, way', rank, k)
    {
      assert ToParent(c, n, top, u, v, p, used, way, rank, k);
    }
    forall j | 1 <= j <= n && !used[j]
      ensures Frontier(c, n, top, u, v, p, used, minv', way', j)
      ensures 0 <= minv'[j] < INT_MAX
    {
      assert Frontier(c, n, top, u, v, p, seen, minv, way, j);
    }
  }

  /** What remains to be done when the free column j0 has been reached: every
      row except the one in the hole column is matched tightly and only once. */
  ghost predicate Chain(c: Matrix, n: nat, top: nat, u: seq<int>, v: seq<int>, p: seq<int>,
                        before: seq<int>, way: seq<int>, rank: seq<nat>, hole: int) {
    && Potentials(c, n, top, u, v)
    && |p| > n && |before| > n && |way| > n && |rank| > n && 0 <= hole <= n
    && (forall j | 0 <= j <= n :: 0 <= p[j] <= n)
    && (forall j, k | 0 <= j < k <= n && j != hole && k != hole && p[j] != 0 :: p[j] != p[k])
    && (forall j | 1 <= j <= n && j != hole :: Tight(c, n, top, u, v, p, j))
    && (forall j | 0 <= j <= n && rank[j] < rank[hole] :: p[j] == before[j])
  }

  lemma ChainStep(c: Matrix, n: nat, top: nat, u: seq<int>, v: seq<int>, p: seq<int>,
                  before: seq<int>, way: seq<int>, rank: seq<nat>, hole: int, p': seq<int>)
    requires Chain(c, n, top, u, v, p, before, way, rank, hole)
    requires 1 <= hole && 0 <= way[hole] <= n && rank[way[hole]] < rank[hole]
    requires 0 < before[way[hole]] <= n && Slack(c, n, u, v, before[way[hole]], hole) == 0
    requires p' == p[hole := p[way[hole]]]
    ensures Chain(c, n, top, u, v, p', before, way, rank, way[hole])
  {
    forall j | 1 <= j <= n && j != way[hole]
      ensures Tight(c, n, top, u, v, p', j)
    {
      if j != hole {
        assert Tight(c, n, top, u, v, p, j);
      }
    }
  }

  /** The tree at the end of the growth: start is free and hangs on it. */
  ghost predicate Chained(c: Matrix, n: nat, top: nat, u: seq<int>, v: seq<int>, p: seq<int>,
                          tree: seq<bool>, way: seq<int>, rank: seq<nat>, start: int) {
    && Matched(c, n, top, u, v, p) && Distinct(n, p, 0)
    && |tree| > n && |way| > n && |rank| > n
    && 1 <= start <= n && p[start] == 0 && p[0] != 0
    && (forall k | 0 <= k <= n && tree[k] :: p[k] != 0)
    && forall k | 1 <= k <= n && (k == start || tree[k]) :: ToParent(c, n, top, u, v, p, tree, way, rank, k)
  }

  ghost predicate Lowered(n: nat, used: seq<bool>, delta: int, minv: seq<int>, minv': seq<int>) {
    && |used| > n && |minv| > n && |minv'| > n
    && forall j | 1 <= j <= n && !used[j] :: minv'[j] == minv[j] - delta
  }

  /** After the dual step the tree can grow on at column j1. */
  lemma ShiftKeeps(c: Matrix, n: nat, top: nat, u: seq<int>, v: seq<int>, p: seq<int>,
                   used: seq<bool>, minv: seq<int>, way: seq<int>, rank: seq<nat>, delta: int, bound: int, j1: int,
                   u': seq<int>, v': seq<int>, minv': seq<int>)
    requires Tree(c, n, top, u, v, p, used, way, rank)
    requires Frontiers(c, n, top, u, v, p, used, used, minv, way)
    requires CanShift(n, u, v, p, used, minv, delta, bound) && used[0]
    requires LeastUnused(n, used, minv, delta, j1)
    requires Shifted(n, u, v, p, used, delta, u', v')
    requires Lowered(n, used, delta, minv, minv')
    ensures Growing(c, n, top, u', v', p, used, way, minv', rank, j1)
    ensures RootKeeps(n, p, u, v, u', v')
  {
    ShiftKeepsMatched(c, n, top, u, v, p, used, minv, way, delta, u', v');
    ShiftKeepsTree(c, n, top, u, v, p, used, way, rank, delta, u', v');
    ShiftKeepsFrontiers(c, n, top, u, v, p, used, minv, way, delta, u', v', minv');
  }

  /** Everything the growth loop for row i keeps; v0 is the potential of
      column 0 when the loop starts and free some free column. */
  ghost predicate Climbing(c: Matrix, n: nat, top: nat, u: seq<int>, v: seq<int>, p: seq<int>,
                           used: seq<bool>, way: seq<int>, minv: seq<int>, rank: seq<nat>, j0: int,
                           height: nat, i: nat, v0: int, free: int) {
    && Growing(c, n, top, u, v, p, used, way, minv, rank, j0)
    && Below(n, used, rank, height)
    && 1 <= i <= n && p[0] == i && (forall k | 0 <= k <= n :: p[k] <= i)
    && v[0] + u[i] == v0 && RowsFrom(n, u, i + 1)
    && 1 <= free <= n && p[free] == 0
  }

  lemma SettledStart(c: Matrix, n: nat, top: nat, u: seq<int>, v: seq<int>, p: seq<int>, i: nat,
                     used: seq<bool>, way: seq<int>, minv: seq<int>, rank: seq<nat>, free: nat)
    requires Settled(c, n, top, u, v, p, i) && i <= n && p[0] == i
    requires |used| > n && |way| > n && |minv| > n && |rank| > n
    requires forall k | 0 <= k <= n :: minv[k] == INT_MAX && !used[k]
    requires free in Free(n, p)
    ensures Climbing(c, n, top, u, v, p, used, way, minv, rank, 0, 1, i, v[0], free)
  {}

  ghost function Unused(n: nat, used: seq<bool>): set<nat>
    requires |used| > n
  {
    set k: nat | k <= n && !used[k]
  }

  lemma UnusedShrinks(n: nat, used: seq<bool>, j0: nat)
    requires |used| > n && j0 <= n && !used[j0]
    ensures Unused(n, used[j0 := true]) < Unused(n, used)
  {
    assert j0 in Unused(n, used);
  }

  /** A dual step moves the potential of column 0 and of its row together,
      and leaves the rows of no used column alone. */
  ghost predicate RootKeeps(n: nat, p: seq<int>, u: seq<int>, v: seq<int>, u': seq<int>, v': seq<int>)
    requires |p| > n && |u| > n && |v| > n && |u'| > n && |v'| > n
    requires 0 <= p[0] <= n
  {
    && v'[0] + u'[p[0]] == v[0] + u[p[0]]
    && forall r | 1 <= r <= n && (forall k | 0 <= k <= n :: p[k] != r) :: u'[r] == u[r]
  }

  /** Ranges in which the dual step stays within 32 bits. */
  ghost predicate CanShift(n: nat, u: seq<int>, v: seq<int>, p: seq<int>, used: seq<bool>, minv: seq<int>,
                           delta: int, bound: int) {
    && |u| > n && |v| > n && |p| > n && |used| > n && |minv| > n
    && Distinct(n, p, 0) && (forall j | 0 <= j <= n :: 0 <= p[j] <= n)
    && (forall j | 0 <= j <= n && used[j] :: p[j] != 0)
    && 0 <= delta && bound + delta <= INT_MAX
    && (forall r | 1 <= r <= n :: 0 <= u[r] <= bound)
    && (forall j | 0 <= j <= n :: -bound <= v[j] <= 0)
    && forall j | 1 <= j <= n && !used[j] :: delta <= minv[j] < INT_MAX
  }

  ghost predicate LeastUnused(n: nat, used: seq<bool>, minv: seq<int>, delta: int, j1: int) {
    && |used| > n && |minv| > n
    && 1 <= j1 <= n && !used[j1] && minv[j1] == delta
    && forall j | 1 <= j <= n && !used[j] :: delta <= minv[j]
  }

  lemma ShiftAllowed(c: Matrix, n: nat, top: nat, u: seq<int>, v: seq<int>, p: seq<int>,
                     used: seq<bool>, minv: seq<int>, delta: int, j1: int, free: int, bound: nat)
    requires Matched(c, n, top, u, v, p) && Distinct(n, p, 0)
    requires 1 <= free <= n && p[free] == 0 && |used| > n
    requires forall j | 0 <= j <= n && used[j] :: p[j] != 0
    requires LeastUnused(n, used, minv, delta, j1) && delta <= 2 * top
    requires forall j | 1 <= j <= n && !used[j] :: 0 <= minv[j] < INT_MAX
    requires top <= bound && bound + 2 * top <= INT_MAX && v[0] >= 0 - bound
    ensures CanShift(n, u, v, p, used, minv, delta, bound)
  {
    PotentialBounds(c, n, top, u, v, p, free);
  }

  ghost predicate Below(n: nat, used: seq<bool>, rank: seq<nat>, height: nat) {
    && |used| > n && |rank| > n
    && forall k | 0 <= k <= n && used[k] :: rank[k] < height
  }

  ghost predicate RowsFrom(n: nat, u: seq<int>, i: nat) {
    |u| > n && forall r | i <= r <= n :: u[r] == 0
  }

  lemma LaterRowsStay(n: nat, i: nat, p: seq<int>, u: seq<int>, v: seq<int>, u': seq<int>, v': seq<int>)
    requires |p| > n && |u| > n && |v| > n && |u'| > n && |v'| > n && 0 <= p[0] <= n
    requires forall k | 0 <= k <= n :: p[k] <= i
    requires RootKeeps(n, p, u, v, u', v') && RowsFrom(n, u, i + 1)
    ensures RowsFrom(n, u', i + 1)
  {}

  lemma JoinRelaxed(c: Matrix, n: nat, top: nat, u: seq<int>, v: seq<int>, p: seq<int>,
                    used: seq<bool>, rank: seq<nat>, j0: int, height: nat, minv: seq<int>, way: seq<int>,
                    used': seq<bool>, rank': seq<nat>, minv': seq<int>, way': seq<int>)
    requires Growing(c, n, top, u, v, p, used, way, minv, rank, j0)
    requires p[j0] != 0
    requires Below(n, used, rank, height)
    requires used' == used[j0 := true] && rank' == rank[j0 := height]
    requires |minv'| > n && |way'| > n
    requires forall j | 1 <= j <= n :: Slack(c, n, u, v, p[j0], j) < INT_MAX
    requires Relaxed(n, RowSlack(c, n, u, v, p[j0]), used', j0, minv, way, minv', way')
    ensures Tree(c, n, top, u, v, p, used', way', rank') && used'[0]
    ensures Frontiers(c, n, top, u, v, p, used', used', minv', way')
    ensures forall j | 1 <= j <= n && !used'[j] :: 0 <= minv'[j] < INT_MAX
    ensures Distinct(n, p, 0)
  {
    JoinTree(c, n, top, u, v, p, used, way, minv, rank, j0, height, used', rank');
    RelaxKeeps(c, n, top, u, v, p, used', used, rank', j0, minv, way, minv', way');
  }

  lemma GrownChain(c: Matrix, n: nat, top: nat, u: seq<int>, v: seq<int>, p: seq<int>,
                   used: seq<bool>, way: seq<int>, minv: seq<int>, rank: seq<nat>, j0: int,
                   height: nat, i: nat, v0: int, free: int)
    requires Climbing(c, n, top, u, v, p, used, way, minv, rank, j0, height, i, v0, free)
    requires p[j0] == 0 && 2 * top < INT_MAX
    ensures Chained(c, n, top, u, v, p, used, way, rank[j0 := height], j0)
    ensures v0 - top <= v[0] <= 0 && Bounded(n, top, u, v)
  {
    PotentialBounds(c, n, top, u, v, p, free);
    assert Frontier(c, n, top, u, v, p, used, minv, way, j0);
    var rank' := rank[j0 := height];
    forall k | 1 <= k <= n && (k == j0 || used[k])
      ensures ToParent(c, n, top, u, v, p, used, way, rank', k)
    {
      assert used[k] ==> ToParent(c, n, top, u, v, p, used, way, rank, k);
    }
  }

  lemma ClimbingScans(c: Matrix, n: nat, top: nat, u: seq<int>, v: seq<int>, p: seq<int>,
                      used: seq<bool>, way: seq<int>, minv: seq<int>, rank: seq<nat>, j0: int,
                      height: nat, i: nat, v0: int, free: int)
    requires Climbing(c, n, top, u, v, p, used, way, minv, rank, j0, height, i, v0, free)
    requires p[j0] != 0
    ensures RowInRange(c, n, top, u, v, p[j0])
    ensures v[0] >= v0 - top && free != j0 && !used[free]
    ensures forall j | 1 <= j <= n :: Slack(c, n, u, v, p[j0], j) <= 2 * top
  {
    PotentialBounds(c, n, top, u, v, p, free);
  }

  lemma ClimbingShifted(c: Matrix, n: nat, top: nat, u: seq<int>, v: seq<int>, p: seq<int>,
                        seen: seq<bool>, used: seq<bool>, way: seq<int>, minv: seq<int>, rank: seq<nat>, j0: int,
                        height: nat, i: nat, v0: int, free: int, rank': seq<nat>, delta: int, j1: int,
                        u': seq<int>, v': seq<int>, minv': seq<int>)
    requires Tree(c, n, top, u, v, p, used, way, rank') && used[0]
    requires Frontiers(c, n, top, u, v, p, used, used, minv, way)
    requires CanShift(n, u, v, p, used, minv, delta, top - v0)
    requires LeastUnused(n, used, minv, delta, j1)
    requires Shifted(n, u, v, p, used, delta, u', v')
    requires Lowered(n, used, delta, minv, minv')
    requires Below(n, seen, rank, height) && 0 <= j0 <= n && used == seen[j0 := true] && rank' == rank[j0 := height]
    requires 1 <= i <= n && p[0] == i && forall k | 0 <= k <= n :: p[k] <= i
    requires v[0] + u[i] == v0 && RowsFrom(n, u, i + 1)
    requires 1 <= free <= n && p[free] == 0
    ensures Climbing(c, n, top, u', v', p, used, way, minv', rank', j1, height + 1, i, v0, free)
  {
    ShiftKeeps(c, n, top, u, v, p, used, minv, way, rank', delta, top - v0, j1, u', v', minv');
    LaterRowsStay(n, i, p, u, v, u', v');
  }

  /** Range of the potentials of the real rows and columns. */
  ghost predicate Bounded(n: nat, top: nat, u: seq<int>, v: seq<int>) {
    && |u| > n && |v| > n
    && (forall r | 1 <= r <= n :: 0 <= u[r] <= top)
    && forall j | 1 <= j <= n :: 0 - top <= v[j] <= 0
  }

  lemma SettledInitially(c: Matrix, n: nat, top: nat, u: seq<int>, v: seq<int>, p: seq<int>)
    requires CostMatrix(c, n, top) && |u| > n && |v| > n && |p| > n
    requires forall j | 0 <= j <= n :: u[j] == 0 && v[j] == 0 && p[j] == 0
    ensures Settled(c, n, top, u, v, p, 1)
  {
    AllFree(n, p);
  }

  /** Entry 0 of p is not part of the matching. */
  lemma SettledRoot(c: Matrix, n: nat, top: nat, u: seq<int>, v: seq<int>, p: seq<int>, i: nat, p': seq<int>)
    requires Settled(c, n, top, u, v, p, i) && i <= n && p' == p[0 := i]
    ensures Settled(c, n, top, u, v, p', i)
  {
    assert Free(n, p') == Free(n, p);
    forall j | 1 <= j <= n
      ensures Tight(c, n, top, u, v, p', j)
    {
      assert Tight(c, n, top, u, v, p, j);
    }
  }

  lemma {:induction false} AllFree(n: nat, p: seq<int>)
    requires |p| > n && forall j | 0 <= j <= n :: p[j] == 0
    ensures |Free(n, p)| == n
  {
    if n > 0 {
      AllFree(n - 1, p);
      assert Free(n, p) == Free(n - 1, p) + {n};
    }
  }

  lemma FloorStep(i: nat, n: nat, top: nat)
    requires 1 <= i <= n
    ensures (i - 1) * top + top == i * top <= n * top
    ensures (n + 3) * top == n * top + 3 * top
  {}

  class Workspace {
    const cap: nat
    const cost: array2<int>
    const u: array<int>
    const v: array<int>
    const p: array<int>
    const way: array<int>
    const minv: array<int>
    const used: array<bool>

    ghost predicate Valid() {
      && cost.Length0 == cap && cost.Length1 == cap
      && u.Length == cap + 1 && v.Length == cap + 1 && p.Length == cap + 1
      && way.Length == cap + 1 && minv.Length == cap + 1 && used.Length == cap + 1
      && u != v && u != p && u != way && u != minv
      && v != p && v != way && v != minv
      && p != way && p != minv && way != minv
    }

    constructor (cap: nat)
      ensures Valid() && this.cap == cap
      ensures fresh(cost) && fresh(u) && fresh(v) && fresh(p) && fresh(way) && fresh(minv) && fresh(used)
    {
      this.cap := cap;
      cost := new int[cap, cap];
      u := new int[cap + 1];
      v := new int[cap + 1];
      p := new int[cap + 1];
      way := new int[cap + 1];
      minv := new int[cap + 1];
      used := new bool[cap + 1];
    }

    /** The upper left n x n block of cost holds c. */
    ghost predicate Holds(c: Matrix, n: nat)
      reads cost
    {
      && Valid() && n <= cap && |c| == n
      && (forall r | 0 <= r < n :: |c[r]| == n)
      && forall r, k | 0 <= r < n && 0 <= k < n :: cost[r, k] == c[r][k]
    }

    /** First inner loop: fold the slacks of row p[j0] into minv and pick the
        first unused column of least minv. */
    method Relax(n: nat, j0: nat, ghost c: Matrix, ghost top: nat, ghost free: nat) returns (delta: int, j1: nat)
      requires Holds(c, n) && 2 * top < INT_MAX
      requires j0 <= n && RowInRange(c, n, top, u[..], v[..], p[j0])
      requires 1 <= free <= n && !used[free]
      modifies minv, way
      ensures Relaxed(n, RowSlack(c, n, u[..], v[..], p[j0]), used[..], j0, old(minv[..]), old(way[..]), minv[..], way[..])
      ensures LeastUnused(n, used[..], minv[..], delta, j1) && delta <= 2 * top
    {
      delta, j1 := INT_MAX, 0;
      var i0 := p[j0];
      ghost var s := RowSlack(c, n, u[..], v[..], i0);
      ghost var m0, w0 := minv[..], way[..];
      ghost var m1 := RelaxMin(n, s, used[..], m0);
      ghost var w1 := RelaxWay(n, s, used[..], j0, m0, w0);
      for j := 1 to n + 1
        invariant forall k | 0 <= k <= n :: minv[k] == if k < j then m1[k] else m0[k]
        invariant forall k | 0 <= k <= n :: way[k] == if k < j then w1[k] else w0[k]
        invariant forall k | 1 <= k < j && !used[k] :: delta <= m1[k]
        invariant delta < INT_MAX ==> 1 <= j1 < j && !used[j1] && m1[j1] == delta
        invariant delta <= INT_MAX && (free < j ==> delta <= 2 * top)
      {
        if used[j] {
          continue;
        }
        assert c[i0 - 1][j - 1] - u[i0] - v[j] == s[j];
        assert InInt32(cost[i0 - 1, j - 1] - u[i0]) && InInt32(s[j]);
        var reducedCost := cost[i0 - 1, j - 1] - u[i0] - v[j];
        if reducedCost < minv[j] {
          minv[j] := reducedCost;
          way[j] := j0;
        }
        if minv[j] < delta {
          delta := minv[j];
          j1 := j;
        }
      }
    }

    /** Second inner loop: the dual step. */
    method Shift(n: nat, delta: int, ghost bound: nat)
      requires Valid() && n <= cap
      requires CanShift(n, u[..], v[..], p[..], used[..], minv[..], delta, bound)
      modifies u, v, minv
      ensures Shifted(n, old(u[..]), old(v[..]), p[..], used[..], delta, u[..], v[..])
      ensures Lowered(n, used[..], delta, old(minv[..]), minv[..])
    {
      ghost var u0, v0, m0 := u[..], v[..], minv[..];
      ghost var raised: map<int, int> := map[];
      for j := 0 to n + 1
        invariant forall r | r in raised :: 0 <= raised[r] < j && used[raised[r]] && p[raised[r]] == r
        invariant forall k | 0 <= k < j && used[k] :: p[k] in raised
        invariant forall r | 0 <= r <= n :: u[r] == if r in raised then u0[r] + delta else u0[r]
        invariant forall k | 0 <= k <= n :: v[k] == if k < j && used[k] then v0[k] - delta else v0[k]
        invariant forall k | 1 <= k <= n && !used[k] :: minv[k] == if k < j then m0[k] - delta else m0[k]
      {
        if used[j] {
          assert InInt32(u[p[j]] + delta) && InInt32(v[j] - delta);
          raised := raised[p[j] := j];
          u[p[j]] := u[p[j]] + delta;
          v[j] := v[j] - delta;
        } else if j != 0 {
          minv[j] := minv[j] - delta;
        }
      }
    }

    /** One pass of the growth do-loop: column j0 joins the tree. */
    method GrowStep(n: nat, i: nat, j0: nat, ghost c: Matrix, ghost top: nat, ghost v0: int, ghost free: nat,
                    ghost rank: seq<nat>, ghost height: nat) returns (j1: nat, ghost rank': seq<nat>)
      requires Holds(c, n) && 2 * top < INT_MAX && 3 * top - v0 <= INT_MAX && v0 <= 0
      requires Climbing(c, n, top, u[..], v[..], p[..], used[..], way[..], minv[..], rank, j0, height, i, v0, free)
      requires p[j0] != 0
      modifies u, v, way, minv, used
      ensures Unused(n, used[..]) < old(Unused(n, used[..]))
      ensures Climbing(c, n, top, u[..], v[..], p[..], used[..], way[..], minv[..], rank', j1, height + 1, i, v0, free)
    {
      ghost var seen, m0, w0, u0, vv, ps := used[..], minv[..], way[..], u[..], v[..], p[..];
      rank' := rank[j0 := height];
      ClimbingScans(c, n, top, u0, vv, ps, seen, w0, m0, rank, j0, height, i, v0, free);
      used[j0] := true;
      ghost var used1 := used[..];
      assert used1 == seen[j0 := true] && p[..] == ps;
      var delta;
      delta, j1 := Relax(n, j0, c, top, free);
      ghost var m1, w1 := minv[..], way[..];
      assert u[..] == u0 && v[..] == vv && p[..] == ps && used[..] == used1;
      JoinRelaxed(c, n, top, u0, vv, ps, seen, rank, j0, height, m0, w0, used1, rank', m1, w1);
      ShiftAllowed(c, n, top, u0, vv, ps, used1, m1, delta, j1, free, top - v0);
      Shift(n, delta, top - v0);
      assert p[..] == ps && used[..] == used1 && way[..] == w1;
      ClimbingShifted(c, n, top, u0, vv, ps, seen, used1, w1, m1, rank, j0, height, i, v0, free, rank', delta, j1,
                      u[..], v[..], minv[..]);
      UnusedShrinks(n, seen, j0);
    }

    /** Do-loop of the source: grow the tree of tight edges from column 0 until
        it reaches a free column, returned as j0. */
    method Grow(n: nat, i: nat, ghost c: Matrix, ghost top: nat) returns (j0: nat, ghost rank: seq<nat>)
      requires Holds(c, n) && 1 <= i <= n && 2 * top < INT_MAX && 3 * top - v[0] <= INT_MAX
      requires Settled(c, n, top, u[..], v[..], p[..], i) && p[0] == i
      modifies u, v, way, minv, used
      ensures Chained(c, n, top, u[..], v[..], p[..], used[..], way[..], rank, j0)
      ensures old(v[0]) - top <= v[0] <= 0 && RowsFrom(n, u[..], i + 1) && Bounded(n, top, u[..], v[..])
      ensures forall j | 0 <= j <= n :: p[j] <= i
    {
      ghost var v0 := v[0];
      ghost var free: nat :| free in Free(n, p[..]);
      ResetScan(n);
      j0 := 0;
      rank := seq(n + 1, _ => 0);
      ghost var height: nat := 1;
      SettledStart(c, n, top, u[..], v[..], p[..], i, used[..], way[..], minv[..], rank, free);
      while p[j0] != 0
        invariant Climbing(c, n, top, u[..], v[..], p[..], used[..], way[..], minv[..], rank, j0, height, i, v0, free)
        decreases Unused(n, used[..])
      {
        var j1;
        j1, rank := GrowStep(n, i, j0, c, top, v0, free, rank, height);
        height := height + 1;
        j0 := j1;
      }
      GrownChain(c, n, top, u[..], v[..], p[..], used[..], way[..], minv[..], rank, j0, height, i, v0, free);
      rank := rank[j0 := height];
    }

    /** Clear used[] and minv[] for a new augmentation. */
    method ResetScan(n: nat)
      requires Valid() && n <= cap
      modifies minv, used
      ensures forall k | 0 <= k <= n :: minv[k] == INT_MAX && !used[k]
    {
      for j := 0 to n + 1
        invariant forall k | 0 <= k < j :: minv[k] == INT_MAX && !used[k]
      {
        minv[j] := INT_MAX;
        used[j] := false;
      }
    }

    /** Last do-loop: shift the matching along the way[] chain. */
    method Augment(n: nat, i: nat, start: nat, ghost c: Matrix, ghost top: nat, ghost tree: seq<bool>, ghost rank: seq<nat>)
      requires Valid() && n <= cap
      requires Chained(c, n, top, u[..], v[..], p[..], tree, way[..], rank, start)
      requires forall j | 0 <= j <= n :: p[j] <= i
      modifies p
      ensures Matched(c, n, top, u[..], v[..], p[..]) && Distinct(n, p[..], 1)
      ensures forall j | 1 <= j <= n :: p[j] == 0 <==> old(p[j]) == 0 && j != start
      ensures forall j | 0 <= j <= n :: p[j] <= i
    {
      ghost var before := p[..];
      var j0 := start;
      while j0 != 0
        invariant 0 <= j0 <= n && (j0 == start || (tree[j0] && rank[j0] < rank[start]))
        invariant Chain(c, n, top, u[..], v[..], p[..], before, way[..], rank, j0)
        invariant forall j | 0 <= j <= n :: p[j] <= i
        invariant forall j | 1 <= j <= n && j != j0 :: p[j] == 0 <==> before[j] == 0 && j != start
        decreases rank[j0]
      {
        var j1 := way[j0];
        ghost var earlier := p[..];
        assert ToParent(c, n, top, u[..], v[..], before, tree, way[..], rank, j0);
        p[j0] := p[j1];
        ChainStep(c, n, top, u[..], v[..], earlier, before, way[..], rank, j0, p[..]);
        j0 := j1;
      }
    }

    /** Clear the potentials and the matching, as the memset of the workspace does. */
    method Clear(n: nat)
      requires Valid() && n <= cap
      modifies u, v, p
      ensures forall j | 0 <= j <= n :: u[j] == 0 && v[j] == 0 && p[j] == 0
    {
      for j := 0 to n + 1
        invariant forall k | 0 <= k < j :: u[k] == 0 && v[k] == 0 && p[k] == 0
      {
        u[j], v[j], p[j] := 0, 0, 0;
      }
    }

    /** One round of the outer loop: row i joins the matching. */
    method InsertRow(n: nat, i: nat, ghost c: Matrix, ghost top: nat)
      requires Holds(c, n) && 1 <= i <= n && 2 * top < INT_MAX && 3 * top - v[0] <= INT_MAX
      requires Settled(c, n, top, u[..], v[..], p[..], i)
      modifies u, v, p, way, minv, used
      ensures Settled(c, n, top, u[..], v[..], p[..], i + 1)
      ensures old(v[0]) - top <= v[0] <= 0 && Bounded(n, top, u[..], v[..])
    {
      ghost var ps := p[..];
      p[0] := i;
      ghost var before := p[..];
      SettledRoot(c, n, top, u[..], v[..], ps, i, before);
      var j0;
      ghost var rank;
      j0, rank := Grow(n, i, c, top);
      assert p[..] == before;
      ghost var u1, v1 := u[..], v[..];
      Augment(n, i, j0, c, top, used[..], rank);
      assert u[..] == u1 && v[..] == v1;
      SettledNext(c, n, top, u1, v1, before, p[..], i, j0);
    }

    /** The whole solver: n augmentations give a minimum-cost assignment. */
    method Solve(n: nat, ghost c: Matrix, ghost top: nat)
      requires Holds(c, n) && CostMatrix(c, n, top)
      requires 2 * top < INT_MAX && (n + 3) * top <= INT_MAX
      modifies u, v, p, way, minv, used
      ensures MinimumAssignment(c, n, Chosen(n, p[..]))
      ensures Bounded(n, top, u[..], v[..]) && 0 - n * top <= v[0] <= 0
    {
      Clear(n);
      SettledInitially(c, n, top, u[..], v[..], p[..]);
      ghost var floor := 0;
      for i := 1 to n + 1
        invariant Settled(c, n, top, u[..], v[..], p[..], i)
        invariant floor == (i - 1) * top && 0 - floor <= v[0] <= 0
        invariant Bounded(n, top, u[..], v[..])
      {
        FloorStep(i, n, top);
        InsertRow(n, i, c, top);
        floor := floor + top;
      }
      SettledIsMinimum(c, n, top, u[..], v[..], p[..]);
    }
  }
}
