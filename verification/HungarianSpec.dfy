/** Invariants of the Hungarian solver, as predicates on snapshots of its work
    arrays.  Rows and columns are one-based as in the work arrays; entry 0 of
    every array belongs to the virtual column that starts an augmentation.
    p[j] is the row matched to column j, 0 when column j is free. */
module HungarianSpec {
  import opened Sums

  type Matrix = seq<seq<int>>

  const INT_MAX: int := 0x7fff_ffff

  ghost predicate InInt32(x: int) {
    -0x8000_0000 <= x <= INT_MAX
  }

  ghost predicate CostMatrix(c: Matrix, n: nat, top: nat) {
    && |c| == n
    && (forall r | 0 <= r < n :: |c[r]| == n)
    && forall r, k | 0 <= r < n && 0 <= k < n :: 0 <= c[r][k] <= top
  }

  ghost function Slack(c: Matrix, n: nat, u: seq<int>, v: seq<int>, r: int, j: int): int
    requires |c| == n && forall q | 0 <= q < n :: |c[q]| == n
    requires |u| > n && |v| > n && 1 <= r <= n && 1 <= j <= n
  {
    c[r - 1][j - 1] - u[r] - v[j]
  }

  /** Dual feasibility with the signs the solver keeps. */
  ghost predicate Potentials(c: Matrix, n: nat, top: nat, u: seq<int>, v: seq<int>) {
    && CostMatrix(c, n, top)
    && |u| > n && |v| > n
    && (forall r, j | 1 <= r <= n && 1 <= j <= n :: Slack(c, n, u, v, r, j) >= 0)
    && (forall r | 1 <= r <= n :: u[r] >= 0)
    && (forall j | 0 <= j <= n :: v[j] <= 0)
  }

  ghost predicate Tight(c: Matrix, n: nat, top: nat, u: seq<int>, v: seq<int>, p: seq<int>, j: int)
    requires Potentials(c, n, top, u, v)
    requires |p| > n && 1 <= j <= n && 0 <= p[j] <= n
  {
    if p[j] == 0 then v[j] == 0 else Slack(c, n, u, v, p[j], j) == 0
  }

  /** Matched columns are tight, free columns still have potential 0. */
  ghost predicate Matched(c: Matrix, n: nat, top: nat, u: seq<int>, v: seq<int>, p: seq<int>) {
    && Potentials(c, n, top, u, v)
    && |p| > n
    && (forall j | 0 <= j <= n :: 0 <= p[j] <= n)
    && forall j | 1 <= j <= n :: Tight(c, n, top, u, v, p, j)
  }

  /** No row occurs twice among the columns from..n. */
  ghost predicate Distinct(n: nat, p: seq<int>, from: nat) {
    && |p| > n
    && forall j, k | from <= j < k <= n && p[j] != 0 :: p[j] != p[k]
  }

  ghost function Free(n: nat, p: seq<int>): set<nat>
    requires |p| > n
  {
    set j: nat | 1 <= j <= n && p[j] == 0
  }

  /** State between augmentations: exactly the rows below i are matched. */
  ghost predicate Settled(c: Matrix, n: nat, top: nat, u: seq<int>, v: seq<int>, p: seq<int>, i: int) {
    && Matched(c, n, top, u, v, p)
    && 1 <= i <= n + 1
    && Distinct(n, p, 1)
    && (forall j | 1 <= j <= n :: p[j] < i)
    && (forall r | i <= r <= n :: u[r] == 0)
    && |Free(n, p)| == n - i + 1
  }

  /** The used columns form a tree of tight edges rooted at column 0; the
      ghost rank decreases towards the root. */
  ghost predicate Tree(c: Matrix, n: nat, top: nat, u: seq<int>, v: seq<int>, p: seq<int>,
                       used: seq<bool>, way: seq<int>, rank: seq<nat>) {
    && Matched(c, n, top, u, v, p)
    && |used| > n && |way| > n && |rank| > n
    && (forall k | 0 <= k <= n && used[k] :: p[k] != 0)
    && forall k | 1 <= k <= n && used[k] :: ToParent(c, n, top, u, v, p, used, way, rank, k)
  }

  ghost predicate ToParent(c: Matrix, n: nat, top: nat, u: seq<int>, v: seq<int>, p: seq<int>,
                           used: seq<bool>, way: seq<int>, rank: seq<nat>, k: int)
    requires Matched(c, n, top, u, v, p)
    requires |used| > n && |way| > n && |rank| > n && 1 <= k <= n
  {
    && 0 <= way[k] <= n && used[way[k]] && rank[way[k]] < rank[k]
    && p[way[k]] != 0
    && Slack(c, n, u, v, p[way[k]], k) == 0
  }

  /** minv[j] is the least slack of column j over the rows of the seen
      columns, way[j] a seen column attaining it. */
  ghost predicate Frontier(c: Matrix, n: nat, top: nat, u: seq<int>, v: seq<int>, p: seq<int>,
                           seen: seq<bool>, minv: seq<int>, way: seq<int>, j: int)
    requires Matched(c, n, top, u, v, p)
    requires |seen| > n && |minv| > n && |way| > n && 1 <= j <= n
    requires forall k | 0 <= k <= n && seen[k] :: p[k] != 0
  {
    && (forall k | 0 <= k <= n && seen[k] :: minv[j] <= Slack(c, n, u, v, p[k], j))
    && if minv[j] == INT_MAX then forall k | 0 <= k <= n :: !seen[k]
       else 0 <= way[j] <= n && seen[way[j]] && minv[j] == Slack(c, n, u, v, p[way[j]], j)
  }

  ghost predicate Frontiers(c: Matrix, n: nat, top: nat, u: seq<int>, v: seq<int>, p: seq<int>,
                            used: seq<bool>, seen: seq<bool>, minv: seq<int>, way: seq<int>) {
    && Matched(c, n, top, u, v, p)
    && |used| > n && |seen| > n && |minv| > n && |way| > n
    && (forall k | 0 <= k <= n && seen[k] :: p[k] != 0)
    && forall j | 1 <= j <= n && !used[j] :: Frontier(c, n, top, u, v, p, seen, minv, way, j)
  }

  /** While some column is free the potentials stay within the largest cost. */
  lemma PotentialBounds(c: Matrix, n: nat, top: nat, u: seq<int>, v: seq<int>, p: seq<int>, free: int)
    requires Matched(c, n, top, u, v, p)
    requires 1 <= free <= n && p[free] == 0
    ensures forall r | 1 <= r <= n :: 0 <= u[r] <= top
    ensures forall j | 1 <= j <= n :: 0 - top <= v[j] <= 0
    ensures forall r, j | 1 <= r <= n && 1 <= j <= n :: 0 <= Slack(c, n, u, v, r, j) <= 2 * top
  {
    forall r | 1 <= r <= n
      ensures 0 <= u[r] <= top
    {
      assert Tight(c, n, top, u, v, p, free);
      assert Slack(c, n, u, v, r, free) >= 0;
    }
    forall j | 1 <= j <= n
      ensures 0 - top <= v[j] <= 0
    {
      assert Tight(c, n, top, u, v, p, j);
    }
  }

  /** What one dual step does to the potentials: rows of used columns rise by
      delta, used columns fall by delta. */
  ghost predicate Shifted(n: nat, u: seq<int>, v: seq<int>, p: seq<int>, used: seq<bool>, delta: int,
                          u': seq<int>, v': seq<int>) {
    && |u| > n && |v| > n && |p| > n && |used| > n && |u'| == |u| && |v'| == |v|
    && (forall k | 0 <= k <= n :: 0 <= p[k] <= n)
    && (forall k | 0 <= k <= n && used[k] :: u'[p[k]] == u[p[k]] + delta)
    && (forall r | 1 <= r <= n && (forall k | 0 <= k <= n && used[k] :: p[k] != r) :: u'[r] == u[r])
    && (forall j | 0 <= j <= n :: v'[j] == if used[j] then v[j] - delta else v[j])
  }

  /** The dual step keeps feasibility, tight matched edges and the tree. */
  lemma ShiftKeepsMatched(c: Matrix, n: nat, top: nat, u: seq<int>, v: seq<int>, p: seq<int>,
                          used: seq<bool>, minv: seq<int>, way: seq<int>, delta: int,
                          u': seq<int>, v': seq<int>)
    requires Frontiers(c, n, top, u, v, p, used, used, minv, way)
    requires Distinct(n, p, 0)
    requires 0 <= delta && forall j | 1 <= j <= n && !used[j] :: delta <= minv[j]
    requires Shifted(n, u, v, p, used, delta, u', v')
    ensures Matched(c, n, top, u', v', p)
  {
    forall r, j | 1 <= r <= n && 1 <= j <= n
      ensures Slack(c, n, u', v', r, j) >= 0
    {
      if k :| 0 <= k <= n && used[k] && p[k] == r {
        if !used[j] {
          assert Frontier(c, n, top, u, v, p, used, minv, way, j);
        }
      }
      assert Slack(c, n, u, v, r, j) >= 0;
    }
    forall r | 1 <= r <= n
      ensures u'[r] >= 0
    {
      if k :| 0 <= k <= n && used[k] && p[k] == r {}
    }
    forall j | 1 <= j <= n
      ensures Tight(c, n, top, u', v', p, j)
    {
      assert Tight(c, n, top, u, v, p, j);
      if p[j] != 0 && !used[j] {
        assert forall k | 0 <= k <= n && used[k] :: p[k] != p[j];
      }
    }
  }

  lemma ShiftKeepsTree(c: Matrix, n: nat, top: nat, u: seq<int>, v: seq<int>, p: seq<int>,
                       used: seq<bool>, way: seq<int>, rank: seq<nat>, delta: int,
                       u': seq<int>, v': seq<int>)
    requires Tree(c, n, top, u, v, p, used, way, rank)
    requires Matched(c, n, top, u', v', p)
    requires Shifted(n, u, v, p, used, delta, u', v')
    ensures Tree(c, n, top, u', v', p, used, way, rank)
  {}

  lemma ShiftKeepsFrontiers(c: Matrix, n: nat, top: nat, u: seq<int>, v: seq<int>, p: seq<int>,
                            used: seq<bool>, minv: seq<int>, way: seq<int>, delta: int,
                            u': seq<int>, v': seq<int>, minv': seq<int>)
    requires Frontiers(c, n, top, u, v, p, used, used, minv, way)
    requires Matched(c, n, top, u', v', p)
    requires Shifted(n, u, v, p, used, delta, u', v')
    requires |minv'| > n && used[0]
    requires forall j | 1 <= j <= n && !used[j] :: minv'[j] == minv[j] - delta < INT_MAX && minv[j] < INT_MAX
    ensures Frontiers(c, n, top, u', v', p, used, used, minv', way)
  {}

  /** Rows chosen by the columns, zero-based. */
  ghost function Chosen(n: nat, p: seq<int>): (s: seq<int>)
    requires |p| > n
    ensures |s| == n && forall j | 0 <= j < n :: s[j] == p[j + 1] - 1
  {
    seq(n, j requires 0 <= j < n => p[j + 1] - 1)
  }

  /** Cost of giving row s[j] to column j for the first m columns. */
  ghost function AssignmentCost(c: Matrix, s: seq<int>, m: nat): int
    requires m <= |s| && forall j | 0 <= j < m :: 0 <= s[j] < |c| && j < |c[s[j]]|
  {
    if m == 0 then 0 else AssignmentCost(c, s, m - 1) + c[s[m - 1]][m - 1]
  }

  /** s assigns every column its own row at minimum total cost. */
  ghost predicate MinimumAssignment(c: Matrix, n: nat, s: seq<int>) {
    && |c| == n && (forall r | 0 <= r < n :: |c[r]| == n)
    && Permutation(s, n)
    && forall t | Permutation(t, n) :: AssignmentCost(c, s, n) <= AssignmentCost(c, t, n)
  }

  /** Weak duality over the first m columns; equality when every edge is tight. */
  lemma {:induction false} DualBound(c: Matrix, n: nat, us: seq<int>, vs: seq<int>, s: seq<int>, m: nat)
    requires |c| == n && forall r | 0 <= r < n :: |c[r]| == n
    requires |us| == n && |vs| == n && m <= n && Permutation(s, n)
    requires forall r, j | 0 <= r < n && 0 <= j < n :: us[r] + vs[j] <= c[r][j]
    ensures Gathered(us, s, m) + Total(vs, m) <= AssignmentCost(c, s, m)
    ensures (forall j | 0 <= j < m :: us[s[j]] + vs[j] == c[s[j]][j]) ==>
              Gathered(us, s, m) + Total(vs, m) == AssignmentCost(c, s, m)
  {
    if m > 0 {
      DualBound(c, n, us, vs, s, m - 1);
    }
  }

  /** A tight perfect matching under feasible potentials is optimal. */
  lemma SettledIsMinimum(c: Matrix, n: nat, top: nat, u: seq<int>, v: seq<int>, p: seq<int>)
    requires Settled(c, n, top, u, v, p, n + 1)
    ensures MinimumAssignment(c, n, Chosen(n, p))
    ensures forall j | 1 <= j <= n :: p[j] != 0
  {
    var s := Chosen(n, p);
    var us, vs := u[1..n + 1], v[1..n + 1];
    assert forall j: nat | 1 <= j <= n :: p[j] == 0 ==> j in Free(n, p);
    assert Permutation(s, n);
    forall r, j | 0 <= r < n && 0 <= j < n
      ensures us[r] + vs[j] <= c[r][j]
    {
      assert Slack(c, n, u, v, r + 1, j + 1) >= 0;
    }
    forall j | 0 <= j < n
      ensures us[s[j]] + vs[j] == c[s[j]][j]
    {
      assert Tight(c, n, top, u, v, p, j + 1);
    }
    DualBound(c, n, us, vs, s, n);
    PermutedTotal(us, s, n);
    forall t | Permutation(t, n)
      ensures AssignmentCost(c, s, n) <= AssignmentCost(c, t, n)
    {
      DualBound(c, n, us, vs, t, n);
      PermutedTotal(us, t, n);
    }
  }

  /** One augmentation settles row i. */
  lemma SettledNext(c: Matrix, n: nat, top: nat, u: seq<int>, v: seq<int>, before: seq<int>, p: seq<int>, i: nat, start: nat)
    requires 1 <= i <= n && |before| > n && |Free(n, before)| == n - i + 1
    requires Matched(c, n, top, u, v, p) && Distinct(n, p, 1)
    requires 1 <= start <= n && before[start] == 0
    requires forall j | 1 <= j <= n :: p[j] == 0 <==> before[j] == 0 && j != start
    requires forall j | 0 <= j <= n :: p[j] <= i
    requires |u| > n && forall r | i + 1 <= r <= n :: u[r] == 0
    ensures Settled(c, n, top, u, v, p, i + 1)
  {
    assert Free(n, before) == Free(n, p) + {start};
  }
}
