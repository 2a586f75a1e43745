/** Finite sums over sequences and over sets of indices, and permutations. */
module Sums {
  /** s lists 0..n-1 in some order. */
  ghost predicate Permutation(s: seq<int>, n: nat) {
    && |s| == n
    && (forall j | 0 <= j < n :: 0 <= s[j] < n)
    && forall j, k | 0 <= j < k < n :: s[j] != s[k]
  }

  ghost function Total(f: seq<int>, n: nat): int
    requires n <= |f|
  {
    if n == 0 then 0 else Total(f, n - 1) + f[n - 1]
  }

  /** Sum of f[s[j]] over the first n positions j. */
  ghost function Gathered(f: seq<int>, s: seq<int>, n: nat): int
    requires n <= |s| && forall j | 0 <= j < n :: 0 <= s[j] < |f|
  {
    if n == 0 then 0 else Gathered(f, s, n - 1) + f[s[n - 1]]
  }

  /** Sum of f[i] over the members i < n of xs. */
  ghost function MemberTotal(f: seq<int>, xs: set<nat>, n: nat): int
    requires n <= |f|
  {
    if n == 0 then 0 else MemberTotal(f, xs, n - 1) + if n - 1 in xs then f[n - 1] else 0
  }

  lemma {:induction false} MemberTotalAdd(f: seq<int>, xs: set<nat>, x: nat, n: nat)
    requires n <= |f| && x !in xs
    ensures MemberTotal(f, xs + {x}, n) == MemberTotal(f, xs, n) + if x < n then f[x] else 0
  {
    if n > 0 {
      MemberTotalAdd(f, xs, x, n - 1);
    }
  }

  lemma {:induction false} MemberTotalEnds(f: seq<int>, xs: set<nat>, n: nat)
    requires n <= |f|
    ensures xs == {} ==> MemberTotal(f, xs, n) == 0
    ensures (forall i: nat | i < n :: i in xs) ==> MemberTotal(f, xs, n) == Total(f, n)
  {
    if n > 0 {
      MemberTotalEnds(f, xs, n - 1);
    }
  }

  /** The first m values of s. */
  ghost function Image(s: seq<int>, m: nat): set<nat>
    requires m <= |s| && forall j | 0 <= j < m :: 0 <= s[j]
  {
    set j | 0 <= j < m :: s[j] as nat
  }

  lemma ImageStep(s: seq<int>, n: nat, m: nat)
    requires Permutation(s, n) && 0 < m <= n
    ensures s[m - 1] !in Image(s, m - 1)
    ensures Image(s, m) == Image(s, m - 1) + {s[m - 1]}
  {}

  lemma {:induction false} ImageSize(s: seq<int>, n: nat, m: nat)
    requires Permutation(s, n) && m <= n
    ensures |Image(s, m)| == m
  {
    if m > 0 {
      ImageSize(s, n, m - 1);
      ImageStep(s, n, m);
    }
  }

  lemma {:induction false} GatheredIsMemberTotal(f: seq<int>, s: seq<int>, n: nat, m: nat)
    requires n <= |f| && Permutation(s, n) && m <= n
    ensures Gathered(f, s, m) == MemberTotal(f, Image(s, m), n)
  {
    if m == 0 {
      MemberTotalEnds(f, Image(s, 0), n);
    } else {
      var rest, x: nat := Image(s, m - 1), s[m - 1];
      GatheredIsMemberTotal(f, s, n, m - 1);
      ImageStep(s, n, m);
      MemberTotalAdd(f, rest, x, n);
    }
  }

  ghost function Below(n: nat): (xs: set<nat>)
    ensures |xs| == n && forall i: nat :: i in xs <==> i < n
  {
    if n == 0 then {} else Below(n - 1) + {n - 1}
  }

  lemma SubsetOfSameSize(a: set<nat>, b: set<nat>)
    requires a <= b && |a| == |b|
    ensures a == b
  {
    assert |b - a| == |b| - |a|;
    assert b == a + (b - a);
  }

  /** A permutation only reorders a sum. */
  lemma PermutedTotal(f: seq<int>, s: seq<int>, n: nat)
    requires n <= |f| && Permutation(s, n)
    ensures Gathered(f, s, n) == Total(f, n)
  {
    GatheredIsMemberTotal(f, s, n, n);
    ImageSize(s, n, n);
    SubsetOfSameSize(Image(s, n), Below(n));
    MemberTotalEnds(f, Image(s, n), n);
  }
}
