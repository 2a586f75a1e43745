/** Why solving the padded square problem solves the gated one. */
module Padding {
  import opened Numbers
  import opened Sums
  import opened HungarianSpec
  import opened Matchings

  const UNMATCHED_COST: int := 1_000_000
  const INVALID_COST: int := 3_000_000

  /** Entry of the padded matrix: dummy columns follow the contacts, dummy rows
      follow the tracks, two dummies meet at no cost. */
  ghost function PaddedCost(d: Distances, tracks: nat, contacts: nat, row: nat, col: nat): int
    requires Shape(d, tracks, contacts)
  {
    if row < tracks && col < contacts then d[row][col]
    else if row < tracks || col < contacts then UNMATCHED_COST
    else 0
  }

  ghost function Padded(d: Distances, tracks: nat, contacts: nat): (c: Matrix)
    requires Shape(d, tracks, contacts)
    ensures |c| == tracks + contacts
    ensures forall r | 0 <= r < |c| :: |c[r]| == |c|
    ensures forall r, k | 0 <= r < |c| && 0 <= k < |c| :: c[r][k] == PaddedCost(d, tracks, contacts, r, k)
  {
    var n := tracks + contacts;
    seq(n, (r: nat) => seq(n, (k: nat) => PaddedCost(d, tracks, contacts, r, k)))
  }

  /** Every distance is within the gate or carries the invalid cost. */
  ghost predicate GatedDistances(d: Distances, tracks: nat, contacts: nat, gate: int) {
    && Shape(d, tracks, contacts)
    && 0 <= gate < INVALID_COST
    && forall t, j | 0 <= t < tracks && 0 <= j < contacts :: 0 <= d[t][j] <= gate || d[t][j] == INVALID_COST
  }

  /** The contact part of a column assignment s of the padded problem. */
  ghost function RealPart(s: seq<int>, tracks: nat, contacts: nat): (a: seq<int>)
    requires contacts <= |s|
    ensures |a| == contacts
    ensures forall j | 0 <= j < contacts :: a[j] == if 0 <= s[j] < tracks then s[j] else -1
  {
    seq(contacts, j requires 0 <= j < contacts => if 0 <= s[j] < tracks then s[j] else -1)
  }

  ghost function IsTrack(tracks: nat, n: nat): (f: seq<int>)
    ensures |f| == n && forall r | 0 <= r < n :: f[r] == if r < tracks then 1 else 0
  {
    seq(n, (r: nat) => if r < tracks then 1 else 0)
  }

  /** Cost of the first m columns in terms of the real pairs among them. */
  lemma {:induction false} CostOfColumns(d: Distances, tracks: nat, contacts: nat, s: seq<int>, m: nat)
    requires Shape(d, tracks, contacts) && Permutation(s, tracks + contacts) && m <= contacts
    ensures var a := RealPart(s, tracks, contacts);
            && Gathered(IsTrack(tracks, |s|), s, m) == Count(a, m)
            && AssignmentCost(Padded(d, tracks, contacts), s, m) == SlotDistance(d, a, m) + UNMATCHED_COST * (m - Count(a, m))
  {
    if m > 0 {
      CostOfColumns(d, tracks, contacts, s, m - 1);
    }
  }

  lemma {:induction false} CostOfDummyColumns(d: Distances, tracks: nat, contacts: nat, s: seq<int>, m: nat)
    requires Shape(d, tracks, contacts) && Permutation(s, tracks + contacts) && contacts <= m <= tracks + contacts
    ensures var c, f := Padded(d, tracks, contacts), IsTrack(tracks, |s|);
            AssignmentCost(c, s, m) == AssignmentCost(c, s, contacts) + UNMATCHED_COST * (Gathered(f, s, m) - Gathered(f, s, contacts))
  {
    if m > contacts {
      CostOfDummyColumns(d, tracks, contacts, s, m - 1);
    }
  }

  lemma {:induction false} TotalOfIsTrack(tracks: nat, n: nat, m: nat)
    requires m <= n
    ensures Total(IsTrack(tracks, n), m) == if m <= tracks then m else tracks
  {
    if m > 0 {
      TotalOfIsTrack(tracks, n, m - 1);
    }
  }

  /** A padded assignment with k real pairs costs their distance plus one
      unmatched cost for every track and contact left over. */
  lemma PaddedAssignmentCost(d: Distances, tracks: nat, contacts: nat, s: seq<int>)
    requires Shape(d, tracks, contacts) && Permutation(s, tracks + contacts)
    ensures var a := RealPart(s, tracks, contacts);
            AssignmentCost(Padded(d, tracks, contacts), s, tracks + contacts)
            == SlotDistance(d, a, contacts) + UNMATCHED_COST * (tracks + contacts - 2 * Count(a, contacts))
  {
    var n := tracks + contacts;
    CostOfColumns(d, tracks, contacts, s, contacts);
    CostOfDummyColumns(d, tracks, contacts, s, n);
    PermutedTotal(IsTrack(tracks, n), s, n);
    TotalOfIsTrack(tracks, n, n);
  }

  /** Contact matched to track t, or -1. */
  ghost function ContactOf(a: seq<int>, t: int): (j: int)
    ensures j >= 0 ==> j < |a| && a[j] == t
    ensures j < 0 ==> j == -1 && forall k | 0 <= k < |a| :: a[k] != t
  {
    if j :| 0 <= j < |a| && a[j] == t then j else -1
  }

  /** Padded row of column j: an unmatched contact takes its own dummy row, an
      unmatched track its own dummy column, and the dummies of a matched pair
      meet each other. */
  ghost function ExtendedRow(tracks: nat, contacts: nat, a: seq<int>, j: nat): (r: int)
    requires Slots(tracks, contacts, a) && j < tracks + contacts
    ensures 0 <= r < tracks + contacts
  {
    if j < contacts then (if a[j] >= 0 then a[j] else tracks + j)
    else if ContactOf(a, j - contacts) >= 0 then tracks + ContactOf(a, j - contacts)
    else j - contacts
  }

  /** Any partial matching is the real part of some padded assignment. */
  lemma Extend(tracks: nat, contacts: nat, a: seq<int>) returns (s: seq<int>)
    requires Slots(tracks, contacts, a)
    ensures Permutation(s, tracks + contacts) && RealPart(s, tracks, contacts) == a
  {
    s := seq(tracks + contacts, (j: nat) requires j < tracks + contacts => ExtendedRow(tracks, contacts, a, j));
    forall j, k | 0 <= j < k < tracks + contacts
      ensures s[j] != s[k]
    {
      if k >= contacts {
        var m := ContactOf(a, k - contacts);
        assert m >= 0 ==> a[m] == k - contacts;
        if j >= contacts {
          var l := ContactOf(a, j - contacts);
          assert l >= 0 ==> a[l] == j - contacts;
        } else {
          assert m < 0 ==> a[j] != k - contacts;
        }
      }
    }
  }

  lemma {:induction false} CountAtMost(a: seq<int>, b: seq<int>, m: nat)
    requires m <= |a| == |b|
    requires forall j | 0 <= j < m :: b[j] == a[j] || b[j] == -1
    ensures Count(b, m) <= Count(a, m)
    ensures Count(b, m) == Count(a, m) ==> forall j | 0 <= j < m && a[j] >= 0 :: b[j] == a[j]
  {
    if m > 0 {
      CountAtMost(a, b, m - 1);
    }
  }

  /** Keep only the slots within the gate. */
  ghost function Within(d: Distances, tracks: nat, contacts: nat, gate: int, a: seq<int>): (b: seq<int>)
    requires Shape(d, tracks, contacts) && Slots(tracks, contacts, a)
    ensures |b| == |a|
    ensures forall j | 0 <= j < contacts :: b[j] == if a[j] >= 0 && d[a[j]][j] <= gate then a[j] else -1
  {
    seq(contacts, j requires 0 <= j < contacts => if a[j] >= 0 && d[a[j]][j] <= gate then a[j] else -1)
  }

  lemma {:induction false} DroppedDistance(d: Distances, tracks: nat, contacts: nat, gate: int, a: seq<int>, m: nat)
    requires GatedDistances(d, tracks, contacts, gate) && Slots(tracks, contacts, a) && m <= contacts
    ensures var b := Within(d, tracks, contacts, gate, a);
            SlotDistance(d, a, m) == SlotDistance(d, b, m) + INVALID_COST * (Count(a, m) - Count(b, m))
  {
    if m > 0 {
      DroppedDistance(d, tracks, contacts, gate, a, m - 1);
    }
  }

  /** An optimal padded assignment never uses an invalid pair: two dummies are cheaper. */
  lemma NoInvalidPair(d: Distances, tracks: nat, contacts: nat, gate: int, s: seq<int>)
    requires GatedDistances(d, tracks, contacts, gate)
    requires MinimumAssignment(Padded(d, tracks, contacts), tracks + contacts, s)
    ensures forall j | 0 <= j < contacts && s[j] < tracks :: d[s[j]][j] <= gate
  {
    var a := RealPart(s, tracks, contacts);
    var b := Within(d, tracks, contacts, gate, a);
    var t := Extend(tracks, contacts, b);
    PaddedAssignmentCost(d, tracks, contacts, s);
    PaddedAssignmentCost(d, tracks, contacts, t);
    DroppedDistance(d, tracks, contacts, gate, a, contacts);
    CountAtMost(a, b, contacts);
    assert forall j | 0 <= j < contacts && s[j] < tracks :: a[j] == s[j] && b[j] == a[j];
  }

  lemma {:induction false} GatedTotal(d: Distances, a: seq<int>, gate: nat, m: nat)
    requires m <= |a| && forall j | 0 <= j < m && a[j] >= 0 :: a[j] < |d| && j < |d[a[j]]|
    requires forall j | 0 <= j < m && a[j] >= 0 :: d[a[j]][j] <= gate
    ensures SlotDistance(d, a, m) <= gate * Count(a, m)
  {
    if m > 0 {
      GatedTotal(d, a, gate, m - 1);
    }
  }

  lemma {:induction false} DistanceNonnegative(d: Distances, a: seq<int>, m: nat)
    requires m <= |a| && forall j | 0 <= j < m && a[j] >= 0 :: a[j] < |d| && j < |d[a[j]]| && d[a[j]][j] >= 0
    ensures SlotDistance(d, a, m) >= 0
  {
    if m > 0 {
      DistanceNonnegative(d, a, m - 1);
    }
  }

  lemma {:induction false} CountBounded(tracks: nat, contacts: nat, a: seq<int>)
    requires Slots(tracks, contacts, a)
    ensures Count(a, contacts) <= tracks && Count(a, contacts) <= contacts
  {
    var s := Extend(tracks, contacts, a);
    var n := tracks + contacts;
    var d := seq(tracks, (t: nat) => seq(contacts, (j: nat) => 0));
    CostOfColumns(d, tracks, contacts, s, contacts);
    PermutedTotal(IsTrack(tracks, n), s, n);
    TotalOfIsTrack(tracks, n, n);
    GatheredGrows(tracks, s, contacts, n);
    CountUpTo(a, contacts);
  }

  lemma {:induction false} CountUpTo(a: seq<int>, m: nat)
    requires m <= |a|
    ensures Count(a, m) <= m
  {
    if m > 0 {
      CountUpTo(a, m - 1);
    }
  }

  lemma {:induction false} GatheredGrows(tracks: nat, s: seq<int>, m: nat, n: nat)
    requires Permutation(s, |s|) && m <= n <= |s|
    ensures Gathered(IsTrack(tracks, |s|), s, m) <= Gathered(IsTrack(tracks, |s|), s, n)
    decreases n
  {
    if m < n {
      GatheredGrows(tracks, s, m, n - 1);
    }
  }

  /** No gated matching, given by its contact slots q, beats the real part a
      of an optimal padded assignment. */
  lemma NoBetterSlots(d: Distances, tracks: nat, contacts: nat, gate: nat, s: seq<int>, q: seq<int>)
    requires GatedDistances(d, tracks, contacts, gate)
    requires gate * Min(tracks, contacts) < 2 * UNMATCHED_COST
    requires MinimumAssignment(Padded(d, tracks, contacts), tracks + contacts, s)
    requires Slots(tracks, contacts, q)
    requires forall j | 0 <= j < contacts && q[j] >= 0 :: d[q[j]][j] <= gate
    ensures var a := RealPart(s, tracks, contacts);
            || Count(q, contacts) < Count(a, contacts)
            || (Count(q, contacts) == Count(a, contacts) && SlotDistance(d, a, contacts) <= SlotDistance(d, q, contacts))
  {
    var t := Extend(tracks, contacts, q);
    PaddedAssignmentCost(d, tracks, contacts, s);
    PaddedAssignmentCost(d, tracks, contacts, t);
    DistanceNonnegative(d, RealPart(s, tracks, contacts), contacts);
    GatedTotal(d, q, gate, contacts);
    CountBounded(tracks, contacts, q);
    ScaleMono(gate, Count(q, contacts), Min(tracks, contacts));
  }

  /** The reduction: the real part of an optimal padded assignment is a
      lexicographic optimum of the gated problem. */
  lemma PaddedOptimumIsLexOptimal(d: Distances, tracks: nat, contacts: nat, gate: nat, s: seq<int>)
    requires GatedDistances(d, tracks, contacts, gate)
    requires gate * Min(tracks, contacts) < 2 * UNMATCHED_COST
    requires MinimumAssignment(Padded(d, tracks, contacts), tracks + contacts, s)
    ensures LexOptimal(d, tracks, contacts, gate, PairsOf(RealPart(s, tracks, contacts), contacts))
  {
    var a := RealPart(s, tracks, contacts);
    var ps := PairsOf(a, contacts);
    NoInvalidPair(d, tracks, contacts, gate, s);
    SlotsMatch(tracks, contacts, a);
    PairsOfSlots(d, a, contacts);
    forall qs | Gated(d, tracks, contacts, gate, qs)
      ensures NoBetter(d, ps, qs)
    {
      var q := SlotsOfPairs(tracks, contacts, qs);
      assert forall j: nat | j < contacts && q[j] >= 0 :: (q[j] as nat, j) in qs;
      NoBetterSlots(d, tracks, contacts, gate, s, q);
      PairsOfSlots(d, q, contacts);
    }
  }

  // ----- the bound on the gate is exact

  /** Distance x on the diagonal, zero beside it, everything else invalid: as
      many pairs as possible means the whole diagonal, and one pair fewer costs nothing. */
  ghost function Staircase(tracks: nat, contacts: nat, x: nat): (d: Distances)
    ensures Shape(d, tracks, contacts)
    ensures forall t, j | 0 <= t < tracks && 0 <= j < contacts :: d[t][j] == Step(Min(tracks, contacts), x, t, j)
  {
    seq(tracks, (t: nat) => seq(contacts, (j: nat) => Step(Min(tracks, contacts), x, t, j)))
  }

  ghost function Step(k: nat, x: nat, t: nat, j: nat): int {
    if t == j < k then x else if t + 1 == j < k then 0 else INVALID_COST
  }

  /** The first k contacts are matched on the diagonal. */
  ghost predicate Diagonal(a: seq<int>, k: nat)
    requires k <= |a|
  {
    k == 0 || (Diagonal(a, k - 1) && a[k - 1] == k - 1)
  }

  lemma {:induction false} DiagonalStart(a: seq<int>, k: nat)
    requires 0 < k <= |a| && Diagonal(a, k)
    ensures a[0] == 0
  {
    if k > 1 {
      DiagonalStart(a, k - 1);
    }
  }

  /** What k pairs at no distance save over leaving their tracks and contacts unmatched. */
  ghost function PairSaving(k: int): (v: int)
    ensures v == 2 * UNMATCHED_COST * k
  {
    2_000_000 * k
  }

  /** Saving of the pairs of the first m columns over leaving all unmatched. */
  ghost function Saving(d: Distances, a: seq<int>, m: nat): int
    requires m <= |a| && forall j | 0 <= j < m && a[j] >= 0 :: a[j] < |d| && j < |d[a[j]]|
  {
    if m == 0 then 0
    else Saving(d, a, m - 1) + if a[m - 1] >= 0 then 2 * UNMATCHED_COST - d[a[m - 1]][m - 1] else 0
  }

  lemma {:induction false} SavingIs(d: Distances, a: seq<int>, m: nat)
    requires m <= |a| && forall j | 0 <= j < m && a[j] >= 0 :: a[j] < |d| && j < |d[a[j]]|
    ensures Saving(d, a, m) == PairSaving(Count(a, m)) - SlotDistance(d, a, m)
  {
    if m > 0 {
      SavingIs(d, a, m - 1);
    }
  }

  lemma {:induction false} DiagonalDistance(tracks: nat, contacts: nat, x: nat, a: seq<int>, m: nat)
    requires Slots(tracks, contacts, a) && m <= Min(tracks, contacts) && Diagonal(a, m)
    ensures Count(a, m) == m && SlotDistance(Staircase(tracks, contacts, x), a, m) == x * m
  {
    if m > 0 {
      DiagonalDistance(tracks, contacts, x, a, m - 1);
      assert x * m == x * (m - 1) + x;
    }
  }

  /** The valid pairs of a. */
  ghost function Valid(tracks: nat, contacts: nat, x: nat, a: seq<int>): (b: seq<int>)
    requires Slots(tracks, contacts, a)
    ensures |b| == |a|
  {
    Within(Staircase(tracks, contacts, x), tracks, contacts, INVALID_COST - 1, a)
  }

  /** The last of m columns: only the diagonal and the zero beside it are worth a pair. */
  lemma StaircaseColumn(tracks: nat, contacts: nat, x: nat, a: seq<int>, m: nat)
    requires Slots(tracks, contacts, a) && 0 < m <= contacts
    ensures var d, k, b := Staircase(tracks, contacts, x), Min(tracks, contacts), Valid(tracks, contacts, x, a);
            && Saving(d, a, m) <= Saving(d, a, m - 1) + PairSaving(1)
            && Count(b, m) <= Count(b, m - 1) + 1
            && (m > k || (a[m - 1] != m - 1 && a[m - 1] != m - 2) || a[m - 1] < 0 ==>
                  Saving(d, a, m) <= Saving(d, a, m - 1) && Count(b, m) == Count(b, m - 1))
  {
    var j := m - 1;
    if a[j] >= 0 {
      assert Staircase(tracks, contacts, x)[a[j]][j] == Step(Min(tracks, contacts), x, a[j], j);
    }
  }

  /** Most pairs the first m columns are worth: all of them only on the diagonal. */
  ghost function Worth(a: seq<int>, m: nat): nat
    requires m <= |a|
  {
    if m == 0 || Diagonal(a, m) then m else m - 1
  }

  /** A column that ends the diagonal is worth none: the zero's track is taken. */
  lemma WorthStep(tracks: nat, contacts: nat, a: seq<int>, m: nat)
    requires Slots(tracks, contacts, a) && 0 < m <= contacts
    ensures || Worth(a, m) == Worth(a, m - 1) + 1
            || (Worth(a, m) == Worth(a, m - 1) && (a[m - 1] < 0 || (a[m - 1] != m - 1 && a[m - 1] != m - 2)))
  {
    assert Diagonal(a, m) <==> Diagonal(a, m - 1) && a[m - 1] == m - 1;
    if m > 1 && Diagonal(a, m - 1) {
      assert a[m - 2] == m - 2;
      assert a[m - 1] >= 0 ==> a[m - 1] != a[m - 2];
    }
  }

  lemma ColumnWorth(tracks: nat, contacts: nat, x: nat, a: seq<int>, m: nat)
    requires Slots(tracks, contacts, a) && 0 < m <= Min(tracks, contacts)
    ensures var d, b, more := Staircase(tracks, contacts, x), Valid(tracks, contacts, x, a), Worth(a, m) - Worth(a, m - 1);
            Saving(d, a, m) <= Saving(d, a, m - 1) + PairSaving(more) && Count(b, m) <= Count(b, m - 1) + more
  {
    StaircaseColumn(tracks, contacts, x, a, m);
    WorthStep(tracks, contacts, a, m);
  }

  /** Without the whole diagonal one of the first columns pairs with nothing valid. */
  lemma {:induction false} OffDiagonal(tracks: nat, contacts: nat, x: nat, a: seq<int>, m: nat)
    requires Slots(tracks, contacts, a) && m <= Min(tracks, contacts)
    ensures Saving(Staircase(tracks, contacts, x), a, m) <= PairSaving(Worth(a, m))
    ensures Count(Valid(tracks, contacts, x, a), m) <= Worth(a, m)
  {
    if m > 0 {
      OffDiagonal(tracks, contacts, x, a, m - 1);
      ColumnWorth(tracks, contacts, x, a, m);
    }
  }

  /** Columns past the square hold nothing valid. */
  lemma {:induction false} PastTheSquare(tracks: nat, contacts: nat, x: nat, a: seq<int>, m: nat)
    requires Slots(tracks, contacts, a) && Min(tracks, contacts) <= m <= contacts
    ensures var d, k, b := Staircase(tracks, contacts, x), Min(tracks, contacts), Valid(tracks, contacts, x, a);
            Saving(d, a, m) <= Saving(d, a, k) && Count(b, m) == Count(b, k)
  {
    if m > Min(tracks, contacts) {
      PastTheSquare(tracks, contacts, x, a, m - 1);
      StaircaseColumn(tracks, contacts, x, a, m);
    }
  }

  /** The zeros beside the diagonal. */
  ghost function BesideDiagonal(tracks: nat, contacts: nat): (a: seq<int>)
    ensures |a| == contacts && forall j | 0 <= j < contacts :: a[j] == if 1 <= j < Min(tracks, contacts) then j - 1 else -1
    ensures Slots(tracks, contacts, a)
  {
    seq(contacts, (j: nat) => if 1 <= j < Min(tracks, contacts) then j - 1 else -1)
  }

  lemma {:induction false} BesideSaves(tracks: nat, contacts: nat, x: nat, m: nat)
    requires m <= contacts
    ensures var d, a, k := Staircase(tracks, contacts, x), BesideDiagonal(tracks, contacts), Min(tracks, contacts);
            Count(a, m) == (if m == 0 || k == 0 then 0 else Min(m, k) - 1) && SlotDistance(d, a, m) == 0
  {
    if m > 0 {
      BesideSaves(tracks, contacts, x, m - 1);
    }
  }

  ghost function OnDiagonal(tracks: nat, contacts: nat): (a: seq<int>)
    ensures |a| == contacts && forall j | 0 <= j < contacts :: a[j] == if j < Min(tracks, contacts) then j else -1
    ensures Slots(tracks, contacts, a)
  {
    seq(contacts, (j: nat) => if j < Min(tracks, contacts) then j else -1)
  }

  lemma {:induction false} DiagonalCount(tracks: nat, contacts: nat, m: nat)
    requires m <= contacts
    ensures Count(OnDiagonal(tracks, contacts), m) == Min(m, Min(tracks, contacts))
  {
    if m > 0 {
      DiagonalCount(tracks, contacts, m - 1);
    }
  }

  /** A lexicographic optimum of the staircase holds the whole diagonal. */
  lemma OptimumIsDiagonal(tracks: nat, contacts: nat, x: nat, gate: nat, a: seq<int>)
    requires Slots(tracks, contacts, a) && x <= gate < INVALID_COST
    requires LexOptimal(Staircase(tracks, contacts, x), tracks, contacts, gate, PairsOf(a, contacts))
    ensures Diagonal(a, Min(tracks, contacts))
  {
    var d, k, q := Staircase(tracks, contacts, x), Min(tracks, contacts), OnDiagonal(tracks, contacts);
    SlotsMatch(tracks, contacts, q);
    assert Gated(d, tracks, contacts, gate, PairsOf(q, contacts));
    PairsOfSlots(d, q, contacts);
    PairsOfSlots(d, a, contacts);
    DiagonalCount(tracks, contacts, contacts);
    assert Count(a, contacts) >= k;
    var b := Valid(tracks, contacts, x, a);
    forall j | 0 <= j < contacts
      ensures b[j] == a[j]
    {
      if a[j] >= 0 {
        assert (a[j] as nat, j) in PairsOf(a, contacts);
      }
    }
    assert b == a;
    PastTheSquare(tracks, contacts, x, a, contacts);
    OffDiagonal(tracks, contacts, x, a, k);
  }

  lemma RealPartSlots(s: seq<int>, tracks: nat, contacts: nat)
    requires Permutation(s, tracks + contacts)
    ensures Slots(tracks, contacts, RealPart(s, tracks, contacts))
  {}

  lemma CostBySaving(d: Distances, tracks: nat, contacts: nat, s: seq<int>)
    requires Shape(d, tracks, contacts) && Permutation(s, tracks + contacts)
    ensures Slots(tracks, contacts, RealPart(s, tracks, contacts))
    ensures AssignmentCost(Padded(d, tracks, contacts), s, tracks + contacts)
            == UNMATCHED_COST * (tracks + contacts) - Saving(d, RealPart(s, tracks, contacts), contacts)
  {
    RealPartSlots(s, tracks, contacts);
    PaddedAssignmentCost(d, tracks, contacts, s);
    SavingIs(d, RealPart(s, tracks, contacts), contacts);
  }

  /** With the diagonal at two unmatched costs or more in total, no matching
      of the staircase saves more than the zeros beside the diagonal. */
  lemma BesideSavesMost(tracks: nat, contacts: nat, x: nat, a: seq<int>)
    requires x * Min(tracks, contacts) >= 2 * UNMATCHED_COST && Slots(tracks, contacts, a)
    ensures var d := Staircase(tracks, contacts, x);
            && Saving(d, a, contacts) <= Saving(d, BesideDiagonal(tracks, contacts), contacts)
            && (x * Min(tracks, contacts) > 2 * UNMATCHED_COST && Diagonal(a, Min(tracks, contacts)) ==>
                  Saving(d, a, contacts) < Saving(d, BesideDiagonal(tracks, contacts), contacts))
  {
    var k := Min(tracks, contacts);
    assert k > 0;
    var d := Staircase(tracks, contacts, x);
    BesideSaves(tracks, contacts, x, contacts);
    SavingIs(d, BesideDiagonal(tracks, contacts), contacts);
    PastTheSquare(tracks, contacts, x, a, contacts);
    OffDiagonal(tracks, contacts, x, a, k);
    if Diagonal(a, k) {
      DiagonalDistance(tracks, contacts, x, a, k);
      SavingIs(d, a, k);
    }
  }

  /** Leaving the diagonal is then an optimum of the padded problem. */
  lemma BesideIsMinimum(tracks: nat, contacts: nat, x: nat, s: seq<int>)
    requires x * Min(tracks, contacts) >= 2 * UNMATCHED_COST
    requires Permutation(s, tracks + contacts) && RealPart(s, tracks, contacts) == BesideDiagonal(tracks, contacts)
    ensures MinimumAssignment(Padded(Staircase(tracks, contacts, x), tracks, contacts), tracks + contacts, s)
  {
    var d, n := Staircase(tracks, contacts, x), tracks + contacts;
    CostBySaving(d, tracks, contacts, s);
    forall t | Permutation(t, n)
      ensures AssignmentCost(Padded(d, tracks, contacts), s, n) <= AssignmentCost(Padded(d, tracks, contacts), t, n)
    {
      CostBySaving(d, tracks, contacts, t);
      BesideSavesMost(tracks, contacts, x, RealPart(t, tracks, contacts));
    }
  }

  ghost predicate FindsOptimum(d: Distances, tracks: nat, contacts: nat, gate: int, s: seq<int>)
    requires Shape(d, tracks, contacts) && contacts <= |s|
  {
    LexOptimal(d, tracks, contacts, gate, PairsOf(RealPart(s, tracks, contacts), contacts))
  }

  /** Solving the padded problem solves every gated problem of this size. */
  ghost predicate PaddingWorks(tracks: nat, contacts: nat, gate: int) {
    forall d: Distances, s |
      GatedDistances(d, tracks, contacts, gate) && MinimumAssignment(Padded(d, tracks, contacts), tracks + contacts, s) ::
      FindsOptimum(d, tracks, contacts, gate, s)
  }

  /** Padding works exactly while a full set of pairs at the gate costs less
      than leaving one track and one contact unmatched. */
  lemma GateBoundIsExact(tracks: nat, contacts: nat, gate: nat)
    requires gate < INVALID_COST
    ensures PaddingWorks(tracks, contacts, gate) <==> gate * Min(tracks, contacts) < 2 * UNMATCHED_COST
  {
    if gate * Min(tracks, contacts) < 2 * UNMATCHED_COST {
      forall d: Distances, s |
        GatedDistances(d, tracks, contacts, gate) && MinimumAssignment(Padded(d, tracks, contacts), tracks + contacts, s)
        ensures FindsOptimum(d, tracks, contacts, gate, s)
      {
        PaddedOptimumIsLexOptimal(d, tracks, contacts, gate, s);
      }
    } else {
      assert Min(tracks, contacts) > 0;
      var d := Staircase(tracks, contacts, gate);
      var s := Extend(tracks, contacts, BesideDiagonal(tracks, contacts));
      BesideIsMinimum(tracks, contacts, gate, s);
      if FindsOptimum(d, tracks, contacts, gate, s) {
        OptimumIsDiagonal(tracks, contacts, gate, gate, BesideDiagonal(tracks, contacts));
        DiagonalStart(BesideDiagonal(tracks, contacts), Min(tracks, contacts));
      }
    }
  }

  /** Past the bound no optimum of the staircase will do. */
  lemma LargeGateFails(tracks: nat, contacts: nat, x: nat, gate: nat, s: seq<int>)
    requires x * Min(tracks, contacts) > 2 * UNMATCHED_COST && x <= gate < INVALID_COST
    requires MinimumAssignment(Padded(Staircase(tracks, contacts, x), tracks, contacts), tracks + contacts, s)
    ensures GatedDistances(Staircase(tracks, contacts, x), tracks, contacts, gate)
    ensures !FindsOptimum(Staircase(tracks, contacts, x), tracks, contacts, gate, s)
  {
    var d := Staircase(tracks, contacts, x);
    var t := Extend(tracks, contacts, BesideDiagonal(tracks, contacts));
    CostBySaving(d, tracks, contacts, s);
    CostBySaving(d, tracks, contacts, t);
    BesideSavesMost(tracks, contacts, x, RealPart(s, tracks, contacts));
    if FindsOptimum(d, tracks, contacts, gate, s) {
      OptimumIsDiagonal(tracks, contacts, x, gate, RealPart(s, tracks, contacts));
    }
  }

  lemma ScaleMono(x: nat, a: nat, b: nat)
    requires a <= b
    ensures x * a <= x * b
  {}
}
