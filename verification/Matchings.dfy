/** What a track-to-contact assignment is for, independent of how it is found:
    pair as many tracks and contacts within the gate as possible and, among
    those pairings, keep the total distance least. */
module Matchings {
  type Distances = seq<seq<int>>

  /** d holds one row per track with one distance per contact. */
  ghost predicate Shape(d: Distances, tracks: nat, contacts: nat) {
    && |d| == tracks
    && forall t | 0 <= t < tracks :: |d[t]| == contacts
  }

  /** Pairs (track, contact), no track and no contact twice. */
  ghost predicate Matching(tracks: nat, contacts: nat, ps: set<(nat, nat)>) {
    && (forall x | x in ps :: x.0 < tracks && x.1 < contacts)
    && forall x, y | x in ps && y in ps && x != y :: x.0 != y.0 && x.1 != y.1
  }

  ghost predicate Gated(d: Distances, tracks: nat, contacts: nat, gate: int, ps: set<(nat, nat)>) {
    && Shape(d, tracks, contacts)
    && Matching(tracks, contacts, ps)
    && forall x | x in ps :: d[x.0][x.1] <= gate
  }

  ghost function TotalDistance(d: Distances, ps: set<(nat, nat)>): int
    requires forall x | x in ps :: x.0 < |d| && x.1 < |d[x.0]|
  {
    if ps == {} then 0 else
      var x :| x in ps;
      d[x.0][x.1] + TotalDistance(d, ps - {x})
  }

  lemma {:induction false} TotalDistanceRemove(d: Distances, ps: set<(nat, nat)>, x: (nat, nat))
    requires forall y | y in ps :: y.0 < |d| && y.1 < |d[y.0]|
    requires x in ps
    ensures TotalDistance(d, ps) == d[x.0][x.1] + TotalDistance(d, ps - {x})
    decreases |ps|
  {
    var y :| y in ps && TotalDistance(d, ps) == d[y.0][y.1] + TotalDistance(d, ps - {y});
    if y != x {
      TotalDistanceRemove(d, ps - {y}, x);
      TotalDistanceRemove(d, ps - {x}, y);
      assert ps - {y} - {x} == ps - {x} - {y};
    }
  }

  /** ps has the most gated pairs and, among the gated matchings with that
      many pairs, the least total distance. */
  ghost predicate LexOptimal(d: Distances, tracks: nat, contacts: nat, gate: int, ps: set<(nat, nat)>) {
    && Gated(d, tracks, contacts, gate, ps)
    && forall qs | Gated(d, tracks, contacts, gate, qs) :: NoBetter(d, ps, qs)
  }

  ghost predicate NoBetter(d: Distances, ps: set<(nat, nat)>, qs: set<(nat, nat)>)
    requires forall x | x in ps || x in qs :: x.0 < |d| && x.1 < |d[x.0]|
  {
    |qs| < |ps| || (|qs| == |ps| && TotalDistance(d, ps) <= TotalDistance(d, qs))
  }

  /** Two optimal answers may pick different pairs, never another count or total. */
  lemma OptimaAgree(d: Distances, tracks: nat, contacts: nat, gate: int, ps: set<(nat, nat)>, qs: set<(nat, nat)>)
    requires LexOptimal(d, tracks, contacts, gate, ps) && LexOptimal(d, tracks, contacts, gate, qs)
    ensures |ps| == |qs| && TotalDistance(d, ps) == TotalDistance(d, qs)
  {}

  /** A tie: one track, two contacts at the same distance, two optimal answers. */
  lemma TiesDiffer(x: nat, gate: nat)
    requires x <= gate
    ensures LexOptimal([[x, x]], 1, 2, gate, {(0, 0)}) && LexOptimal([[x, x]], 1, 2, gate, {(0, 1)})
  {
    var d: Distances := [[x, x]];
    forall qs | Gated(d, 1, 2, gate, qs)
      ensures NoBetter(d, {(0, 0)}, qs) && NoBetter(d, {(0, 1)}, qs)
    {
      OneTrack(d, qs, x);
      TotalDistanceRemove(d, {(0, 0)}, (0, 0));
      TotalDistanceRemove(d, {(0, 1)}, (0, 1));
      assert {(0 as nat, 0 as nat)} - {(0, 0)} == {} && {(0 as nat, 1 as nat)} - {(0, 1)} == {};
    }
  }

  lemma OneTrack(d: Distances, qs: set<(nat, nat)>, x: nat)
    requires d == [[x, x]] && Matching(1, 2, qs)
    ensures |qs| <= 1 && (|qs| == 1 ==> TotalDistance(d, qs) == x)
  {
    if qs != {} {
      var q :| q in qs;
      assert qs == {q};
      TotalDistanceRemove(d, qs, q);
      assert qs - {q} == {};
    }
  }

  // ----- the same matching indexed by contact, -1 for "no track"

  ghost predicate Slots(tracks: nat, contacts: nat, a: seq<int>) {
    && |a| == contacts
    && (forall j | 0 <= j < contacts :: -1 <= a[j] < tracks)
    && forall j, k | 0 <= j < k < contacts && a[j] >= 0 :: a[j] != a[k]
  }

  ghost function PairsOf(a: seq<int>, m: nat): set<(nat, nat)>
    requires m <= |a|
  {
    set j: nat | j < m && a[j] >= 0 :: (a[j] as nat, j)
  }

  ghost function Count(a: seq<int>, m: nat): nat
    requires m <= |a|
  {
    if m == 0 then 0 else Count(a, m - 1) + if a[m - 1] >= 0 then 1 else 0
  }

  ghost function SlotDistance(d: Distances, a: seq<int>, m: nat): int
    requires m <= |a| && forall j | 0 <= j < m && a[j] >= 0 :: a[j] < |d| && j < |d[a[j]]|
  {
    if m == 0 then 0
    else SlotDistance(d, a, m - 1) + if a[m - 1] >= 0 then d[a[m - 1]][m - 1] else 0
  }

  lemma PairsOfStep(a: seq<int>, m: nat)
    requires 0 < m <= |a|
    ensures a[m - 1] < 0 ==> PairsOf(a, m) == PairsOf(a, m - 1)
    ensures a[m - 1] >= 0 ==> (a[m - 1] as nat, m - 1) in PairsOf(a, m)
    ensures a[m - 1] >= 0 ==> PairsOf(a, m - 1) == PairsOf(a, m) - {(a[m - 1] as nat, m - 1)}
  {}

  lemma {:induction false} PairsOfSlots(d: Distances, a: seq<int>, m: nat)
    requires m <= |a| && forall j | 0 <= j < m && a[j] >= 0 :: a[j] < |d| && j < |d[a[j]]|
    ensures |PairsOf(a, m)| == Count(a, m)
    ensures TotalDistance(d, PairsOf(a, m)) == SlotDistance(d, a, m)
  {
    if m > 0 {
      PairsOfSlots(d, a, m - 1);
      PairsOfStep(a, m);
      if a[m - 1] >= 0 {
        TotalDistanceRemove(d, PairsOf(a, m), (a[m - 1] as nat, m - 1));
      }
    }
  }

  lemma SlotsMatch(tracks: nat, contacts: nat, a: seq<int>)
    requires Slots(tracks, contacts, a)
    ensures Matching(tracks, contacts, PairsOf(a, contacts))
  {}

  /** Every matching has a contact-indexed form. */
  lemma SlotsOfPairs(tracks: nat, contacts: nat, ps: set<(nat, nat)>) returns (a: seq<int>)
    requires Matching(tracks, contacts, ps)
    ensures Slots(tracks, contacts, a) && PairsOf(a, contacts) == ps
  {
    a := seq(contacts, (j: nat) => Partner(ps, j));
    forall x | x in ps
      ensures a[x.1] == x.0
    {
      assert Partner(ps, x.1) == x.0;
    }
    forall j: nat | j < contacts && a[j] >= 0
      ensures (a[j] as nat, j) in ps
    {}
  }

  ghost function Partner(ps: set<(nat, nat)>, j: nat): (t: int)
    ensures t >= 0 ==> (t as nat, j) in ps
    ensures t < 0 ==> t == -1 && forall x | x in ps :: x.1 != j
  {
    if x :| x in ps && x.1 == j then x.0 else -1
  }
}
