/** g6ts_assign_tracks: gather the active slots, fill the padded matrix, solve
    it in the workspace, and keep the real pairs. */
module TrackAssignment {
  import opened Numbers
  import opened HungarianSpec
  import opened Matchings
  import opened Padding
  import opened Hungarian

  const TRACK_MATCH_MAX: nat := 4096
  const WINDOWS_ASSIGN_RADIUS: nat := 5
  const MAX_CONTACTS: nat := 10
  /** Largest workspace whose potentials cannot leave 32 bits. */
  const WIDEST: nat := 712

  /** Largest valid cost: a distance, or a squared sensor distance when the
      wide metric of the opt-in policies is selected. */
  ghost function Gate(wide: bool): nat {
    if wide then WINDOWS_ASSIGN_RADIUS * WINDOWS_ASSIGN_RADIUS - 1 else TRACK_MATCH_MAX
  }

  /** Indices of the active slots in increasing order. */
  function ActiveSlots(active: seq<bool>, m: nat): (s: seq<nat>)
    requires m <= |active|
    ensures |s| <= m
    ensures forall i | 0 <= i < |s| :: s[i] < m && active[s[i]]
    ensures forall i, k | 0 <= i < k < |s| :: s[i] < s[k]
    ensures forall i | 0 <= i < m && active[i] :: i in s
  {
    if m == 0 then []
    else if active[m - 1] then ActiveSlots(active, m - 1) + [m - 1]
    else ActiveSlots(active, m - 1)
  }

  /** The distance rows of the selected slots. */
  ghost function Rows(distance: Distances, slots: seq<nat>): (d: Distances)
    requires forall i | 0 <= i < |slots| :: slots[i] < |distance|
    ensures |d| == |slots| && forall i | 0 <= i < |slots| :: d[i] == distance[slots[i]]
  {
    seq(|slots|, i requires 0 <= i < |slots| => distance[slots[i]])
  }

  method FillCosts(w: Workspace, distance: Distances, slots: seq<nat>, count: nat)
    requires w.Valid() && |slots| + count <= w.cap
    requires forall i | 0 <= i < |slots| :: slots[i] < |distance| && |distance[slots[i]]| == count
    modifies w.cost
    ensures w.Holds(Padded(Rows(distance, slots), |slots|, count), |slots| + count)
  {
    var n := |slots| + count;
    ghost var c := Padded(Rows(distance, slots), |slots|, count);
    for row := 0 to n
      invariant forall r, k | 0 <= r < row && 0 <= k < n :: w.cost[r, k] == c[r][k]
    {
      for col := 0 to n
        invariant forall r, k | 0 <= r < row && 0 <= k < n :: w.cost[r, k] == c[r][k]
        invariant forall k | 0 <= k < col :: w.cost[row, k] == c[row][k]
      {
        if row < |slots| && col < count {
          w.cost[row, col] := distance[slots[row]][col];
        } else if row < |slots| || col < count {
          w.cost[row, col] := UNMATCHED_COST;
        } else {
          w.cost[row, col] := 0;
        }
      }
    }
  }

  /** The contact slots written from a column-to-row answer. */
  ghost predicate SlotsWritten(contactSlots: seq<int>, slots: seq<nat>, rows: seq<int>, count: nat) {
    && count <= |contactSlots| && |rows| == count
    && (forall j | 0 <= j < count :: -1 <= rows[j] < |slots|)
    && (forall j | 0 <= j < count :: contactSlots[j] == if rows[j] >= 0 then slots[rows[j]] else -1)
    && forall j | count <= j < |contactSlots| :: contactSlots[j] == -1
  }

  /** Last loop: keep the real pairs of the solved matrix. */
  method WriteSlots(w: Workspace, slots: seq<nat>, count: nat, wide: bool, contactSlots: array<int>,
                    ghost d: Distances) returns (ghost rows: seq<int>)
    requires w.Valid() && |slots| + count <= w.cap && count <= contactSlots.Length && contactSlots != w.p
    requires GatedDistances(d, |slots|, count, Gate(wide))
    requires w.Holds(Padded(d, |slots|, count), |slots| + count)
    requires forall j | 0 <= j < contactSlots.Length :: contactSlots[j] == -1
    requires var n := |slots| + count;
             MinimumAssignment(Padded(d, |slots|, count), n, Chosen(n, w.p[..]))
    modifies contactSlots
    ensures rows == RealPart(Chosen(|slots| + count, w.p[..]), |slots|, count)
    ensures SlotsWritten(contactSlots[..], slots, rows, count)
  {
    var n := |slots| + count;
    ghost var s := Chosen(n, w.p[..]);
    NoInvalidPair(d, |slots|, count, Gate(wide), s);
    rows := RealPart(s, |slots|, count);
    for j := 1 to n + 1
      invariant forall k | 0 <= k < contactSlots.Length ::
                  contactSlots[k] == if k < j - 1 && k < count && rows[k] >= 0 then slots[rows[k]] else -1
    {
      var row, col := w.p[j] - 1, j - 1;
      assert row == s[col] && 0 <= row < n;
      if row < |slots| && col < count {
        assert w.cost[row, col] == d[row][col];
        if w.cost[row, col] < INVALID_COST && (wide || w.cost[row, col] <= TRACK_MATCH_MAX) {
          contactSlots[col] := slots[row];
        }
      }
    }
  }

  /** distance[slot][j] is the cost of slot and contact j.  The result is a
      lexicographic optimum over the active slots. */
  method AssignTracks(w: Workspace, active: seq<bool>, distance: Distances, count: nat, wide: bool, contactSlots: array<int>)
    returns (matches: nat, ghost rows: seq<int>)
    requires w.Valid() && |active| + count <= w.cap <= WIDEST
    requires count <= contactSlots.Length && |active| <= MAX_CONTACTS
    requires GatedDistances(distance, |active|, count, Gate(wide))
    requires contactSlots != w.u && contactSlots != w.v && contactSlots != w.p
    requires contactSlots != w.way && contactSlots != w.minv
    modifies w.cost, w.u, w.v, w.p, w.way, w.minv, w.used, contactSlots
    ensures SlotsWritten(contactSlots[..], ActiveSlots(active, |active|), rows, count)
    ensures BestRows(Rows(distance, ActiveSlots(active, |active|)), |ActiveSlots(active, |active|)|, count, wide, rows)
    ensures matches == |PairsOf(rows, count)|
  {
    var slots := ActiveSlots(active, |active|);
    ghost var d := Rows(distance, slots);
    assert GatedDistances(d, |slots|, count, Gate(wide));
    for i := 0 to contactSlots.Length
      invariant forall j | 0 <= j < i :: contactSlots[j] == -1
    {
      contactSlots[i] := -1;
    }
    if |slots| == 0 || count == 0 {
      rows := seq(count, _ => -1);
      matches := 0;
      NothingToMatch(d, |slots|, count, wide, rows);
      return;
    }
    matches, rows := SolveRows(w, distance, slots, count, wide, contactSlots);
  }

  /** The body of AssignTracks once there is something to match. */
  method SolveRows(w: Workspace, distance: Distances, slots: seq<nat>, count: nat, wide: bool, contactSlots: array<int>)
    returns (matches: nat, ghost rows: seq<int>)
    requires w.Valid() && |slots| + count <= w.cap <= WIDEST
    requires count <= contactSlots.Length && |slots| <= MAX_CONTACTS
    requires forall i | 0 <= i < |slots| :: slots[i] < |distance|
    requires GatedDistances(Rows(distance, slots), |slots|, count, Gate(wide))
    requires contactSlots != w.u && contactSlots != w.v && contactSlots != w.p
    requires contactSlots != w.way && contactSlots != w.minv
    requires forall j | 0 <= j < contactSlots.Length :: contactSlots[j] == -1
    modifies w.cost, w.u, w.v, w.p, w.way, w.minv, w.used, contactSlots
    ensures SlotsWritten(contactSlots[..], slots, rows, count)
    ensures BestRows(Rows(distance, slots), |slots|, count, wide, rows)
    ensures matches == |PairsOf(rows, count)|
  {
    ghost var d := Rows(distance, slots);
    var n := |slots| + count;
    FillCosts(w, distance, slots, count);
    WorkspaceFits(n);
    w.Solve(n, Padded(d, |slots|, count), INVALID_COST);
    ghost var s := Chosen(n, w.p[..]);
    rows := WriteSlots(w, slots, count, wide, contactSlots, d);
    SolvedRows(d, |slots|, count, wide, s, rows);
    matches := CountMatches(contactSlots, slots, rows, count);
  }

  /** rows is a lexicographic optimum of the gated problem d. */
  ghost predicate BestRows(d: Distances, tracks: nat, count: nat, wide: bool, rows: seq<int>) {
    && Slots(tracks, count, rows)
    && LexOptimal(d, tracks, count, Gate(wide), PairsOf(rows, count))
  }

  lemma SolvedRows(d: Distances, tracks: nat, count: nat, wide: bool, s: seq<int>, rows: seq<int>)
    requires GatedDistances(d, tracks, count, Gate(wide)) && tracks <= MAX_CONTACTS
    requires MinimumAssignment(Padded(d, tracks, count), tracks + count, s)
    requires rows == RealPart(s, tracks, count)
    ensures BestRows(d, tracks, count, wide, rows)
    ensures Count(rows, count) == |PairsOf(rows, count)|
  {
    GateFits(wide, tracks, count);
    PaddedOptimumIsLexOptimal(d, tracks, count, Gate(wide), s);
    PairsOfSlots(d, rows, count);
  }

  lemma WorkspaceFits(n: nat)
    requires n <= WIDEST
    ensures (n + 3) * INVALID_COST <= INT_MAX
  {}

  method CountMatches(contactSlots: array<int>, slots: seq<nat>, ghost rows: seq<int>, count: nat) returns (matches: nat)
    requires SlotsWritten(contactSlots[..], slots, rows, count)
    ensures matches == Count(rows, count)
  {
    matches := 0;
    for i := 0 to count
      invariant matches == Count(rows, i)
    {
      if contactSlots[i] >= 0 {
        matches := matches + 1;
      }
    }
  }

  lemma NothingToMatch(d: Distances, tracks: nat, contacts: nat, wide: bool, rows: seq<int>)
    requires GatedDistances(d, tracks, contacts, Gate(wide)) && (tracks == 0 || contacts == 0)
    requires rows == seq(contacts, _ => -1)
    ensures BestRows(d, tracks, contacts, wide, rows) && |PairsOf(rows, contacts)| == 0
  {}

  lemma GateFits(wide: bool, tracks: nat, contacts: nat)
    requires tracks <= MAX_CONTACTS
    ensures Gate(wide) * Min(tracks, contacts) < 2 * UNMATCHED_COST
  {}
}
