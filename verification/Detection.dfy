/** g6ts_find_contacts: every component once, rejected or stored. */
module Detection {
  import opened Numbers
  import opened Sums
  import opened Grid
  import opened Candidates
  import opened Positions
  import opened ContactStore
  import opened FloodFill
  import HeatSpec

  const MIN_PIXELS: nat := 3
  const STRONG_MAX: int := 162
  const PALM_PIXELS: nat := 48
  const PALM_SPAN: int := 12
  const NSR_CUTOFF: int := 655

  type Noise = HeatSpec.Noise

  /** g6ts_nsr_row_to_bin. */
  const ROW_TO_BIN: seq<nat> :=
    [0, 1, 2, 3, 4, 5, 6, 7, 8, 9, 10, 11, 12, 13, 14, 15,
     0, 1, 2, 3, 4, 5, 6, 7, 8, 9, 10, 11, 12, 13, 14, 15,
     2, 3, 4, 5, 6, 7, 8, 9, 10, 11, 12, 13, 14, 15]

  predicate Weak(c: Candidate) {
    c.pixels < MIN_PIXELS && c.peak > STRONG_MAX
  }

  predicate Noisy(c: Candidate, noise: Noise)
    requires c.strength > 0 && c.weightedY >= 0
  {
    noise.Bins? &&
    var row := (c.weightedY + c.strength / 2) / c.strength;
    && 0 <= row < |ROW_TO_BIN|
    && ROW_TO_BIN[row] < |noise.values|
    && noise.values[ROW_TO_BIN[row]] > NSR_CUTOFF
  }

  predicate Palm(c: Candidate) {
    c.pixels > PALM_PIXELS || c.maxCol - c.minCol + 1 > PALM_SPAN || c.maxRow - c.minRow + 1 > PALM_SPAN
  }

  ghost predicate Accepted(c: Candidate, noise: Noise)
    requires c.strength > 0 && c.weightedY >= 0
  {
    !Weak(c) && !Noisy(c, noise) && !Palm(c)
  }

  /** The positions filled in once a candidate is accepted. */
  function Completed(c: Candidate, rows: nat, cols: nat): Contact
    requires c.strength > 0 && rows > 1 && cols > 1
  {
    Contact(c, LogicalCoordinate(c.weightedX, c.strength, cols - 1),
            LogicalCoordinate(c.weightedY, c.strength, rows - 1),
            SensorQ24(c.weightedX, c.strength), SensorQ24(c.weightedY, c.strength))
  }

  /** Cells of the components of the listed start cells. */
  ghost function Covered(mask: seq<bool>, cols: nat, starts: seq<nat>): set<nat>
    requires cols > 0
  {
    if starts == [] then {}
    else Covered(mask, cols, starts[..|starts| - 1]) + Class(mask, cols, starts[|starts| - 1])
  }

  /** Every start is an active cell outside the components listed before it. */
  ghost predicate Separate(mask: seq<bool>, cols: nat, starts: seq<nat>)
    requires cols > 0
  {
    starts == [] ||
    var rest, last := starts[..|starts| - 1], starts[|starts| - 1];
    && Separate(mask, cols, rest)
    && last < |mask| && mask[last] && last !in Covered(mask, cols, rest)
  }

  /** starts lists the components met before cell upto. */
  ghost predicate Listed(mask: seq<bool>, cols: nat, upto: nat, starts: seq<nat>) {
    && cols > 0 && upto <= |mask|
    && Separate(mask, cols, starts)
    && forall i: nat | i < upto && mask[i] :: i in Covered(mask, cols, starts)
  }

  lemma ListNext(mask: seq<bool>, cols: nat, start: nat, starts: seq<nat>)
    requires Listed(mask, cols, start, starts) && start < |mask| && mask[start] && start !in Covered(mask, cols, starts)
    ensures Covered(mask, cols, starts + [start]) == Covered(mask, cols, starts) + Class(mask, cols, start)
    ensures Listed(mask, cols, start + 1, starts + [start])
  {
    assert (starts + [start])[..|starts|] == starts;
    ReachSelf(mask, cols, start);
  }

  lemma {:induction false} CoveredIsClosed(mask: seq<bool>, cols: nat, starts: seq<nat>)
    requires cols > 0
    ensures Closed(mask, cols, Covered(mask, cols, starts))
  {
    if starts != [] {
      CoveredIsClosed(mask, cols, starts[..|starts| - 1]);
      ClassIsClosed(mask, cols, starts[|starts| - 1]);
    }
  }

  /** Every covered cell lies in the class of exactly one listed start. */
  lemma {:induction false} ListedOnce(mask: seq<bool>, cols: nat, starts: seq<nat>, x: nat) returns (i: nat)
    requires cols > 0 && Separate(mask, cols, starts) && x in Covered(mask, cols, starts)
    ensures i < |starts| && x in Class(mask, cols, starts[i])
    ensures forall k | 0 <= k < |starts| && x in Class(mask, cols, starts[k]) :: k == i
  {
    var rest, last := starts[..|starts| - 1], starts[|starts| - 1];
    if x in Covered(mask, cols, rest) {
      i := ListedOnce(mask, cols, rest, x);
      assert forall k | 0 <= k < |rest| :: rest[k] == starts[k];
      if x in Class(mask, cols, last) {
        ReachSymmetric(mask, cols, last, x);
        CoveredIsClosed(mask, cols, rest);
        var p :| Links(mask, cols, p, x, last);
        PathStaysIn(mask, cols, Covered(mask, cols, rest), p);
      }
    } else {
      i := |starts| - 1;
      forall k | 0 <= k < |rest|
        ensures x !in Class(mask, cols, starts[k])
      {
        NotCovered(mask, cols, rest, x, k);
      }
    }
  }

  lemma {:induction false} NotCovered(mask: seq<bool>, cols: nat, starts: seq<nat>, x: nat, k: nat)
    requires cols > 0 && k < |starts| && x !in Covered(mask, cols, starts)
    ensures x !in Class(mask, cols, starts[k])
  {
    if k < |starts| - 1 {
      NotCovered(mask, cols, starts[..|starts| - 1], x, k);
    }
  }

  /** The records of the listed components. */
  ghost predicate Recorded(grid: seq<int>, cols: nat, starts: seq<nat>, found: seq<Candidate>) {
    && cols > 0 && |starts| == |found| && AllPositive(found)
    && forall i | 0 <= i < |found| :: Describes(found[i], grid, cols, Class(ActiveMask(grid), cols, starts[i]))
  }

  ghost predicate AllPositive(found: seq<Candidate>) {
    forall i | 0 <= i < |found| :: found[i].strength > 0 && found[i].weightedY >= 0
  }

  /** Keys of the accepted candidates, with multiplicity. */
  ghost function AcceptedKeys(found: seq<Candidate>, noise: Noise): multiset<int>
    requires AllPositive(found)
  {
    if found == [] then multiset{}
    else
      var c := found[|found| - 1];
      AcceptedKeys(found[..|found| - 1], noise) + if Accepted(c, noise) then multiset{c.strength} else multiset{}
  }

  ghost predicate FromAccepted(found: seq<Candidate>, noise: Noise, rows: nat, cols: nat, k: Contact)
    requires rows > 1 && cols > 1
  {
    exists c | c in found :: c.strength > 0 && c.weightedY >= 0 && Accepted(c, noise) && k == Completed(c, rows, cols)
  }

  /** The list holds completed accepted candidates, the strongest ones. */
  ghost predicate KeepsStrongest(cap: nat, found: seq<Candidate>, noise: Noise, rows: nat, cols: nat, kept: seq<Contact>) {
    && rows > 1 && cols > 1 && AllPositive(found)
    && |kept| <= cap
    && Largest(cap, AcceptedKeys(found, noise), multiset(Keys(kept)))
    && forall k | k in kept :: FromAccepted(found, noise, rows, cols, k)
  }

  lemma FromNext(found: seq<Candidate>, c: Candidate, noise: Noise, rows: nat, cols: nat, before: seq<Contact>, after: seq<Contact>)
    requires rows > 1 && cols > 1 && c.strength > 0 && c.weightedY >= 0
    requires forall k | k in before :: FromAccepted(found, noise, rows, cols, k)
    requires forall k | k in after :: k in before || (Accepted(c, noise) && k == Completed(c, rows, cols))
    ensures forall k | k in after :: FromAccepted(found + [c], noise, rows, cols, k)
  {}

  lemma StoreNext(cap: nat, found: seq<Candidate>, c: Candidate, noise: Noise, rows: nat, cols: nat,
                  before: seq<Contact>, after: seq<Contact>)
    requires cap > 0 && KeepsStrongest(cap, found, noise, rows, cols, before) && c.strength > 0 && c.weightedY >= 0
    requires if Accepted(c, noise) then Stored(cap, before, Completed(c, rows, cols), after) else after == before
    ensures KeepsStrongest(cap, found + [c], noise, rows, cols, after)
  {
    assert (found + [c])[..|found|] == found;
    assert AcceptedKeys(found, noise) + multiset{} == AcceptedKeys(found, noise);
    assert AcceptedKeys(found + [c], noise)
        == AcceptedKeys(found, noise) + if Accepted(c, noise) then multiset{c.strength} else multiset{};
    if Accepted(c, noise) {
      StoredKeepsLargest(cap, AcceptedKeys(found, noise), before, Completed(c, rows, cols), after);
    }
    FromNext(found, c, noise, rows, cols, before, after);
  }

  lemma ComponentIsPositive(c: Candidate, grid: seq<int>, rows: nat, cols: nat, start: nat)
    requires Frame(grid, rows, cols) && start < |grid|
    requires Describes(c, grid, cols, Class(ActiveMask(grid), cols, start))
    ensures Component(c, grid, rows, cols, Class(ActiveMask(grid), cols, start))
    ensures c.strength > 0 && c.weightedY >= 0
  {
    var mask := ActiveMask(grid);
    forall x | x in Class(mask, cols, start)
      ensures grid[x] <= ACTIVE_MAX
    {
      var p :| Links(mask, cols, p, start, x);
      assert mask[p[|p| - 1]];
    }
    WeightsInBox(c, grid, rows, cols, Class(mask, cols, start));
    Scale(0, c.minRow, c.strength);
  }

  /** The rejection chain, then the store. */
  method Judge(store: Store, c: Candidate, noise: Noise, rows: nat, cols: nat, ghost found: seq<Candidate>)
    requires store.Valid() && rows > 1 && cols > 1 && c.strength > 0 && c.weightedY >= 0
    requires KeepsStrongest(store.contacts.Length, found, noise, rows, cols, store.Kept())
    modifies store`count, store.contacts
    ensures store.Valid()
    ensures KeepsStrongest(store.contacts.Length, found + [c], noise, rows, cols, store.Kept())
  {
    ghost var before := store.Kept();
    if !Weak(c) && !Noisy(c, noise) && !Palm(c) {
      store.Put(Completed(c, rows, cols));
    }
    StoreNext(store.contacts.Length, found, c, noise, rows, cols, before, store.Kept());
  }

  lemma RecordNext(grid: seq<int>, rows: nat, cols: nat, starts: seq<nat>, found: seq<Candidate>, start: nat, c: Candidate)
    requires Frame(grid, rows, cols) && start < |grid| && Recorded(grid, cols, starts, found)
    requires Describes(c, grid, cols, Class(ActiveMask(grid), cols, start))
    ensures c.strength > 0 && c.weightedY >= 0
    ensures Recorded(grid, cols, starts + [start], found + [c])
  {
    ComponentIsPositive(c, grid, rows, cols, start);
  }

  /** One pass of the outer loop. */
  method Visit(s: Scanner, store: Store, mask: seq<bool>, grid: seq<int>, noise: Noise, start: nat,
               ghost starts: seq<nat>, ghost found: seq<Candidate>)
    returns (ghost starts': seq<nat>, ghost found': seq<Candidate>)
    requires s.Valid() && store.Valid() && Frame(grid, s.rows, s.cols) && mask == ActiveMask(grid) && start < |grid|
    requires Listed(mask, s.cols, start, starts) && Recorded(grid, s.cols, starts, found)
    requires Settled(mask, s.cols, Covered(mask, s.cols, starts), s.seen[..])
    requires KeepsStrongest(store.contacts.Length, found, noise, s.rows, s.cols, store.Kept())
    modifies s.seen, s.queue, store`count, store.contacts
    ensures store.Valid() && Listed(mask, s.cols, start + 1, starts') && Recorded(grid, s.cols, starts', found')
    ensures Settled(mask, s.cols, Covered(mask, s.cols, starts'), s.seen[..])
    ensures KeepsStrongest(store.contacts.Length, found', noise, s.rows, s.cols, store.Kept())
  {
    if s.seen[start] || grid[start] > ACTIVE_MAX {
      return starts, found;
    }
    ghost var xs := Covered(mask, s.cols, starts);
    var tail, c := s.Fill(mask, grid, start, xs);
    ListNext(mask, s.cols, start, starts);
    RecordNext(grid, s.rows, s.cols, starts, found, start, c);
    starts', found' := starts + [start], found + [c];
    ghost var marks := s.seen[..];
    Judge(store, c, noise, s.rows, s.cols, found);
    assert s.seen[..] == marks;
  }

  // ----- what is kept, in terms of the components' cells

  /** Summed strength of the cells, and the sums weighted by column and row. */
  ghost function Weight(grid: seq<int>, xs: set<nat>): int {
    MemberTotal(Strengths(grid), xs, |grid|)
  }

  ghost function ColumnWeight(grid: seq<int>, cols: nat, xs: set<nat>): int
    requires cols > 0
  {
    MemberTotal(Products(Columns(|grid|, cols), Strengths(grid)), xs, |grid|)
  }

  ghost function RowWeight(grid: seq<int>, cols: nat, xs: set<nat>): int
    requires cols > 0
  {
    MemberTotal(Products(RowsOf(|grid|, cols), Strengths(grid)), xs, |grid|)
  }

  /** The four coordinates are the floors of the weighted mean column and row of
      the cells: with the last column and row at 32767, and in Q24. */
  ghost predicate AtMean(k: Contact, grid: seq<int>, rows: nat, cols: nat, xs: set<nat>)
    requires rows > 1 && cols > 1
  {
    && IsFloor(k.x, ColumnWeight(grid, cols, xs) * 32767, Weight(grid, xs) * (cols - 1))
    && IsFloor(k.y, RowWeight(grid, cols, xs) * 32767, Weight(grid, xs) * (rows - 1))
    && IsFloor(k.sensorX, ColumnWeight(grid, cols, xs) * TWO24, Weight(grid, xs))
    && IsFloor(k.sensorY, RowWeight(grid, cols, xs) * TWO24, Weight(grid, xs))
  }

  /** Some cell lies at or left of every sensor coordinate, some at or right of it. */
  ghost predicate InBox(k: Contact, cols: nat, xs: set<nat>)
    requires cols > 0
  {
    && (exists l, r | l in xs && r in xs :: Col(cols, l) * TWO24 <= k.sensorX <= Col(cols, r) * TWO24)
    && (exists t, b | t in xs && b in xs :: Row(cols, t) * TWO24 <= k.sensorY <= Row(cols, b) * TWO24)
  }

  /** Three cells or a strong one. */
  ghost predicate Noticeable(grid: seq<int>, xs: set<nat>)
    requires forall x | x in xs :: x < |grid|
  {
    |xs| >= MIN_PIXELS || exists x | x in xs :: grid[x] <= STRONG_MAX
  }

  /** At most 48 cells within 12 columns and 12 rows. */
  ghost predicate FingerSized(cols: nat, xs: set<nat>)
    requires cols > 0
  {
    && |xs| <= PALM_PIXELS
    && forall a, b | a in xs && b in xs :: Col(cols, b) - Col(cols, a) < PALM_SPAN && Row(cols, b) - Row(cols, a) < PALM_SPAN
  }

  /** The row nearest to the weighted mean, when it has a known noise bin, is quiet. */
  ghost predicate QuietRow(grid: seq<int>, cols: nat, xs: set<nat>, noise: Noise)
    requires cols > 0
  {
    noise.Bins? ==>
      forall row: nat | IsFloor(row, RowWeight(grid, cols, xs) + Weight(grid, xs) / 2, Weight(grid, xs)) && row < |ROW_TO_BIN| ::
        ROW_TO_BIN[row] < |noise.values| ==> noise.values[ROW_TO_BIN[row]] <= NSR_CUTOFF
  }

  ghost predicate Passing(grid: seq<int>, cols: nat, xs: set<nat>, noise: Noise)
    requires cols > 0 && forall x | x in xs :: x < |grid|
  {
    Noticeable(grid, xs) && FingerSized(cols, xs) && QuietRow(grid, cols, xs, noise)
  }

  lemma FloorIsOne(v: int, w: int, a: int, b: int)
    requires IsFloor(v, a, b) && IsFloor(w, a, b)
    ensures v == w
  {
    Cancel(v, w + 1, b);
    Cancel(w, v + 1, b);
  }

  lemma WeakByCells(c: Candidate, grid: seq<int>, cols: nat, xs: set<nat>)
    requires cols > 0 && Describes(c, grid, cols, xs)
    ensures Weak(c) <==> !Noticeable(grid, xs)
  {}

  lemma SpanByCells(lo: int, hi: int, f: seq<int>, xs: set<nat>, span: int)
    requires Least(lo, f, xs) && Greatest(hi, f, xs)
    ensures hi - lo < span <==> forall a, b | a in xs && b in xs :: f[b] - f[a] < span
  {
    var l :| l in xs && f[l] == lo;
    var h :| h in xs && f[h] == hi;
  }

  lemma PalmByCells(c: Candidate, grid: seq<int>, cols: nat, xs: set<nat>)
    requires cols > 0 && Describes(c, grid, cols, xs)
    ensures Palm(c) <==> !FingerSized(cols, xs)
  {
    var n := |grid|;
    SpanByCells(c.minCol, c.maxCol, Columns(n, cols), xs, PALM_SPAN);
    SpanByCells(c.minRow, c.maxRow, RowsOf(n, cols), xs, PALM_SPAN);
    assert forall a | a in xs :: Columns(n, cols)[a] == Col(cols, a) && RowsOf(n, cols)[a] == Row(cols, a);
  }

  lemma NoisyByCells(c: Candidate, grid: seq<int>, cols: nat, xs: set<nat>, noise: Noise)
    requires cols > 0 && Describes(c, grid, cols, xs) && c.strength > 0 && c.weightedY >= 0
    ensures Noisy(c, noise) <==> !QuietRow(grid, cols, xs, noise)
  {
    var a, b := RowWeight(grid, cols, xs) + Weight(grid, xs) / 2, Weight(grid, xs);
    FloorIs(a, b);
    DivLower(a, b, 0);
    forall row: nat | IsFloor(row, a, b)
      ensures row == a / b
    {
      FloorIsOne(row, a / b, a, b);
    }
  }

  /** The rejection chain, in terms of the cells. */
  lemma AcceptedByCells(c: Candidate, grid: seq<int>, cols: nat, xs: set<nat>, noise: Noise)
    requires cols > 0 && Describes(c, grid, cols, xs) && c.strength > 0 && c.weightedY >= 0
    ensures Accepted(c, noise) <==> Passing(grid, cols, xs, noise)
  {
    WeakByCells(c, grid, cols, xs);
    PalmByCells(c, grid, cols, xs);
    NoisyByCells(c, grid, cols, xs, noise);
  }

  lemma LogicalIsFloor(weighted: int, strength: int, last: int)
    requires strength > 0 && last > 0
    ensures IsFloor(LogicalCoordinate(weighted, strength, last), weighted * 32767, strength * last)
  {
    assert strength * last > 0;
    FloorIs(weighted * LOGICAL_MAX, strength * last);
  }

  lemma SensorIsFloor(weighted: int, strength: int)
    requires strength > 0
    ensures IsFloor(SensorQ24(weighted, strength), weighted * TWO24, strength)
  {
    FloorIs(weighted * TWO24, strength);
  }

  lemma CompletedAtMean(c: Candidate, grid: seq<int>, rows: nat, cols: nat, xs: set<nat>)
    requires rows > 1 && cols > 1 && Describes(c, grid, cols, xs) && c.strength > 0
    ensures AtMean(Completed(c, rows, cols), grid, rows, cols, xs)
  {
    LogicalIsFloor(c.weightedX, c.strength, cols - 1);
    LogicalIsFloor(c.weightedY, c.strength, rows - 1);
    SensorIsFloor(c.weightedX, c.strength);
    SensorIsFloor(c.weightedY, c.strength);
  }

  lemma CompletedInBox(c: Candidate, grid: seq<int>, rows: nat, cols: nat, xs: set<nat>)
    requires Component(c, grid, rows, cols, xs) && c.strength > 0
    ensures InBox(Completed(c, rows, cols), cols, xs)
  {
    CentroidInBox(c, grid, rows, cols, xs);
    var n := |grid|;
    var l :| l in xs && Columns(n, cols)[l] == c.minCol;
    var r :| r in xs && Columns(n, cols)[r] == c.maxCol;
    var t :| t in xs && RowsOf(n, cols)[t] == c.minRow;
    var b :| b in xs && RowsOf(n, cols)[b] == c.maxRow;
    assert Col(cols, l) == c.minCol && Col(cols, r) == c.maxCol && Row(cols, t) == c.minRow && Row(cols, b) == c.maxRow;
  }

  /** A kept contact is a listed component that passes, recorded as it is and placed at its mean. */
  ghost predicate IsKept(k: Contact, grid: seq<int>, rows: nat, cols: nat, noise: Noise, start: nat)
    requires rows > 1 && cols > 1
  {
    var xs := Class(ActiveMask(grid), cols, start);
    && Describes(k.shape, grid, cols, xs)
    && Passing(grid, cols, xs, noise)
    && AtMean(k, grid, rows, cols, xs) && InBox(k, cols, xs)
  }

  /** Strengths of the listed components that pass, with multiplicity. */
  ghost function PassingWeights(grid: seq<int>, cols: nat, starts: seq<nat>, noise: Noise): multiset<int>
    requires cols > 0
  {
    if starts == [] then multiset{}
    else
      var xs := Class(ActiveMask(grid), cols, starts[|starts| - 1]);
      PassingWeights(grid, cols, starts[..|starts| - 1], noise)
      + if (forall x | x in xs :: x < |grid|) && Passing(grid, cols, xs, noise) then multiset{Weight(grid, xs)} else multiset{}
  }

  lemma {:induction false} AcceptedWeights(grid: seq<int>, cols: nat, starts: seq<nat>, found: seq<Candidate>, noise: Noise)
    requires Recorded(grid, cols, starts, found)
    ensures AcceptedKeys(found, noise) == PassingWeights(grid, cols, starts, noise)
  {
    if found != [] {
      var last := |found| - 1;
      AcceptedWeights(grid, cols, starts[..last], found[..last], noise);
      AcceptedByCells(found[last], grid, cols, Class(ActiveMask(grid), cols, starts[last]), noise);
    }
  }

  /** The kept contacts are the strongest passing components, each as it is. */
  ghost predicate KeepsComponents(cap: nat, grid: seq<int>, rows: nat, cols: nat, noise: Noise, starts: seq<nat>, kept: seq<Contact>)
    requires rows > 1 && cols > 1
  {
    && |kept| <= cap
    && Largest(cap, PassingWeights(grid, cols, starts, noise), multiset(Keys(kept)))
    && forall k | k in kept :: exists i | 0 <= i < |starts| :: IsKept(k, grid, rows, cols, noise, starts[i])
  }

  lemma KeptAreComponents(cap: nat, grid: seq<int>, rows: nat, cols: nat, noise: Noise, starts: seq<nat>,
                          found: seq<Candidate>, kept: seq<Contact>)
    requires Frame(grid, rows, cols) && Recorded(grid, cols, starts, found) && (forall i | 0 <= i < |starts| :: starts[i] < |grid|)
    requires KeepsStrongest(cap, found, noise, rows, cols, kept)
    ensures KeepsComponents(cap, grid, rows, cols, noise, starts, kept)
  {
    AcceptedWeights(grid, cols, starts, found, noise);
    forall k | k in kept
      ensures exists i | 0 <= i < |starts| :: IsKept(k, grid, rows, cols, noise, starts[i])
    {
      var i := KeptFrom(grid, rows, cols, noise, starts, found, k);
    }
  }

  lemma KeptFrom(grid: seq<int>, rows: nat, cols: nat, noise: Noise, starts: seq<nat>, found: seq<Candidate>, k: Contact) returns (i: nat)
    requires Frame(grid, rows, cols) && Recorded(grid, cols, starts, found) && (forall i | 0 <= i < |starts| :: starts[i] < |grid|)
    requires FromAccepted(found, noise, rows, cols, k)
    ensures i < |starts| && IsKept(k, grid, rows, cols, noise, starts[i])
  {
    var c :| c in found && c.strength > 0 && c.weightedY >= 0 && Accepted(c, noise) && k == Completed(c, rows, cols);
    i :| 0 <= i < |found| && found[i] == c;
    var xs := Class(ActiveMask(grid), cols, starts[i]);
    ComponentIsPositive(c, grid, rows, cols, starts[i]);
    AcceptedByCells(c, grid, cols, xs, noise);
    CompletedAtMean(c, grid, rows, cols, xs);
    CompletedInBox(c, grid, rows, cols, xs);
  }

  lemma {:induction false} StartsAreCells(mask: seq<bool>, cols: nat, starts: seq<nat>)
    requires cols > 0 && Separate(mask, cols, starts)
    ensures forall i | 0 <= i < |starts| :: starts[i] < |mask|
  {
    if starts != [] {
      StartsAreCells(mask, cols, starts[..|starts| - 1]);
    }
  }

  /** g6ts_find_contacts. */
  method FindContacts(s: Scanner, store: Store, grid: seq<int>, noise: Noise)
    returns (count: nat, ghost starts: seq<nat>, ghost found: seq<Candidate>)
    requires s.Valid() && store.Valid() && Frame(grid, s.rows, s.cols)
    modifies s.seen, s.queue, store`count, store.contacts
    ensures store.Valid() && count == store.count
    ensures Listed(ActiveMask(grid), s.cols, |grid|, starts) && Recorded(grid, s.cols, starts, found)
    ensures KeepsStrongest(store.contacts.Length, found, noise, s.rows, s.cols, store.Kept())
    ensures KeepsComponents(store.contacts.Length, grid, s.rows, s.cols, noise, starts, store.Kept())
  {
    for i := 0 to s.seen.Length
      invariant forall k | 0 <= k < i :: !s.seen[k]
    {
      s.seen[i] := false;
    }
    store.count := 0;
    var mask := ActiveMask(grid);
    starts, found := [], [];
    assert Keys(store.Kept()) == [];
    for start := 0 to |grid|
      invariant store.Valid() && Listed(mask, s.cols, start, starts) && Recorded(grid, s.cols, starts, found)
      invariant Settled(mask, s.cols, Covered(mask, s.cols, starts), s.seen[..])
      invariant KeepsStrongest(store.contacts.Length, found, noise, s.rows, s.cols, store.Kept())
    {
      starts, found := Visit(s, store, mask, grid, noise, start, starts, found);
    }
    count := store.count;
    StartsAreCells(mask, s.cols, starts);
    KeptAreComponents(store.contacts.Length, grid, s.rows, s.cols, noise, starts, found, store.Kept());
  }
}
