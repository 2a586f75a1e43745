/** g6ts_secondary_features: three reruns of the flood fill inside one
    component, each below a cutoff derived from the component's peak. */
module Resegmentation {
  import opened Numbers
  import opened Grid
  import opened Candidates
  import opened FloodFill
  import opened Detection

  /** A whole number with twelve fraction bits. */
  ghost function ToQ12(n: int): int {
    n * 4096
  }

  /** g6ts_signal_q12: it falls by 9.09 for every step of the value, within half
      of the last bit. */
  function SignalQ12(value: int): (s: int)
    ensures -2048 <= 6710886 - 37251 * value - 4096 * s < 2048
  {
    (6710886 - value * 37251 + 2048) / 4096
  }

  function FractionQ12(pass: nat): int
    requires pass < 3
  {
    if pass == 0 then 2048 else if pass == 1 then 3072 else 3584
  }

  /** g6ts_secondary_cutoff, before the clamp to one byte: a half, three quarters
      or seven eighths of the way from 157.6 to nine above the peak, within
      rounding to a whole value twice. */
  function RawCutoff(peak: int, pass: nat): (r: int)
    requires pass < 3
    ensures pass == 0 ==> -4097 <= 8192 * r - (645663 + (4096 * peak + 36895)) <= 4097
    ensures pass == 1 ==> -8194 <= 16384 * r - (645663 + 3 * (4096 * peak + 36895)) <= 8194
    ensures pass == 2 ==> -16388 <= 32768 * r - (645663 + 7 * (4096 * peak + 36895)) <= 16388
  {
    var f := FractionQ12(pass);
    var cutoffQ24 := (4096 - f) * 645663 + f * (peak * 4096 + 36895);
    ((cutoffQ24 + 2048) / 4096 + 2048) / 4096
  }

  /** The cutoff of a pass, in one byte. */
  function Cutoff(peak: int, pass: nat): (r: int)
    requires pass < 3
    ensures r == RawCutoff(peak, pass) || r == 255 < RawCutoff(peak, pass)
  {
    Min(255, RawCutoff(peak, pass))
  }

  /** Cells of the component below a cutoff. */
  function PassMask(grid: seq<int>, component: seq<bool>, cutoff: int): (mask: seq<bool>)
    requires |component| == |grid|
    ensures |mask| == |grid| && forall i | 0 <= i < |grid| :: mask[i] == (component[i] && grid[i] <= cutoff)
  {
    seq(|grid|, i requires 0 <= i < |grid| => component[i] && grid[i] <= cutoff)
  }

  /** An island counts when it has three cells or a strong peak. */
  ghost predicate Counts(c: Candidate) {
    c.pixels > 2 || SignalQ12(c.peak) > 225
  }

  ghost function CountOf(found: seq<Candidate>): nat {
    if found == [] then 0 else CountOf(found[..|found| - 1]) + if Counts(found[|found| - 1]) then 1 else 0
  }

  ghost function LargestOf(found: seq<Candidate>): nat {
    if found == [] then 0
    else
      var rest, c := LargestOf(found[..|found| - 1]), found[|found| - 1];
      if Counts(c) && c.pixels > rest then c.pixels else rest
  }

  /** found describes the islands of a mask, once each. */
  ghost predicate Islands(grid: seq<int>, rows: nat, cols: nat, mask: seq<bool>, starts: seq<nat>, found: seq<Candidate>) {
    && Frame(grid, rows, cols) && |mask| == |grid|
    && Listed(mask, cols, |mask|, starts)
    && |starts| == |found|
    && forall i | 0 <= i < |found| :: Describes(found[i], grid, cols, Class(mask, cols, starts[i]))
  }

  /** The component mask of one candidate. */
  ghost predicate Masks(grid: seq<int>, rows: nat, cols: nat, component: seq<bool>, c: Candidate) {
    && Frame(grid, rows, cols) && |component| == |grid|
    && exists xs :: Describes(c, grid, cols, xs) && MaskOf(component, xs)
  }

  ghost predicate MaskOf(component: seq<bool>, xs: set<nat>) {
    forall i: nat | i < |component| :: component[i] <==> i in xs
  }

  /** The blobs that are rerun at all. */
  ghost predicate Rerun(c: Candidate) {
    (c.maxCol - c.minCol + 1) * (c.maxRow - c.minRow + 1) < 0x4e3 && SignalQ12(c.peak) > 287
  }

  // ----- cutoffs

  /** For every blob that is rerun the peak stays below all three cutoffs and
      the cutoffs never increase. */
  lemma CutoffsNest(peak: int)
    requires 0 <= peak <= 255 && SignalQ12(peak) > 287
    ensures peak <= Cutoff(peak, 2) <= Cutoff(peak, 1) <= Cutoff(peak, 0) <= 255
  {}

  // ----- islands of nested masks

  lemma {:induction false} LargestIsReached(found: seq<Candidate>)
    ensures forall i | 0 <= i < |found| && Counts(found[i]) :: found[i].pixels <= LargestOf(found)
    ensures LargestOf(found) == 0 || exists i | 0 <= i < |found| :: Counts(found[i]) && found[i].pixels == LargestOf(found)
    ensures (exists i | 0 <= i < |found| :: Counts(found[i])) ==> CountOf(found) > 0
  {
    if found != [] {
      var rest := found[..|found| - 1];
      LargestIsReached(rest);
      assert forall i | 0 <= i < |rest| :: rest[i] == found[i];
      assert forall i | 0 <= i < |found| :: i < |rest| || found[i] == found[|found| - 1];
      if LargestOf(found) != 0 && LargestOf(found) == LargestOf(rest) {
        var i :| 0 <= i < |rest| && Counts(rest[i]) && rest[i].pixels == LargestOf(rest);
        assert found[i] == rest[i];
      }
    }
  }

  lemma ReachInLarger(small: seq<bool>, large: seq<bool>, cols: nat, a: nat, b: nat)
    requires cols > 0 && |small| == |large| && forall i | 0 <= i < |small| && small[i] :: large[i]
    requires Reach(small, cols, a, b)
    ensures Reach(large, cols, a, b)
  {
    var p :| Links(small, cols, p, a, b);
    assert Links(large, cols, p, a, b);
  }

  /** The island of a marked cell. */
  lemma IslandAt(grid: seq<int>, rows: nat, cols: nat, mask: seq<bool>, starts: seq<nat>, found: seq<Candidate>, x: nat)
    returns (i: nat)
    requires Islands(grid, rows, cols, mask, starts, found) && x < |mask| && mask[x]
    ensures i < |found| && Describes(found[i], grid, cols, Class(mask, cols, x)) && x in Class(mask, cols, x)
  {
    i := ListedOnce(mask, cols, starts, x);
    SeparateStart(mask, cols, starts, i);
    ClassesPartition(mask, cols, starts[i], x);
  }

  lemma {:induction false} SeparateStart(mask: seq<bool>, cols: nat, starts: seq<nat>, i: nat)
    requires cols > 0 && Separate(mask, cols, starts) && i < |starts|
    ensures starts[i] < |mask| && mask[starts[i]]
  {
    if i < |starts| - 1 {
      SeparateStart(mask, cols, starts[..|starts| - 1], i);
    }
  }

  /** A smaller set of cells has fewer pixels and no lower peak value. */
  lemma SmallerRecord(c: Candidate, d: Candidate, grid: seq<int>, cols: nat, xs: set<nat>, ys: set<nat>)
    requires cols > 0 && xs <= ys && Describes(c, grid, cols, xs) && Describes(d, grid, cols, ys)
    ensures c.pixels <= d.pixels && d.peak <= c.peak
    ensures Counts(c) ==> Counts(d)
  {
    SubsetSize(xs, ys);
    var x :| x in xs && grid[x] == c.peak;
    assert x in ys;
  }

  /** Lowering the cutoff cannot make the largest counted island larger. */
  lemma LargestShrinks(grid: seq<int>, rows: nat, cols: nat, large: seq<bool>, small: seq<bool>,
                       starts: seq<nat>, found: seq<Candidate>, starts': seq<nat>, found': seq<Candidate>)
    requires Islands(grid, rows, cols, large, starts, found) && Islands(grid, rows, cols, small, starts', found')
    requires forall i | 0 <= i < |small| && small[i] :: large[i]
    ensures LargestOf(found') <= LargestOf(found)
  {
    LargestIsReached(found');
    LargestIsReached(found);
    if LargestOf(found') > 0 {
      var k :| 0 <= k < |found'| && Counts(found'[k]) && found'[k].pixels == LargestOf(found');
      var x := starts'[k];
      SeparateStart(small, cols, starts', k);
      var i := IslandAt(grid, rows, cols, large, starts, found, x);
      forall y | y in Class(small, cols, x)
        ensures y in Class(large, cols, x)
      {
        ReachInLarger(small, large, cols, x, y);
      }
      SmallerRecord(found'[k], found[i], grid, cols, Class(small, cols, x), Class(large, cols, x));
    }
  }

  lemma IslandsFit(grid: seq<int>, rows: nat, cols: nat, component: seq<bool>, c: Candidate, cutoff: int,
                   starts: seq<nat>, found: seq<Candidate>, xs: set<nat>)
    requires Frame(grid, rows, cols) && |component| == |grid|
    requires Describes(c, grid, cols, xs) && MaskOf(component, xs)
    requires Islands(grid, rows, cols, PassMask(grid, component, cutoff), starts, found)
    ensures LargestOf(found) <= c.pixels
  {
    var mask := PassMask(grid, component, cutoff);
    LargestIsReached(found);
    if LargestOf(found) > 0 {
      var k :| 0 <= k < |found| && Counts(found[k]) && found[k].pixels == LargestOf(found);
      InsideComponent(mask, component, cols, starts[k], xs);
      SmallerRecord(found[k], c, grid, cols, Class(mask, cols, starts[k]), xs);
    }
  }

  lemma PeakIslandCounts(grid: seq<int>, rows: nat, cols: nat, component: seq<bool>, c: Candidate, cutoff: int,
                         starts: seq<nat>, found: seq<Candidate>, xs: set<nat>)
    requires Frame(grid, rows, cols) && |component| == |grid|
    requires Describes(c, grid, cols, xs) && MaskOf(component, xs)
    requires Islands(grid, rows, cols, PassMask(grid, component, cutoff), starts, found)
    requires c.peak <= cutoff && SignalQ12(c.peak) > 225
    ensures CountOf(found) > 0
  {
    var x :| x in xs && grid[x] == c.peak;
    var i := IslandAt(grid, rows, cols, PassMask(grid, component, cutoff), starts, found, x);
    assert found[i].peak <= c.peak;
    LargestIsReached(found);
  }

  /** No island is larger than the component, and the one with the peak counts. */
  lemma IslandsOfComponent(grid: seq<int>, rows: nat, cols: nat, component: seq<bool>, c: Candidate, cutoff: int,
                           starts: seq<nat>, found: seq<Candidate>)
    requires Masks(grid, rows, cols, component, c)
    requires Islands(grid, rows, cols, PassMask(grid, component, cutoff), starts, found)
    ensures LargestOf(found) <= c.pixels
    ensures c.peak <= cutoff && SignalQ12(c.peak) > 225 ==> CountOf(found) > 0
  {
    var xs :| Describes(c, grid, cols, xs) && MaskOf(component, xs);
    IslandsFit(grid, rows, cols, component, c, cutoff, starts, found, xs);
    if c.peak <= cutoff && SignalQ12(c.peak) > 225 {
      PeakIslandCounts(grid, rows, cols, component, c, cutoff, starts, found, xs);
    }
  }

  lemma InsideComponent(mask: seq<bool>, component: seq<bool>, cols: nat, start: nat, xs: set<nat>)
    requires cols > 0 && |mask| == |component|
    requires (forall i | 0 <= i < |mask| && mask[i] :: component[i]) && MaskOf(component, xs)
    ensures Class(mask, cols, start) <= xs
  {}

  /** Feature slots 1..3 and 4..6. */
  datatype Features = Features(largest: seq<int>, accepted: seq<int>)

  /** The three passes are nested and none is empty, also for the blobs that
      are not rerun. */
  ghost predicate Nested(c: Candidate, f: Features) {
    && |f.largest| == 3 && |f.accepted| == 3
    && ToQ12(c.pixels) >= f.largest[0] >= f.largest[1] >= f.largest[2] >= 0
    && f.accepted[0] >= ONE_Q12 && f.accepted[1] >= ONE_Q12 && f.accepted[2] >= ONE_Q12
  }

  /** The pair of features of one pass: how many islands of the mask count and
      how many pixels the largest of them has. */
  ghost predicate Measured(grid: seq<int>, rows: nat, cols: nat, mask: seq<bool>, largest: int, accepted: int) {
    exists starts, found :: Islands(grid, rows, cols, mask, starts, found)
                            && largest == ToQ12(LargestOf(found)) && accepted == ToQ12(CountOf(found))
  }

  ghost predicate PassMeasured(grid: seq<int>, rows: nat, cols: nat, component: seq<bool>, peak: int, pass: nat,
                               largest: int, accepted: int)
    requires |component| == |grid| && pass < 3
  {
    Measured(grid, rows, cols, PassMask(grid, component, Cutoff(peak, pass)), largest, accepted)
  }

  /** State of a pass before start cell upto. */
  ghost predicate Passing(grid: seq<int>, mask: seq<bool>, cols: nat, upto: nat, starts: seq<nat>, found: seq<Candidate>, seen: seq<bool>) {
    && Listed(mask, cols, upto, starts) && |starts| == |found|
    && Settled(mask, cols, Covered(mask, cols, starts), seen)
    && forall i | 0 <= i < |found| :: Describes(found[i], grid, cols, Class(mask, cols, starts[i]))
  }

  lemma PassNext(grid: seq<int>, mask: seq<bool>, cols: nat, start: nat, starts: seq<nat>, found: seq<Candidate>,
                 before: seq<bool>, q: seq<nat>, c: Candidate, seen: seq<bool>)
    requires start < |mask| && mask[start] && Passing(grid, mask, cols, start, starts, found, before) && !before[start]
    requires Filled(mask, cols, Covered(mask, cols, starts), start, seen, q)
    requires Describes(c, grid, cols, Class(mask, cols, start))
    ensures Passing(grid, mask, cols, start + 1, starts + [start], found + [c], seen)
  {
    ListNext(mask, cols, start, starts);
  }

  lemma PassSkip(grid: seq<int>, mask: seq<bool>, cols: nat, start: nat, starts: seq<nat>, found: seq<Candidate>, seen: seq<bool>)
    requires start < |mask| && Passing(grid, mask, cols, start, starts, found, seen) && (seen[start] || !mask[start])
    ensures Passing(grid, mask, cols, start + 1, starts, found, seen)
  {}

  lemma CountNext(found: seq<Candidate>, c: Candidate)
    ensures CountOf(found + [c]) == CountOf(found) + if Counts(c) then 1 else 0
    ensures LargestOf(found + [c]) == if Counts(c) && c.pixels > LargestOf(found) then c.pixels else LargestOf(found)
  {
    assert (found + [c])[..|found|] == found;
  }

  /** One start cell of a pass. */
  method VisitIsland(s: Scanner, grid: seq<int>, mask: seq<bool>, start: nat, accepted: nat, largest: nat,
                     ghost starts: seq<nat>, ghost found: seq<Candidate>)
    returns (accepted': nat, largest': nat, ghost starts': seq<nat>, ghost found': seq<Candidate>)
    requires s.Valid() && Frame(grid, s.rows, s.cols) && |mask| == |grid| && start < |grid|
    requires Passing(grid, mask, s.cols, start, starts, found, s.seen[..])
    requires accepted == CountOf(found) && largest == LargestOf(found)
    modifies s.seen, s.queue
    ensures Passing(grid, mask, s.cols, start + 1, starts', found', s.seen[..])
    ensures accepted' == CountOf(found') && largest' == LargestOf(found')
  {
    ghost var before := s.seen[..];
    accepted', largest', starts', found' := accepted, largest, starts, found;
    if s.seen[start] || !mask[start] {
      PassSkip(grid, mask, s.cols, start, starts, found, before);
      return;
    }
    var tail, c := s.Fill(mask, grid, start, Covered(mask, s.cols, starts));
    PassNext(grid, mask, s.cols, start, starts, found, before, s.queue[..tail], c, s.seen[..]);
    CountNext(found, c);
    starts', found' := starts + [start], found + [c];
    if c.pixels <= 2 && SignalQ12(c.peak) <= 225 {
      return;
    }
    accepted' := accepted + 1;
    if c.pixels > largest {
      largest' := c.pixels;
    }
  }

  /** One pass: count the islands below the cutoff and measure the largest. */
  method Pass(s: Scanner, grid: seq<int>, mask: seq<bool>)
    returns (accepted: nat, largest: nat, ghost starts: seq<nat>, ghost found: seq<Candidate>)
    requires s.Valid() && Frame(grid, s.rows, s.cols) && |mask| == |grid|
    modifies s.seen, s.queue
    ensures Islands(grid, s.rows, s.cols, mask, starts, found)
    ensures accepted == CountOf(found) && largest == LargestOf(found)
    ensures Measured(grid, s.rows, s.cols, mask, ToQ12(largest), ToQ12(accepted))
  {
    for i := 0 to s.seen.Length
      invariant forall k | 0 <= k < i :: !s.seen[k]
    {
      s.seen[i] := false;
    }
    accepted, largest, starts, found := 0, 0, [], [];
    for start := 0 to |grid|
      invariant Passing(grid, mask, s.cols, start, starts, found, s.seen[..])
      invariant accepted == CountOf(found) && largest == LargestOf(found)
    {
      accepted, largest, starts, found := VisitIsland(s, grid, mask, start, accepted, largest, starts, found);
    }
  }

  /** The component mask is rebuilt from the queue. */
  method MarkComponent(s: Scanner, tail: nat, component: array<bool>)
    requires s.Valid() && tail <= s.queue.Length == component.Length
    requires forall k | 0 <= k < tail :: s.queue[k] < component.Length
    modifies component
    ensures MaskOf(component[..], Cells(s.queue[..tail]))
  {
    for i := 0 to component.Length
      invariant forall k | 0 <= k < i :: !component[k]
    {
      component[i] := false;
    }
    ghost var q := s.queue[..tail];
    var left := tail;
    while left > 0
      invariant left <= tail
      invariant forall i: nat | i < component.Length :: component[i] <==> i in q[left..]
    {
      left := left - 1;
      assert q[left..] == [q[left]] + q[left + 1..];
      component[s.queue[left]] := true;
    }
    assert q[0..] == q;
  }

  /** One pass and the two features it sets. */
  method MeasurePass(s: Scanner, grid: seq<int>, component: seq<bool>, peak: int, pass: nat)
    returns (accepted: int, largest: int)
    requires s.Valid() && Frame(grid, s.rows, s.cols) && |component| == |grid| && pass < 3
    modifies s.seen, s.queue
    ensures PassMeasured(grid, s.rows, s.cols, component, peak, pass, largest, accepted)
  {
    var count, most;
    ghost var starts, found;
    count, most, starts, found := Pass(s, grid, PassMask(grid, component, Cutoff(peak, pass)));
    accepted, largest := count * 4096, most * 4096;
  }

  /** The three passes over a blob that is rerun. */
  method RunPasses(s: Scanner, grid: seq<int>, component: seq<bool>, c: Candidate) returns (f: Features)
    requires s.Valid() && Frame(grid, s.rows, s.cols) && |component| == |grid| && Rerun(c)
    modifies s.seen, s.queue
    ensures FeaturesOf(grid, s.rows, s.cols, component, c, f)
  {
    var largest, accepted := [0, 0, 0], [0, 0, 0];
    for pass := 0 to 3
      invariant |largest| == 3 && |accepted| == 3
      invariant forall k | 0 <= k < pass ::
                  PassMeasured(grid, s.rows, s.cols, component, c.peak, k, largest[k], accepted[k])
    {
      var count, most := MeasurePass(s, grid, component, c.peak, pass);
      largest, accepted := largest[pass := most], accepted[pass := count];
    }
    f := Features(largest, accepted);
  }

  /** g6ts_secondary_features. */
  method SecondaryFeatures(s: Scanner, grid: seq<int>, component: seq<bool>, c: Candidate) returns (f: Features)
    requires s.Valid() && Frame(grid, s.rows, s.cols) && |component| == |grid|
    modifies s.seen, s.queue
    ensures FeaturesOf(grid, s.rows, s.cols, component, c, f)
  {
    if (c.maxCol - c.minCol + 1) * (c.maxRow - c.minRow + 1) >= 0x4e3 || SignalQ12(c.peak) <= 287 {
      f := Features(seq(3, _ => c.pixels * 4096), seq(3, _ => 4096));
    } else {
      f := RunPasses(s, grid, component, c);
    }
  }

  /** The features are the defaults, or measured in three passes. */
  ghost predicate FeaturesOf(grid: seq<int>, rows: nat, cols: nat, component: seq<bool>, c: Candidate, f: Features) {
    && |component| == |grid| && |f.largest| == 3 && |f.accepted| == 3
    && if Rerun(c) then forall k | 0 <= k < 3 :: PassMeasured(grid, rows, cols, component, c.peak, k, f.largest[k], f.accepted[k])
       else f == Features(seq(3, _ => ToQ12(c.pixels)), seq(3, _ => ONE_Q12))
  }

  lemma MeasuredShrinks(grid: seq<int>, rows: nat, cols: nat, large: seq<bool>, small: seq<bool>,
                        l: int, a: int, l': int, a': int)
    requires Measured(grid, rows, cols, large, l, a) && Measured(grid, rows, cols, small, l', a')
    requires |large| == |small| && forall i | 0 <= i < |small| && small[i] :: large[i]
    ensures l' <= l
  {
    var starts, found :| Islands(grid, rows, cols, large, starts, found)
                         && l == ToQ12(LargestOf(found)) && a == ToQ12(CountOf(found));
    var starts', found' :| Islands(grid, rows, cols, small, starts', found')
                           && l' == ToQ12(LargestOf(found')) && a' == ToQ12(CountOf(found'));
    LargestShrinks(grid, rows, cols, large, small, starts, found, starts', found');
  }

  lemma MeasuredFits(grid: seq<int>, rows: nat, cols: nat, component: seq<bool>, c: Candidate, cutoff: int, l: int, a: int)
    requires Masks(grid, rows, cols, component, c)
    requires Measured(grid, rows, cols, PassMask(grid, component, cutoff), l, a)
    requires c.peak <= cutoff && SignalQ12(c.peak) > 225
    ensures 0 <= l <= ToQ12(c.pixels) && a >= ONE_Q12
  {
    var mask := PassMask(grid, component, cutoff);
    var starts, found :| Islands(grid, rows, cols, mask, starts, found)
                         && l == ToQ12(LargestOf(found)) && a == ToQ12(CountOf(found));
    IslandsOfComponent(grid, rows, cols, component, c, cutoff, starts, found);
  }

  lemma PassMaskShrinks(grid: seq<int>, component: seq<bool>, low: int, high: int)
    requires |component| == |grid| && low <= high
    ensures var large, small := PassMask(grid, component, high), PassMask(grid, component, low);
            forall i | 0 <= i < |small| && small[i] :: large[i]
  {}

  /** A pass lies within the one before. */
  lemma PassShrinks(grid: seq<int>, rows: nat, cols: nat, component: seq<bool>, peak: int, k: nat,
                    l: int, a: int, l': int, a': int)
    requires |component| == |grid| && k < 2 && Cutoff(peak, k + 1) <= Cutoff(peak, k)
    requires Measured(grid, rows, cols, PassMask(grid, component, Cutoff(peak, k)), l, a)
    requires Measured(grid, rows, cols, PassMask(grid, component, Cutoff(peak, k + 1)), l', a')
    ensures l' <= l
  {
    PassMaskShrinks(grid, component, Cutoff(peak, k + 1), Cutoff(peak, k));
    MeasuredShrinks(grid, rows, cols, PassMask(grid, component, Cutoff(peak, k)),
                    PassMask(grid, component, Cutoff(peak, k + 1)), l, a, l', a');
  }

  /** The three passes are nested and every pass accepts an island, for every
      component, including those that keep the defaults. */
  lemma PassesNest(grid: seq<int>, rows: nat, cols: nat, component: seq<bool>, c: Candidate, f: Features)
    requires Masks(grid, rows, cols, component, c) && FeaturesOf(grid, rows, cols, component, c, f)
    ensures Nested(c, f)
  {
    if Rerun(c) {
      PeakIsByte(grid, rows, cols, component, c);
      CutoffsNest(c.peak);
      forall k | 0 <= k < 3
        ensures 0 <= f.largest[k] <= ToQ12(c.pixels) && f.accepted[k] >= ONE_Q12
      {
        assert PassMeasured(grid, rows, cols, component, c.peak, k, f.largest[k], f.accepted[k]);
        MeasuredFits(grid, rows, cols, component, c, Cutoff(c.peak, k), f.largest[k], f.accepted[k]);
      }
      forall k | 0 <= k < 2
        ensures f.largest[k] >= f.largest[k + 1]
      {
        assert PassMeasured(grid, rows, cols, component, c.peak, k, f.largest[k], f.accepted[k]);
        assert PassMeasured(grid, rows, cols, component, c.peak, k + 1, f.largest[k + 1], f.accepted[k + 1]);
        PassShrinks(grid, rows, cols, component, c.peak, k, f.largest[k], f.accepted[k], f.largest[k + 1], f.accepted[k + 1]);
      }
      assert f.largest[0] >= f.largest[0 + 1] >= f.largest[1 + 1];
    }
  }

  lemma PeakIsByte(grid: seq<int>, rows: nat, cols: nat, component: seq<bool>, c: Candidate)
    requires Masks(grid, rows, cols, component, c)
    ensures 0 <= c.peak <= 255
  {
    var xs :| Describes(c, grid, cols, xs) && MaskOf(component, xs);
    var x :| x in xs && grid[x] == c.peak;
  }
}
