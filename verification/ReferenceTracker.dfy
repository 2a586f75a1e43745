/** ContactTracker, the offline reference: a dictionary of tracks, the
    dynamic-programming matcher, and evidence from every matched sample. */
module ReferenceTracker {
  import opened Numbers
  import opened Matchings
  import opened TrackAssignment
  import opened AssignmentOracle
  import opened Lifecycle
  import opened Motions
  import opened Tracker

  datatype Sample = Sample(x: int, y: int, pixels: int, strength: int)

  datatype RefTrack = RefTrack(
    rawX: int, rawY: int, outputX: int, outputY: int, velocityX: int, velocityY: int,
    age: nat, missed: nat, evidence: nat, required: nat, confirmed: bool, active: bool, pixels: int, strength: int)

  datatype TrackedContact = TrackedContact(
    slot: nat, x: int, y: int, rawX: int, rawY: int, age: nat, missed: nat, held: bool)

  /** The constructor's arguments. */
  datatype Limits = Limits(contacts: nat, gate: int, hold: nat, confirm: nat, direct: bool)

  type Tracks = map<nat, RefTrack>

  // ----- one track

  /** _smooth. */
  function Smooth(previous: int, sample: int): int {
    var delta := if sample >= previous then sample - previous else previous - sample;
    if delta <= STATIONARY_MAX then (3 * previous + sample + 2) / 4
    else if delta <= SLOW_MAX then (previous + 3 * sample + 2) / 4
    else sample
  }

  /** The reference filter and the driver's agree on every pair of coordinates. */
  lemma SmoothAgrees(previous: nat, sample: nat)
    ensures Smooth(previous, sample) == FilterCoordinate(previous, sample)
  {}

  function Refreshed(t: RefTrack, s: Sample, direct: bool): RefTrack {
    var evidence := if t.confirmed then t.evidence else t.evidence + 1;
    t.(rawX := s.x, rawY := s.y, velocityX := s.x - t.rawX, velocityY := s.y - t.rawY,
       outputX := if direct then s.x else Smooth(t.outputX, s.x),
       outputY := if direct then s.y else Smooth(t.outputY, s.y),
       age := t.age + 1, evidence := evidence, confirmed := t.confirmed || evidence >= t.required,
       missed := 0, active := true, pixels := s.pixels, strength := s.strength)
  }

  /** A track that missed a frame but is kept; velocities are floored. */
  function Drifted(t: RefTrack): RefTrack {
    t.(missed := t.missed + 1, active := false, velocityX := t.velocityX / 2, velocityY := t.velocityY / 2)
  }

  function Opened(s: Sample, required: nat): RefTrack {
    RefTrack(s.x, s.y, s.x, s.y, 0, 0, 1, 0, 1, required, false, true, s.pixels, s.strength)
  }

  /** round(hypot(dx, dy)): the nearest integer to the root. */
  function RoundedRoot(n: nat): (r: nat)
    ensures Nearest(n, r)
  {
    var r := Root(n);
    NearestRoot(n, r);
    if n - r * r > r then r + 1 else r
  }

  /** r - 1/2 <= root of n < r + 1/2, without fractions. */
  ghost predicate Nearest(n: nat, r: nat) {
    (r > 0 ==> (2 * r - 1) * (2 * r - 1) <= 4 * n) && 4 * n < (2 * r + 1) * (2 * r + 1)
  }

  lemma NearestRoot(n: nat, r: nat)
    requires r * r <= n < (r + 1) * (r + 1)
    ensures Nearest(n, if n - r * r > r then r + 1 else r)
  {}

  function RefDistance(t: RefTrack, s: Sample): nat {
    RoundedRoot(Squared(Clamp(t.rawX + t.velocityX, LOGICAL_MAX) - s.x, Clamp(t.rawY + t.velocityY, LOGICAL_MAX) - s.y))
  }

  ghost predicate RefBeside(t: RefTrack, s: Sample) {
    t.confirmed && t.active && Squared(t.rawX - s.x, t.rawY - s.y) <= SPLIT_RADIUS * SPLIT_RADIUS
  }

  ghost predicate RefFragment(t: RefTrack, s: Sample) {
    RefBeside(t, s) && (s.strength * 2 <= t.strength || s.pixels * 2 <= t.pixels)
  }

  ghost predicate SomeBeside(ts: Tracks, n: nat, s: Sample) {
    exists i :: 0 <= i < n && i in ts && RefBeside(ts[i], s)
  }

  ghost predicate SomeFragment(ts: Tracks, n: nat, s: Sample) {
    exists i :: 0 <= i < n && i in ts && RefFragment(ts[i], s)
  }

  function Greater(a: nat, b: nat): (m: nat)
    ensures m >= a && m >= b && (m == a || m == b)
  {
    if a >= b then a else b
  }

  /** Evidence a new track needs, given the first n slots. */
  ghost function RefRequirement(ts: Tracks, n: nat, confirm: nat, s: Sample): nat {
    Greater(confirm, if SomeFragment(ts, n, s) then CONFIRM_SPLIT
                     else if s.pixels < MIN_PIXELS || SomeBeside(ts, n, s) then CONFIRM_WEAK
                     else 0)
  }

  // ----- a slot and its history

  /** Every sighting of this tracker counts as evidence. */
  ghost predicate AllAllowed(b: seq<Beat>) {
    forall i | 0 <= i < |b| :: !b[i].Idle? ==> b[i].allowed
  }

  ghost predicate RefTells(hold: nat, ts: Tracks, slot: nat, b: seq<Beat>) {
    && AllAllowed(b) && (slot in ts <==> Alive(b, hold))
    && (slot in ts ==>
          var t := ts[slot];
          && t.missed == Quiet(b) && t.age == Age(b) && t.required == Required(b) && (t.active <==> Quiet(b) == 0)
          && (t.confirmed <==> Evidence(b) >= Greater(2, Required(b)))
          && (!t.confirmed ==> t.evidence == Evidence(b)))
  }

  lemma {:induction false} AliveHasEvidence(b: seq<Beat>, hold: nat)
    requires AllAllowed(b) && Alive(b, hold)
    ensures Evidence(b) >= 1
  {
    if !b[|b| - 1].Born? {
      AliveHasEvidence(b[..|b| - 1], hold);
    }
  }

  lemma RefSeen(hold: nat, ts: Tracks, slot: nat, b: seq<Beat>, s: Sample, direct: bool)
    requires slot in ts && RefTells(hold, ts, slot, b)
    ensures RefTells(hold, ts[slot := Refreshed(ts[slot], s, direct)], slot, b + [Seen(true)])
  {
    SummarySnoc(b, Seen(true));
    AliveHasEvidence(b, hold);
  }

  lemma RefIdle(hold: nat, ts: Tracks, slot: nat, b: seq<Beat>)
    requires RefTells(hold, ts, slot, b)
    ensures slot in ts && ts[slot].missed < hold ==> RefTells(hold, ts[slot := Drifted(ts[slot])], slot, b + [Idle])
    ensures slot !in ts || ts[slot].missed >= hold ==> RefTells(hold, ts - {slot}, slot, b + [Idle])
  {}

  lemma RefBorn(hold: nat, ts: Tracks, slot: nat, b: seq<Beat>, s: Sample, required: nat)
    requires AllAllowed(b)
    ensures RefTells(hold, ts[slot := Opened(s, required)], slot, b + [Born(true, required)])
  {}

  /** A slot is reported exactly when it has earned it and was matched, not
      created, in this frame. */
  lemma ReportedIsEarned(hold: nat, ts: Tracks, slot: nat, b: seq<Beat>)
    requires RefTells(hold, ts, slot, b)
    ensures slot in ts && ts[slot].active && ts[slot].confirmed <==> Earned(b, hold) && b[|b| - 1].Seen?
  {
    EarnedBySummary(b, hold);
    if slot in ts && b[|b| - 1].Seen? {
      SummaryOfSeen(b, hold);
    }
  }

  lemma SummaryOfSeen(b: seq<Beat>, hold: nat)
    requires AllAllowed(b) && Alive(b, hold) && b[|b| - 1].Seen?
    ensures Evidence(b) >= 2 && Quiet(b) == 0
  {
    AliveHasEvidence(b[..|b| - 1], hold);
  }

  /** In the frame that creates it a track has earned its report exactly when
      one sighting is enough; the tracker then reports it a frame later. */
  lemma EarnedAtBirth(b: seq<Beat>, hold: nat)
    requires b != [] && AllAllowed(b) && b[|b| - 1].Born?
    ensures Earned(b, hold) <==> Required(b) <= 1
  {
    EarnedBySummary(b, hold);
  }

  // ----- one frame

  /** matched gives sample x.1 the slot of track x.0 for every pair x, and no other. */
  ghost predicate MatchedBy(slots: seq<nat>, pairs: seq<(nat, nat)>, matched: seq<int>) {
    && Distinct(matched)
    && (forall k | 0 <= k < |pairs| :: pairs[k].0 < |slots| && pairs[k].1 < |matched| && matched[pairs[k].1] == slots[pairs[k].0])
    && forall j | 0 <= j < |matched| && matched[j] >= 0 :: PairOf(pairs, j)
  }

  ghost predicate PairOf(pairs: seq<(nat, nat)>, j: nat) {
    exists k :: 0 <= k < |pairs| && pairs[k].1 == j
  }

  /** A track after the matched updates. */
  ghost function RefreshedAt(t: RefTrack, samples: seq<Sample>, matched: seq<int>, direct: bool, slot: nat): RefTrack
    requires |matched| == |samples|
  {
    var j := ContactAt(matched, slot);
    if j >= 0 then Refreshed(t, samples[j], direct) else t
  }

  /** The tracks after those matched are refreshed. */
  ghost predicate AfterMatches(before: Tracks, samples: seq<Sample>, matched: seq<int>, direct: bool, after: Tracks)
    requires |matched| == |samples|
  {
    && (forall i :: i in after <==> i in before)
    && forall i | i in before :: after[i] == RefreshedAt(before[i], samples, matched, direct, i)
  }

  /** Tracks in slots below the limit, with what each slot has seen. */
  ghost predicate AllRefTell(lim: Limits, ts: Tracks, beats: seq<seq<Beat>>) {
    && |beats| == lim.contacts && (forall i | i in ts :: i < lim.contacts)
    && forall i: nat | i < lim.contacts :: RefTells(lim.hold, ts, i, beats[i])
  }

  lemma SetContactAt(matched: seq<int>, j: nat, slot: nat)
    requires Distinct(matched) && j < |matched| && matched[j] < 0
    requires ContactAt(matched, slot) < 0
    ensures Distinct(matched[j := slot])
    ensures forall i: nat :: ContactAt(matched[j := slot], i) == if i == slot then j else ContactAt(matched, i)
  {
    var next := matched[j := slot];
    NotHeld(matched, slot);
    forall i: nat
      ensures ContactAt(next, i) == if i == slot then j else ContactAt(matched, i)
    {
      NotHeld(matched, i);
      NotHeld(next, i);
      var a, b := ContactAt(next, i), ContactAt(matched, i);
      assert i == slot ==> next[j] == i;
      assert b >= 0 ==> next[b] == i;
      assert a >= 0 ==> next[a] == i;
    }
  }

  lemma PairIsNew(slots: seq<nat>, samples: nat, pairs: seq<(nat, nat)>, k: nat, matched: seq<int>)
    requires Matching(|slots|, samples, AsSet(pairs)) && Ascending(pairs) && k < |pairs| && |matched| == samples
    requires forall i, j | 0 <= i < j < |slots| :: slots[i] < slots[j]
    requires MatchedBy(slots, pairs[..k], matched)
    ensures pairs[k].0 < |slots| && pairs[k].1 < samples && matched[pairs[k].1] < 0
    ensures ContactAt(matched, slots[pairs[k].0]) < 0
  {}

  datatype MaybeTrack = Gone | Kept(track: RefTrack)

  ghost function Look(ts: Tracks, slot: nat): MaybeTrack {
    if slot in ts then Kept(ts[slot]) else Gone
  }

  /** A slot after the matches and the missed frames. */
  ghost function Carry(lim: Limits, m: MaybeTrack, samples: seq<Sample>, matched: seq<int>, slot: nat): MaybeTrack
    requires |matched| == |samples|
  {
    if m.Gone? then Gone
    else
      var j := ContactAt(matched, slot);
      if j >= 0 then Kept(Refreshed(m.track, samples[j], lim.direct))
      else if m.track.missed < lim.hold then Kept(Drifted(m.track))
      else Gone
  }

  ghost predicate Carriage(lim: Limits, before: Tracks, samples: seq<Sample>, matched: seq<int>, held: Tracks)
    requires |matched| == |samples|
  {
    && (forall i | i in held :: i < lim.contacts)
    && forall i: nat | i < lim.contacts :: Look(held, i) == Carry(lim, Look(before, i), samples, matched, i)
  }

  /** A slot at the end of the frame. */
  ghost function Settle(lim: Limits, held: Tracks, samples: seq<Sample>, placed: seq<int>, slot: nat): MaybeTrack
    requires |placed| <= |samples|
  {
    var j := ContactAt(placed, slot);
    if j >= 0 then Kept(Opened(samples[j], RefRequirement(held, lim.contacts, lim.confirm, samples[j]))) else Look(held, slot)
  }

  ghost predicate Settlement(lim: Limits, held: Tracks, samples: seq<Sample>, placed: seq<int>, ts: Tracks)
    requires |placed| <= |samples|
  {
    && (forall i | i in ts :: i < lim.contacts)
    && forall i: nat | i < lim.contacts :: Look(ts, i) == Settle(lim, held, samples, placed, i)
  }

  /** The slots below n that are not taken, lowest first. */
  ghost function FreeList(taken: set<nat>, n: nat): (f: seq<nat>)
    ensures forall k | 0 <= k < |f| :: f[k] < n && f[k] !in taken
  {
    if n == 0 then [] else FreeList(taken, n - 1) + FreeTail(taken, n - 1)
  }

  ghost function FreeTail(taken: set<nat>, i: nat): seq<nat> {
    if i in taken then [] else [i]
  }

  /** Taking the lowest free slot leaves the rest of the list. */
  lemma {:induction false} FreeListTaken(taken: set<nat>, n: nat)
    requires FreeList(taken, n) != []
    ensures FreeList(taken + {FreeList(taken, n)[0]}, n) == FreeList(taken, n)[1..]
  {
    var fewer, last := FreeList(taken, n - 1), FreeTail(taken, n - 1);
    if fewer == [] {
      FullListStays(taken, {n - 1}, n - 1);
    } else {
      var f := fewer[0];
      TailOfAppend(fewer, last);
      assert FreeTail(taken + {f}, n - 1) == last;
      FreeListTaken(taken, n - 1);
    }
  }

  lemma TailOfAppend(a: seq<nat>, b: seq<nat>)
    requires a != []
    ensures (a + b)[1..] == a[1..] + b && (a + b)[0] == a[0]
  {}

  lemma {:induction false} FullListStays(taken: set<nat>, more: set<nat>, n: nat)
    requires FreeList(taken, n) == []
    ensures FreeList(taken + more, n) == []
  {
    if n > 0 {
      FullListStays(taken, more, n - 1);
    }
  }

  /** Every unmatched sample takes the lowest free slot and is dropped only when none is free. */
  ghost predicate RefPlaced(lim: Limits, held: Tracks, matched: seq<int>, placed: seq<int>)
    requires |placed| <= |matched|
  {
    forall j | 0 <= j < |placed| :: placed[j] == LowestFree(lim, held, matched[j], placed[..j])
  }

  ghost function LowestFree(lim: Limits, held: Tracks, slot: int, earlier: seq<int>): int {
    var free := FreeList(held.Keys + SlotsIn(earlier), lim.contacts);
    if slot >= 0 || free == [] then -1 else free[0]
  }

  lemma RefPlaceNext(lim: Limits, held: Tracks, matched: seq<int>, placed: seq<int>)
    requires |placed| < |matched| && RefPlaced(lim, held, matched, placed)
    ensures RefPlaced(lim, held, matched, placed + [LowestFree(lim, held, matched[|placed|], placed)])
  {
    var more := placed + [LowestFree(lim, held, matched[|placed|], placed)];
    forall j | 0 <= j < |more|
      ensures more[j] == LowestFree(lim, held, matched[j], more[..j])
    {
      assert more[..j] == placed[..j];
      assert placed[..|placed|] == placed;
    }
  }

  lemma RefSettleNext(lim: Limits, held: Tracks, samples: seq<Sample>, placed: seq<int>, ts: Tracks, slot: int)
    requires |placed| < |samples| && -1 <= slot < lim.contacts && Settlement(lim, held, samples, placed, ts)
    ensures Settlement(lim, held, samples, placed + [slot],
                       if slot < 0 then ts
                       else ts[slot := Opened(samples[|placed|], RefRequirement(held, lim.contacts, lim.confirm, samples[|placed|]))])
  {
    ContactAtNext(placed, slot);
    var s := samples[|placed|];
    var ts' := if slot < 0 then ts else ts[slot := Opened(s, RefRequirement(held, lim.contacts, lim.confirm, s))];
    forall i: nat | i < lim.contacts
      ensures Look(ts', i) == Settle(lim, held, samples, placed + [slot], i)
    {
      assert Look(ts, i) == Settle(lim, held, samples, placed, i);
    }
  }

  lemma {:induction false} RefPlacedAreFree(lim: Limits, held: Tracks, matched: seq<int>, placed: seq<int>, slot: nat)
    requires |placed| <= |matched| && RefPlaced(lim, held, matched, placed) && ContactAt(placed, slot) >= 0
    ensures slot !in held
  {
    var j := ContactAt(placed, slot);
    var taken := held.Keys + SlotsIn(placed[..j]);
    assert placed[j] == LowestFree(lim, held, matched[j], placed[..j]);
  }

  /** Tracks opened in this frame are unconfirmed, so they change no requirement. */
  lemma SettledRefRequirement(lim: Limits, held: Tracks, samples: seq<Sample>, matched: seq<int>, placed: seq<int>, ts: Tracks, s: Sample)
    requires |placed| <= |samples| == |matched| && RefPlaced(lim, held, matched, placed)
    requires Settlement(lim, held, samples, placed, ts)
    ensures RefRequirement(ts, lim.contacts, lim.confirm, s) == RefRequirement(held, lim.contacts, lim.confirm, s)
  {
    forall i: nat | i < lim.contacts
      ensures (i in ts && RefBeside(ts[i], s)) == (i in held && RefBeside(held[i], s))
      ensures (i in ts && RefFragment(ts[i], s)) == (i in held && RefFragment(held[i], s))
    {
      assert Look(ts, i) == Settle(lim, held, samples, placed, i);
      if ContactAt(placed, i) >= 0 {
        RefPlacedAreFree(lim, held, matched, placed, i);
      }
    }
  }

  /** What the frame shows a slot. */
  ghost function RefBeatOf(lim: Limits, held: Tracks, samples: seq<Sample>, matched: seq<int>, placed: seq<int>, slot: nat): Beat
    requires |matched| == |samples| == |placed|
  {
    var k := ContactAt(placed, slot);
    if k >= 0 then Born(true, RefRequirement(held, lim.contacts, lim.confirm, samples[k]))
    else if ContactAt(matched, slot) >= 0 then Seen(true)
    else Idle
  }

  /** One slot through one frame. */
  lemma RefSlotKeepsTelling(lim: Limits, before: Tracks, samples: seq<Sample>, matched: seq<int>, placed: seq<int>,
                            held: Tracks, after: Tracks, b: seq<Beat>, slot: nat)
    requires |matched| == |samples| == |placed| && slot < lim.contacts && RefTells(lim.hold, before, slot, b)
    requires ContactAt(matched, slot) >= 0 ==> slot in before
    requires Carriage(lim, before, samples, matched, held) && RefPlaced(lim, held, matched, placed)
    requires Settlement(lim, held, samples, placed, after)
    ensures RefTells(lim.hold, after, slot, b + [RefBeatOf(lim, held, samples, matched, placed, slot)])
  {
    var j, k := ContactAt(matched, slot), ContactAt(placed, slot);
    assert Look(held, slot) == Carry(lim, Look(before, slot), samples, matched, slot);
    assert Look(after, slot) == Settle(lim, held, samples, placed, slot);
    if k >= 0 {
      RefPlacedAreFree(lim, held, matched, placed, slot);
      RefBorn(lim.hold, before, slot, b, samples[k], RefRequirement(held, lim.contacts, lim.confirm, samples[k]));
    } else if j >= 0 {
      RefSeen(lim.hold, before, slot, b, samples[j], lim.direct);
    } else {
      RefIdle(lim.hold, before, slot, b);
    }
  }

  lemma RefFrameKeepsTelling(lim: Limits, before: Tracks, samples: seq<Sample>, matched: seq<int>, placed: seq<int>,
                             held: Tracks, after: Tracks, beats: seq<seq<Beat>>)
    requires |matched| == |samples| == |placed| && AllRefTell(lim, before, beats)
    requires forall j | 0 <= j < |matched| && matched[j] >= 0 :: matched[j] in before
    requires Carriage(lim, before, samples, matched, held) && RefPlaced(lim, held, matched, placed)
    requires Settlement(lim, held, samples, placed, after)
    ensures AllRefTell(lim, after, NextRefBeats(lim, beats, held, samples, matched, placed))
  {
    forall i: nat | i < lim.contacts
      ensures RefTells(lim.hold, after, i, NextRefBeats(lim, beats, held, samples, matched, placed)[i])
    {
      RefSlotKeepsTelling(lim, before, samples, matched, placed, held, after, beats[i], i);
    }
  }

  ghost function NextRefBeats(lim: Limits, beats: seq<seq<Beat>>, held: Tracks, samples: seq<Sample>,
                              matched: seq<int>, placed: seq<int>): (r: seq<seq<Beat>>)
    requires |matched| == |samples| == |placed|
    ensures |r| == |beats|
    ensures forall i | 0 <= i < |beats| :: r[i] == beats[i] + [RefBeatOf(lim, held, samples, matched, placed, i)]
  {
    seq(|beats|, i requires 0 <= i < |beats| => beats[i] + [RefBeatOf(lim, held, samples, matched, placed, i)])
  }

  // ----- matching

  function Occupied(ts: Tracks, n: nat): (a: seq<bool>)
    ensures |a| == n && forall i: nat | i < n :: a[i] == (i in ts)
  {
    seq(n, i => i in ts)
  }

  function RefRow(t: RefTrack, samples: seq<Sample>): (r: seq<int>)
    ensures |r| == |samples|
  {
    seq(|samples|, j requires 0 <= j < |samples| => RefDistance(t, samples[j]))
  }

  function RefDistances(ts: Tracks, slots: seq<nat>, samples: seq<Sample>): (d: Distances)
    requires forall i | 0 <= i < |slots| :: slots[i] in ts
    ensures Shape(d, |slots|, |samples|)
  {
    seq(|slots|, i requires 0 <= i < |slots| => RefRow(ts[slots[i]], samples))
  }

  /** matched is a lexicographic optimum between the tracks and the samples. */
  ghost predicate RefBestMatch(lim: Limits, ts: Tracks, samples: seq<Sample>, matched: seq<int>) {
    exists pairs ::
      var slots := ActiveSlots(Occupied(ts, lim.contacts), lim.contacts);
      && LexOptimal(RefDistances(ts, slots, samples), |slots|, |samples|, lim.gate, AsSet(pairs))
      && MatchedBy(slots, pairs, matched)
  }

  /** The result list, by slot. */
  ghost function RefCollected(ts: Tracks, n: nat): seq<TrackedContact> {
    if n == 0 then []
    else
      RefCollected(ts, n - 1)
      + if RefShown(ts, n - 1) then [ReportOfTrack(n - 1, ts[n - 1])] else []
  }

  function ReportOfTrack(slot: nat, t: RefTrack): TrackedContact {
    TrackedContact(slot, t.outputX, t.outputY, t.rawX, t.rawY, t.age, t.missed, !t.active)
  }

  /** The list holds exactly the slots that earned it and were matched in this
      frame, each once and with its track's output. */
  ghost predicate RefReports(lim: Limits, reports: seq<TrackedContact>, ts: Tracks, beats: seq<seq<Beat>>) {
    && (forall r | r in reports ::
          r.slot < |beats| && EarnedAndSeen(beats[r.slot], lim.hold) && r.slot in ts && r == ReportOfTrack(r.slot, ts[r.slot]))
    && (forall k, l | 0 <= k < l < |reports| :: reports[k].slot < reports[l].slot)
    && forall i: nat | i < |beats| && EarnedAndSeen(beats[i], lim.hold) :: i in ts && ReportOfTrack(i, ts[i]) in reports
  }

  ghost predicate EarnedAndSeen(b: seq<Beat>, hold: nat) {
    Earned(b, hold) && b[|b| - 1].Seen?
  }

  ghost predicate RefShown(ts: Tracks, i: nat) {
    i in ts && ts[i].active && ts[i].confirmed
  }

  lemma {:induction false} RefCollectedMembers(ts: Tracks, n: nat)
    ensures var c := RefCollected(ts, n);
            && (forall r | r in c :: r.slot < n && RefShown(ts, r.slot) && r == ReportOfTrack(r.slot, ts[r.slot]))
            && (forall k, l | 0 <= k < l < |c| :: c[k].slot < c[l].slot)
            && forall i: nat | i < n && RefShown(ts, i) :: ReportOfTrack(i, ts[i]) in c
  {
    if n > 0 {
      RefCollectedMembers(ts, n - 1);
      var fewer := RefCollected(ts, n - 1);
      if RefShown(ts, n - 1) {
        assert RefCollected(ts, n) == fewer + [ReportOfTrack(n - 1, ts[n - 1])];
      } else {
        assert RefCollected(ts, n) == fewer;
      }
    }
  }

  lemma RefCollectedAreEarned(lim: Limits, ts: Tracks, beats: seq<seq<Beat>>)
    requires AllRefTell(lim, ts, beats)
    ensures RefReports(lim, RefCollected(ts, lim.contacts), ts, beats)
  {
    RefCollectedMembers(ts, lim.contacts);
    forall i: nat | i < lim.contacts
      ensures RefShown(ts, i) <==> EarnedAndSeen(beats[i], lim.hold)
    {
      ReportedIsEarned(lim.hold, ts, i, beats[i]);
    }
  }

  // ----- motion and output, in terms of samples

  /** The sample before the last one, the last one, and the frames missed since. */
  datatype RefMotion = RefMotion(before: Sample, last: Sample, misses: nat)

  const NO_SAMPLE: Sample := Sample(0, 0, 0, 0)

  /** The record holds the last sample and the step from the one before, floored
      once more for every frame missed. */
  ghost predicate RefMovesAs(t: RefTrack, m: RefMotion) {
    && t.missed == m.misses && t.rawX == m.last.x && t.rawY == m.last.y
    && t.velocityX == (m.last.x - m.before.x) / Power(m.misses) && t.velocityY == (m.last.y - m.before.y) / Power(m.misses)
    && t.pixels == m.last.pixels && t.strength == m.last.strength
  }

  ghost predicate AllRefMove(ts: Tracks, ms: seq<RefMotion>) {
    forall i | i in ts :: i < |ms| && RefMovesAs(ts[i], ms[i])
  }

  lemma DriftedMoves(t: RefTrack, m: RefMotion)
    requires RefMovesAs(t, m)
    ensures RefMovesAs(Drifted(t), m.(misses := m.misses + 1))
  {
    HalfOfQuotient(m.last.x - m.before.x, Power(m.misses));
    HalfOfQuotient(m.last.y - m.before.y, Power(m.misses));
  }

  ghost function RefNextMotion(m: RefMotion, samples: seq<Sample>, matched: seq<int>, placed: seq<int>, slot: nat): RefMotion
    requires |matched| == |samples| == |placed|
  {
    var j, k := ContactAt(matched, slot), ContactAt(placed, slot);
    if k >= 0 then RefMotion(samples[k], samples[k], 0)
    else if j >= 0 then RefMotion(m.last, samples[j], 0)
    else m.(misses := m.misses + 1)
  }

  ghost function RefNextMotions(ms: seq<RefMotion>, samples: seq<Sample>, matched: seq<int>, placed: seq<int>): (r: seq<RefMotion>)
    requires |matched| == |samples| == |placed|
    ensures |r| == |ms|
  {
    seq(|ms|, i requires 0 <= i < |ms| => RefNextMotion(ms[i], samples, matched, placed, i))
  }

  lemma RefSlotMoves(lim: Limits, before: Tracks, samples: seq<Sample>, matched: seq<int>, placed: seq<int>,
                     held: Tracks, after: Tracks, m: RefMotion, slot: nat)
    requires |matched| == |samples| == |placed| && slot < lim.contacts && (slot in before ==> RefMovesAs(before[slot], m))
    requires Carriage(lim, before, samples, matched, held) && Settlement(lim, held, samples, placed, after)
    ensures slot in after ==> RefMovesAs(after[slot], RefNextMotion(m, samples, matched, placed, slot))
  {
    assert Look(held, slot) == Carry(lim, Look(before, slot), samples, matched, slot);
    assert Look(after, slot) == Settle(lim, held, samples, placed, slot);
    if ContactAt(placed, slot) < 0 && ContactAt(matched, slot) < 0 && slot in before {
      DriftedMoves(before[slot], m);
    }
  }

  lemma RefFrameMoves(lim: Limits, before: Tracks, samples: seq<Sample>, matched: seq<int>, placed: seq<int>,
                      held: Tracks, after: Tracks, ms: seq<RefMotion>)
    requires |matched| == |samples| == |placed| && |ms| == lim.contacts && AllRefMove(before, ms)
    requires Carriage(lim, before, samples, matched, held) && Settlement(lim, held, samples, placed, after)
    ensures AllRefMove(after, RefNextMotions(ms, samples, matched, placed))
  {
    forall i | i in after
      ensures i < |ms| && RefMovesAs(after[i], RefNextMotion(ms[i], samples, matched, placed, i))
    {
      RefSlotMoves(lim, before, samples, matched, placed, held, after, ms[i], i);
    }
  }

  /** d is the integer nearest to the distance from the expected position: one
      more step of the last kind, floored for the frames missed, on the panel. */
  ghost predicate IsRefGap(m: RefMotion, s: Sample, d: int) {
    var x := m.last.x + (m.last.x - m.before.x) / Power(m.misses);
    var y := m.last.y + (m.last.y - m.before.y) / Power(m.misses);
    var dx := (if x < 0 then 0 else if x > LOGICAL_MAX then LOGICAL_MAX else x) - s.x;
    var dy := (if y < 0 then 0 else if y > LOGICAL_MAX then LOGICAL_MAX else y) - s.y;
    && d >= 0 && (d > 0 ==> (2 * d - 1) * (2 * d - 1) <= 4 * (dx * dx + dy * dy))
    && 4 * (dx * dx + dy * dy) < (2 * d + 1) * (2 * d + 1)
  }

  lemma RefDistanceOfMotion(t: RefTrack, m: RefMotion, s: Sample)
    requires RefMovesAs(t, m)
    ensures IsRefGap(m, s, RefDistance(t, s))
  {}

  /** d holds the distances of the occupied slots from where the samples lead. */
  ghost predicate RefExpectedDistances(slots: seq<nat>, ms: seq<RefMotion>, samples: seq<Sample>, d: Distances) {
    && Shape(d, |slots|, |samples|)
    && forall i, j | 0 <= i < |slots| && 0 <= j < |samples| :: slots[i] < |ms| && IsRefGap(ms[slots[i]], samples[j], d[i][j])
  }

  /** matched is a lexicographic optimum over those distances. */
  ghost predicate RefBestExpected(lim: Limits, ts: Tracks, ms: seq<RefMotion>, samples: seq<Sample>, matched: seq<int>) {
    exists d, pairs ::
      && RefExpectedDistances(ActiveSlots(Occupied(ts, lim.contacts), lim.contacts), ms, samples, d)
      && LexOptimal(d, |ActiveSlots(Occupied(ts, lim.contacts), lim.contacts)|, |samples|, lim.gate, AsSet(pairs))
      && MatchedBy(ActiveSlots(Occupied(ts, lim.contacts), lim.contacts), pairs, matched)
  }

  lemma BestByPairs(lim: Limits, ts: Tracks, ms: seq<RefMotion>, samples: seq<Sample>, pairs: seq<(nat, nat)>, matched: seq<int>)
    requires AllRefMove(ts, ms)
    requires var slots := ActiveSlots(Occupied(ts, lim.contacts), lim.contacts);
             && LexOptimal(RefDistances(ts, slots, samples), |slots|, |samples|, lim.gate, AsSet(pairs))
             && MatchedBy(slots, pairs, matched)
    ensures RefBestMatch(lim, ts, samples, matched) && RefBestExpected(lim, ts, ms, samples, matched)
  {
    var slots := ActiveSlots(Occupied(ts, lim.contacts), lim.contacts);
    var d := RefDistances(ts, slots, samples);
    forall i, j | 0 <= i < |slots| && 0 <= j < |samples|
      ensures slots[i] < |ms| && IsRefGap(ms[slots[i]], samples[j], d[i][j])
    {
      var s: nat := slots[i];
      RefDistanceOfMotion(ts[s], ms[s], samples[j]);
    }
    assert RefExpectedDistances(slots, ms, samples, d);
  }

  /** One output coordinate after a match. */
  ghost predicate RefOutput(direct: bool, previous: int, sample: int, r: int) {
    if direct then r == sample else Smoothed(previous, sample, r)
  }

  /** A reported contact follows from its slot's track before and from its sample. */
  ghost predicate RefReportFollows(lim: Limits, t: RefTrack, s: Sample, r: TrackedContact) {
    && RefOutput(lim.direct, t.outputX, s.x, r.x) && RefOutput(lim.direct, t.outputY, s.y, r.y)
    && r.rawX == s.x && r.rawY == s.y && r.age == t.age + 1 && r.missed == 0 && !r.held
  }

  ghost predicate RefReportsFollow(lim: Limits, before: Tracks, samples: seq<Sample>, matched: seq<int>, reports: seq<TrackedContact>)
    requires |matched| == |samples|
  {
    forall k, j | 0 <= k < |reports| && 0 <= j < |samples| && matched[j] == reports[k].slot ::
      reports[k].slot in before && RefReportFollows(lim, before[reports[k].slot], samples[j], reports[k])
  }

  lemma RefreshedReport(lim: Limits, t: RefTrack, s: Sample, slot: nat)
    ensures RefReportFollows(lim, t, s, ReportOfTrack(slot, Refreshed(t, s, lim.direct)))
  {}

  /** A matched slot at the end of the frame is its track refreshed from its sample. */
  lemma RefMatchedAtEnd(lim: Limits, before: Tracks, samples: seq<Sample>, matched: seq<int>, placed: seq<int>,
                        held: Tracks, after: Tracks, j: nat, s: nat)
    requires |matched| == |samples| == |placed| && Distinct(matched)
    requires j < |matched| && matched[j] == s && s in before && s < lim.contacts
    requires Carriage(lim, before, samples, matched, held) && RefPlaced(lim, held, matched, placed)
    requires Settlement(lim, held, samples, placed, after)
    ensures s in after && after[s] == Refreshed(before[s], samples[j], lim.direct)
  {
    HeldBy(matched, j);
    assert Look(held, s) == Carry(lim, Look(before, s), samples, matched, s);
    assert Look(after, s) == Settle(lim, held, samples, placed, s);
    if ContactAt(placed, s) >= 0 {
      RefPlacedAreFree(lim, held, matched, placed, s);
    }
  }

  ghost predicate RefMatchedOutput(lim: Limits, before: Tracks, s: Sample, after: Tracks, slot: nat) {
    && slot in before && slot in after
    && RefOutput(lim.direct, before[slot].outputX, s.x, after[slot].outputX)
    && RefOutput(lim.direct, before[slot].outputY, s.y, after[slot].outputY)
  }

  ghost predicate RefPlacedOutput(s: Sample, after: Tracks, slot: nat) {
    slot in after && after[slot].outputX == s.x && after[slot].outputY == s.y
  }

  ghost predicate RefKeptOutput(before: Tracks, after: Tracks, slot: nat) {
    slot in after ==> slot in before && after[slot].outputX == before[slot].outputX && after[slot].outputY == before[slot].outputY
  }

  /** Where the outputs of matched and new tracks come from; every other track
      keeps its output. */
  ghost predicate RefOutputsFollow(lim: Limits, before: Tracks, samples: seq<Sample>, matched: seq<int>, placed: seq<int>, after: Tracks)
    requires |matched| == |samples| == |placed|
  {
    && (forall j | 0 <= j < |samples| && matched[j] >= 0 :: RefMatchedOutput(lim, before, samples[j], after, matched[j]))
    && (forall j | 0 <= j < |samples| && placed[j] >= 0 :: RefPlacedOutput(samples[j], after, placed[j]))
    && forall s: nat | s !in matched && s !in placed :: RefKeptOutput(before, after, s)
  }

  lemma RefPlacedAtEnd(lim: Limits, held: Tracks, samples: seq<Sample>, matched: seq<int>, placed: seq<int>, after: Tracks, j: nat, s: nat)
    requires |matched| == |samples| == |placed| && j < |samples| && placed[j] == s
    requires RefPlaced(lim, held, matched, placed) && Settlement(lim, held, samples, placed, after)
    ensures s in after && after[s] == Opened(samples[j], RefRequirement(held, lim.contacts, lim.confirm, samples[j]))
  {
    forall i, k | 0 <= i < k < |placed| && placed[i] >= 0
      ensures placed[i] != placed[k]
    {
      assert placed[k] == LowestFree(lim, held, matched[k], placed[..k]);
      if placed[k] >= 0 {
        NotHeld(placed[..k], placed[k]);
        assert placed[..k][i] == placed[i];
      }
    }
    forall k | 0 <= k < |placed|
      ensures -1 <= placed[k] < lim.contacts
    {
      assert placed[k] == LowestFree(lim, held, matched[k], placed[..k]);
    }
    HeldBy(placed, j);
    assert Look(after, s) == Settle(lim, held, samples, placed, s);
  }

  lemma RefKeptAtEnd(lim: Limits, before: Tracks, samples: seq<Sample>, matched: seq<int>, placed: seq<int>,
                     held: Tracks, after: Tracks, s: nat)
    requires |matched| == |samples| == |placed| && s !in matched && s !in placed
    requires Carriage(lim, before, samples, matched, held) && Settlement(lim, held, samples, placed, after)
    ensures RefKeptOutput(before, after, s)
  {
    if s in after {
      assert Look(held, s) == Carry(lim, Look(before, s), samples, matched, s);
      assert Look(after, s) == Settle(lim, held, samples, placed, s);
    }
  }

  lemma RefFrameOutputs(lim: Limits, before: Tracks, samples: seq<Sample>, matched: seq<int>, placed: seq<int>, held: Tracks, after: Tracks)
    requires |matched| == |samples| == |placed| && Distinct(matched) && forall i | i in before :: i < lim.contacts
    requires forall j | 0 <= j < |matched| && matched[j] >= 0 :: matched[j] in before
    requires Carriage(lim, before, samples, matched, held) && RefPlaced(lim, held, matched, placed)
    requires Settlement(lim, held, samples, placed, after)
    ensures RefOutputsFollow(lim, before, samples, matched, placed, after)
  {
    forall j | 0 <= j < |samples| && matched[j] >= 0
      ensures RefMatchedOutput(lim, before, samples[j], after, matched[j])
    {
      var s: nat := matched[j];
      RefMatchedAtEnd(lim, before, samples, matched, placed, held, after, j, s);
      RefreshedReport(lim, before[s], samples[j], s);
    }
    forall j | 0 <= j < |samples| && placed[j] >= 0
      ensures RefPlacedOutput(samples[j], after, placed[j])
    {
      RefPlacedAtEnd(lim, held, samples, matched, placed, after, j, placed[j]);
    }
    forall s: nat | s !in matched && s !in placed
      ensures RefKeptOutput(before, after, s)
    {
      RefKeptAtEnd(lim, before, samples, matched, placed, held, after, s);
    }
  }

  lemma RefReportsAreFollowed(lim: Limits, before: Tracks, samples: seq<Sample>, matched: seq<int>, placed: seq<int>,
                              held: Tracks, after: Tracks, beats: seq<seq<Beat>>, reports: seq<TrackedContact>)
    requires |matched| == |samples| == |placed| && Distinct(matched) && |beats| == lim.contacts
    requires forall j | 0 <= j < |matched| && matched[j] >= 0 :: matched[j] in before
    requires Carriage(lim, before, samples, matched, held) && RefPlaced(lim, held, matched, placed)
    requires Settlement(lim, held, samples, placed, after) && RefReports(lim, reports, after, beats)
    ensures RefReportsFollow(lim, before, samples, matched, reports)
  {
    forall k, j | 0 <= k < |reports| && 0 <= j < |samples| && matched[j] == reports[k].slot
      ensures reports[k].slot in before && RefReportFollows(lim, before[reports[k].slot], samples[j], reports[k])
    {
      var s: nat := reports[k].slot;
      assert reports[k] in reports;
      RefMatchedAtEnd(lim, before, samples, matched, placed, held, after, j, s);
      RefreshedReport(lim, before[s], samples[j], s);
    }
  }

  class ContactTracker {
    const lim: Limits
    var tracks: Tracks
    ghost var beats: seq<seq<Beat>>
    ghost var motions: seq<RefMotion>

    ghost predicate Valid()
      reads this
    {
      AllRefTell(lim, tracks, beats) && |motions| == lim.contacts && AllRefMove(tracks, motions)
    }

    constructor (lim: Limits)
      ensures Valid() && tracks == map[] && this.lim == lim
    {
      this.lim := lim;
      tracks := map[];
      beats := seq(lim.contacts, _ => []);
      motions := seq(lim.contacts, _ => RefMotion(NO_SAMPLE, NO_SAMPLE, 0));
    }

    method Reset()
      modifies this
      ensures Valid() && tracks == map[] && beats == seq(lim.contacts, _ => [])
    {
      tracks := map[];
      beats := seq(lim.contacts, _ => []);
      motions := seq(lim.contacts, _ => RefMotion(NO_SAMPLE, NO_SAMPLE, 0));
    }

    /** The matched updates, pair by pair. */
    method RefreshMatched(slots: seq<nat>, samples: seq<Sample>, pairs: seq<(nat, nat)>)
      returns (current: set<nat>, taken: set<nat>, ghost matched: seq<int>)
      requires Matching(|slots|, |samples|, AsSet(pairs)) && Ascending(pairs)
      requires forall i, j | 0 <= i < j < |slots| :: slots[i] < slots[j]
      requires forall i | 0 <= i < |slots| :: slots[i] in tracks
      modifies this`tracks
      ensures |matched| == |samples| && MatchedBy(slots, pairs, matched)
      ensures AfterMatches(old(tracks), samples, matched, lim.direct, tracks)
      ensures current == SlotsIn(matched) && TakenIn(matched, taken)
    {
      current, taken := {}, {};
      ghost var before := tracks;
      matched := seq(|samples|, _ => -1);
      NoneHeld(matched);
      for k := 0 to |pairs|
        invariant Matched(before, slots, samples, pairs[..k], matched, lim.direct, tracks, current, taken)
      {
        MatchStep(before, slots, samples, pairs, k, matched, lim.direct, tracks, current, taken);
        var slot, j := slots[pairs[k].0], pairs[k].1;
        tracks := tracks[slot := Refreshed(tracks[slot], samples[j], lim.direct)];
        matched := matched[j := slot];
        current, taken := current + {slot}, taken + {j};
      }
      assert pairs[..|pairs|] == pairs;
    }

    /** The loop over the tracks that were not matched. */
    method DriftUnmatched(slots: seq<nat>, current: set<nat>)
      requires forall i, j | 0 <= i < j < |slots| :: slots[i] < slots[j]
      requires forall i | 0 <= i < |slots| :: slots[i] in tracks
      modifies this`tracks
      ensures forall i: nat :: Look(tracks, i) == DriftedIn(lim.hold, Look(old(tracks), i), i in slots && i !in current)
    {
      ghost var before := tracks;
      for k := 0 to |slots|
        invariant forall i: nat :: Look(tracks, i) == DriftedIn(lim.hold, Look(before, i), i in slots[..k] && i !in current)
      {
        var slot := slots[k];
        DriftNext(lim, before, slots, current, k, tracks);
        if slot !in current {
          if tracks[slot].missed + 1 > lim.hold {
            tracks := tracks - {slot};
          } else {
            tracks := tracks[slot := Drifted(tracks[slot])];
          }
        }
      }
      assert slots[..|slots|] == slots;
    }

    /** _confirmation_requirement. */
    method ConfirmationRequirement(s: Sample) returns (required: nat)
      ensures required == RefRequirement(tracks, lim.contacts, lim.confirm, s)
    {
      required := lim.confirm;
      if s.pixels < MIN_PIXELS {
        required := Greater(required, CONFIRM_WEAK);
      }
      for i := 0 to lim.contacts
        invariant required == RefRequirement(tracks, i, lim.confirm, s)
      {
        RefRequirementStep(tracks, i, s);
        if i !in tracks || !tracks[i].confirmed || !tracks[i].active {
          continue;
        }
        if Squared(tracks[i].rawX - s.x, tracks[i].rawY - s.y) > SPLIT_RADIUS * SPLIT_RADIUS {
          continue;
        }
        required := Greater(required, CONFIRM_WEAK);
        if s.strength * 2 <= tracks[i].strength || s.pixels * 2 <= tracks[i].pixels {
          required := Greater(required, CONFIRM_SPLIT);
        }
      }
    }

    /** One sample of the creation loop. */
    method OpenOne(ghost samples: seq<Sample>, s: Sample, ghost matched: seq<int>, isTaken: bool, free: seq<nat>,
                   ghost held: Tracks, ghost placed: seq<int>)
      returns (free': seq<nat>, ghost slot: int)
      requires |placed| < |samples| == |matched| && s == samples[|placed|] && RefPlaced(lim, held, matched, placed)
      requires Settlement(lim, held, samples, placed, tracks)
      requires isTaken == (matched[|placed|] >= 0) && free == FreeList(held.Keys + SlotsIn(placed), lim.contacts)
      modifies this`tracks
      ensures RefPlaced(lim, held, matched, placed + [slot]) && Settlement(lim, held, samples, placed + [slot], tracks)
      ensures free' == FreeList(held.Keys + SlotsIn(placed + [slot]), lim.contacts)
    {
      ghost var ts := tracks;
      RefPlaceNext(lim, held, matched, placed);
      RefSettleNext(lim, held, samples, placed, ts, LowestFree(lim, held, matched[|placed|], placed));
      RefTaken(lim, held, placed, free);
      free', slot := free, -1;
      if !isTaken && free != [] {
        SettledRefRequirement(lim, held, samples, matched, placed, ts, s);
        var required := ConfirmationRequirement(s);
        tracks := tracks[free[0] := Opened(s, required)];
        free', slot := free[1..], free[0];
      }
    }

    /** The creation loop: free slots are listed once and taken in order. */
    method OpenUnmatched(samples: seq<Sample>, taken: set<nat>, ghost matched: seq<int>) returns (ghost placed: seq<int>)
      requires |matched| == |samples| && TakenIn(matched, taken) && forall i | i in tracks :: i < lim.contacts
      modifies this`tracks
      ensures |placed| == |samples| && RefPlaced(lim, old(tracks), matched, placed)
      ensures Settlement(lim, old(tracks), samples, placed, tracks)
    {
      ghost var held := tracks;
      placed := [];
      var free := FreeSlots();
      assert held.Keys + SlotsIn(placed) == held.Keys;
      for n := 0 to |samples|
        invariant |placed| == n && RefPlaced(lim, held, matched, placed)
        invariant Settlement(lim, held, samples, placed, tracks)
        invariant free == FreeList(held.Keys + SlotsIn(placed), lim.contacts)
      {
        ghost var slot;
        free, slot := OpenOne(samples, samples[n], matched, n in taken, free, held, placed);
        placed := placed + [slot];
      }
    }

    method FreeSlots() returns (free: seq<nat>)
      ensures free == FreeList(tracks.Keys, lim.contacts)
    {
      free := [];
      for i := 0 to lim.contacts
        invariant free == FreeList(tracks.Keys, i)
      {
        if i !in tracks {
          free := free + [i];
        }
      }
    }

    method Collect() returns (reports: seq<TrackedContact>)
      ensures reports == RefCollected(tracks, lim.contacts)
    {
      reports := [];
      for i := 0 to lim.contacts
        invariant reports == RefCollected(tracks, i)
      {
        if i in tracks && tracks[i].active && tracks[i].confirmed {
          reports := reports + [ReportOfTrack(i, tracks[i])];
        }
      }
    }

    /** The first half of update: match, refresh, and drift or drop the rest. */
    method MatchAndCarry(samples: seq<Sample>) returns (ghost matched: seq<int>, taken: set<nat>)
      requires (forall i | i in tracks :: i < lim.contacts) && AllRefMove(tracks, motions)
      modifies this`tracks
      ensures |matched| == |samples| && RefBestMatch(lim, old(tracks), samples, matched) && TakenIn(matched, taken)
      ensures RefBestExpected(lim, old(tracks), motions, samples, matched) && Distinct(matched)
      ensures forall j | 0 <= j < |matched| && matched[j] >= 0 :: matched[j] in old(tracks)
      ensures Carriage(lim, old(tracks), samples, matched, tracks)
    {
      ghost var before := tracks;
      var slots := ActiveSlots(Occupied(tracks, lim.contacts), lim.contacts);
      var pairs := MinimumCostMatches(RefDistances(tracks, slots, samples), |slots|, |samples|, lim.gate);
      matched, taken := CarryTracks(slots, samples, pairs);
      MatchedAreHeld(before, slots, pairs, matched);
      BestByPairs(lim, before, motions, samples, pairs, matched);
    }

    /** Every track is refreshed from its sample, or drifts or is deleted. */
    method CarryTracks(slots: seq<nat>, samples: seq<Sample>, pairs: seq<(nat, nat)>)
      returns (ghost matched: seq<int>, taken: set<nat>)
      requires (forall i | i in tracks :: i < lim.contacts) && slots == ActiveSlots(Occupied(tracks, lim.contacts), lim.contacts)
      requires Matching(|slots|, |samples|, AsSet(pairs)) && Ascending(pairs)
      modifies this`tracks
      ensures |matched| == |samples| && MatchedBy(slots, pairs, matched) && TakenIn(matched, taken)
      ensures Carriage(lim, old(tracks), samples, matched, tracks)
    {
      ghost var before := tracks;
      var current;
      current, taken, matched := RefreshMatched(slots, samples, pairs);
      ghost var refreshed := tracks;
      DriftUnmatched(slots, current);
      CarriedOver(lim, before, slots, samples, matched, refreshed, tracks);
    }

    /** Match the samples to the tracks, carry these over and open new ones. */
    method MatchAndOpen(samples: seq<Sample>) returns (ghost matched: seq<int>, ghost placed: seq<int>, ghost held: Tracks)
      requires (forall i | i in tracks :: i < lim.contacts) && AllRefMove(tracks, motions)
      modifies this`tracks
      ensures |matched| == |samples| == |placed| && RefBestMatch(lim, old(tracks), samples, matched) && Distinct(matched)
      ensures RefBestExpected(lim, old(tracks), motions, samples, matched)
      ensures forall j | 0 <= j < |matched| && matched[j] >= 0 :: matched[j] in old(tracks)
      ensures Carriage(lim, old(tracks), samples, matched, held)
      ensures RefPlaced(lim, held, matched, placed) && Settlement(lim, held, samples, placed, tracks)
    {
      var taken;
      matched, taken := MatchAndCarry(samples);
      held := tracks;
      placed := OpenUnmatched(samples, taken, matched);
    }

    /** update: the tracks after a frame are a function of those before, the
        match and the placement; reported are exactly the slots that have
        earned it and were matched in this frame. */
    method Update(measurements: seq<Sample>)
      returns (reports: seq<TrackedContact>, ghost matched: seq<int>, ghost placed: seq<int>, ghost held: Tracks)
      requires Valid()
      modifies this
      ensures Valid()
      ensures var samples := First(measurements, lim.contacts);
              && |matched| == |samples| == |placed| && RefBestMatch(lim, old(tracks), samples, matched)
              && Carriage(lim, old(tracks), samples, matched, held)
              && RefPlaced(lim, held, matched, placed) && Settlement(lim, held, samples, placed, tracks)
              && beats == NextRefBeats(lim, old(beats), held, samples, matched, placed)
      ensures RefReports(lim, reports, tracks, beats)
      ensures RefBestExpected(lim, old(tracks), old(motions), First(measurements, lim.contacts), matched)
      ensures motions == RefNextMotions(old(motions), First(measurements, lim.contacts), matched, placed)
      ensures RefReportsFollow(lim, old(tracks), First(measurements, lim.contacts), matched, reports)
      ensures RefOutputsFollow(lim, old(tracks), First(measurements, lim.contacts), matched, placed, tracks)
    {
      ghost var before := tracks;
      var samples := First(measurements, lim.contacts);
      matched, placed, held := MatchAndOpen(samples);
      RefFrameKeepsTelling(lim, before, samples, matched, placed, held, tracks, beats);
      RefFrameMoves(lim, before, samples, matched, placed, held, tracks, motions);
      RefFrameOutputs(lim, before, samples, matched, placed, held, tracks);
      motions := RefNextMotions(motions, samples, matched, placed);
      beats := NextRefBeats(lim, beats, held, samples, matched, placed);
      RefCollectedAreEarned(lim, tracks, beats);
      reports := Collect();
      RefReportsAreFollowed(lim, before, samples, matched, placed, held, tracks, beats, reports);
    }
  }

  /** No more measurements are looked at than there are slots. */
  function First(measurements: seq<Sample>, n: nat): (s: seq<Sample>)
    ensures |s| == Min(n, |measurements|) && s <= measurements
  {
    if |measurements| <= n then measurements else measurements[..n]
  }

  lemma SlotsInAppend(placed: seq<int>, slot: int)
    ensures SlotsIn(placed + [slot]) == SlotsIn(placed) + if slot < 0 then {} else {slot as nat}
  {
    assert (placed + [slot])[..|placed|] == placed;
  }

  lemma RefTaken(lim: Limits, held: Tracks, placed: seq<int>, free: seq<nat>)
    requires free == FreeList(held.Keys + SlotsIn(placed), lim.contacts)
    ensures SlotsIn(placed + [-1]) == SlotsIn(placed)
    ensures free != [] ==> FreeList(held.Keys + SlotsIn(placed + [free[0]]), lim.contacts) == free[1..]
  {
    SlotsInAppend(placed, -1);
    if free != [] {
      SlotsInAppend(placed, free[0]);
      FreeListTaken(held.Keys + SlotsIn(placed), lim.contacts);
      assert held.Keys + (SlotsIn(placed) + {free[0]}) == held.Keys + SlotsIn(placed) + {free[0]};
    }
  }

  /** One slot through the matched updates and the drift. */
  lemma CarriedSlot(lim: Limits, before: Tracks, slots: seq<nat>, samples: seq<Sample>, matched: seq<int>,
                    refreshed: Tracks, held: Tracks, i: nat)
    requires |matched| == |samples| && (i in before ==> i in slots)
    requires AfterMatches(before, samples, matched, lim.direct, refreshed)
    requires Look(held, i) == DriftedIn(lim.hold, Look(refreshed, i), i in slots && i !in SlotsIn(matched))
    ensures Look(held, i) == Carry(lim, Look(before, i), samples, matched, i)
    ensures i in held ==> i in before
  {
    if i in before {
      assert refreshed[i] == RefreshedAt(before[i], samples, matched, lim.direct, i);
    }
  }

  lemma CarriedOver(lim: Limits, before: Tracks, slots: seq<nat>, samples: seq<Sample>, matched: seq<int>,
                    refreshed: Tracks, held: Tracks)
    requires slots == ActiveSlots(Occupied(before, lim.contacts), lim.contacts) && (forall i | i in before :: i < lim.contacts)
    requires |matched| == |samples| && AfterMatches(before, samples, matched, lim.direct, refreshed)
    requires forall i: nat :: Look(held, i) == DriftedIn(lim.hold, Look(refreshed, i), i in slots && i !in SlotsIn(matched))
    ensures Carriage(lim, before, samples, matched, held)
  {
    forall i: nat
      ensures Look(held, i) == Carry(lim, Look(before, i), samples, matched, i)
      ensures i in held ==> i < lim.contacts
    {
      CarriedSlot(lim, before, slots, samples, matched, refreshed, held, i);
    }
  }

  lemma MatchedAreHeld(before: Tracks, slots: seq<nat>, pairs: seq<(nat, nat)>, matched: seq<int>)
    requires MatchedBy(slots, pairs, matched) && forall i | 0 <= i < |slots| :: slots[i] in before
    ensures forall j | 0 <= j < |matched| && matched[j] >= 0 :: matched[j] in before
  {
    forall j | 0 <= j < |matched| && matched[j] >= 0
      ensures matched[j] in before
    {
      assert PairOf(pairs, j);
    }
  }

  ghost function DriftedIn(hold: nat, m: MaybeTrack, missed: bool): MaybeTrack {
    if m.Gone? || !missed then m
    else if m.track.missed < hold then Kept(Drifted(m.track)) else Gone
  }

  lemma DriftNext(lim: Limits, before: Tracks, slots: seq<nat>, current: set<nat>, k: nat, ts: Tracks)
    requires k < |slots| && slots[k] in before
    requires forall i, j | 0 <= i < j < |slots| :: slots[i] < slots[j]
    requires forall i: nat :: Look(ts, i) == DriftedIn(lim.hold, Look(before, i), i in slots[..k] && i !in current)
    ensures slots[k] in ts && ts[slots[k]] == before[slots[k]]
    ensures forall i: nat :: i in slots[..k + 1] <==> i in slots[..k] || i == slots[k]
    ensures slots[k] !in slots[..k]
  {
    assert slots[..k + 1] == slots[..k] + [slots[k]];
    assert Look(ts, slots[k]) == Look(before, slots[k]);
  }

  lemma RefRequirementStep(ts: Tracks, n: nat, s: Sample)
    ensures SomeBeside(ts, n + 1, s) <==> SomeBeside(ts, n, s) || (n in ts && RefBeside(ts[n], s))
    ensures SomeFragment(ts, n + 1, s) <==> SomeFragment(ts, n, s) || (n in ts && RefFragment(ts[n], s))
  {}

  lemma NoneHeld(matched: seq<int>)
    requires forall j | 0 <= j < |matched| :: matched[j] == -1
    ensures forall i: nat :: ContactAt(matched, i) < 0
    ensures SlotsIn(matched) == {} && Distinct(matched)
  {}

  /** The samples that are matched. */
  ghost predicate TakenIn(matched: seq<int>, taken: set<nat>) {
    forall j: nat :: j in taken <==> j < |matched| && matched[j] >= 0
  }

  /** State of the matched updates after some pairs. */
  ghost predicate Matched(before: Tracks, slots: seq<nat>, samples: seq<Sample>, pairs: seq<(nat, nat)>, matched: seq<int>,
                          direct: bool, ts: Tracks, current: set<nat>, taken: set<nat>)
  {
    && |matched| == |samples| && MatchedBy(slots, pairs, matched)
    && AfterMatches(before, samples, matched, direct, ts)
    && current == SlotsIn(matched) && TakenIn(matched, taken)
  }

  lemma MatchStep(before: Tracks, slots: seq<nat>, samples: seq<Sample>, pairs: seq<(nat, nat)>, k: nat, matched: seq<int>,
                  direct: bool, ts: Tracks, current: set<nat>, taken: set<nat>)
    requires Matching(|slots|, |samples|, AsSet(pairs)) && Ascending(pairs) && k < |pairs|
    requires forall i, j | 0 <= i < j < |slots| :: slots[i] < slots[j]
    requires forall i | 0 <= i < |slots| :: slots[i] in before
    requires Matched(before, slots, samples, pairs[..k], matched, direct, ts, current, taken)
    ensures pairs[k].0 < |slots| && pairs[k].1 < |samples| && slots[pairs[k].0] in ts
    ensures var slot, j := slots[pairs[k].0], pairs[k].1;
            var next, ts' := matched[j := slot], ts[slot := Refreshed(ts[slot], samples[j], direct)];
            && MatchedBy(slots, pairs[..k + 1], next) && AfterMatches(before, samples, next, direct, ts')
            && current + {slot} == SlotsIn(next) && TakenIn(next, taken + {j})
  {
    PairIsNew(slots, |samples|, pairs, k, matched);
    var slot, j := slots[pairs[k].0], pairs[k].1;
    TakenNext(matched, taken, j, slot);
    MatchedByNext(slots, pairs, k, matched);
    AfterNextMatch(before, samples, matched, direct, ts, slot, j);
    SlotsInNext(matched, slot, j);
  }

  lemma TakenNext(matched: seq<int>, taken: set<nat>, j: nat, slot: nat)
    requires TakenIn(matched, taken) && j < |matched|
    ensures TakenIn(matched[j := slot], taken + {j})
  {}

  lemma RefreshedAtNext(t: RefTrack, samples: seq<Sample>, matched: seq<int>, direct: bool, slot: nat, j: nat, i: nat)
    requires |matched| == |samples| && Distinct(matched) && j < |matched| && matched[j] < 0 && ContactAt(matched, slot) < 0
    ensures RefreshedAt(t, samples, matched[j := slot], direct, i) ==
            if i == slot then Refreshed(t, samples[j], direct) else RefreshedAt(t, samples, matched, direct, i)
  {
    SetContactAt(matched, j, slot);
  }

  lemma AfterNextMatch(before: Tracks, samples: seq<Sample>, matched: seq<int>, direct: bool, ts: Tracks, slot: nat, j: nat)
    requires |matched| == |samples| && Distinct(matched) && j < |matched| && matched[j] < 0
    requires slot in before && ContactAt(matched, slot) < 0
    requires AfterMatches(before, samples, matched, direct, ts)
    ensures slot in ts && AfterMatches(before, samples, matched[j := slot], direct, ts[slot := Refreshed(ts[slot], samples[j], direct)])
  {
    forall i | i in before
      ensures RefreshedAt(before[i], samples, matched[j := slot], direct, i) ==
              if i == slot then Refreshed(before[i], samples[j], direct) else ts[i]
    {
      RefreshedAtNext(before[i], samples, matched, direct, slot, j, i);
    }
    assert ts[slot] == before[slot];
  }

  lemma SlotsInNext(matched: seq<int>, slot: nat, j: nat)
    requires Distinct(matched) && j < |matched| && matched[j] < 0 && ContactAt(matched, slot) < 0
    ensures SlotsIn(matched[j := slot]) == SlotsIn(matched) + {slot}
  {
    SetContactAt(matched, j, slot);
  }

  lemma PairsNext(pairs: seq<(nat, nat)>, k: nat, i: nat)
    requires k < |pairs|
    ensures PairOf(pairs[..k + 1], i) <==> PairOf(pairs[..k], i) || pairs[k].1 == i
  {
    var more, fewer := pairs[..k + 1], pairs[..k];
    assert more[k] == pairs[k];
    assert forall l | 0 <= l < k :: more[l] == fewer[l];
  }

  lemma MatchedByNext(slots: seq<nat>, pairs: seq<(nat, nat)>, k: nat, matched: seq<int>)
    requires k < |pairs| && pairs[k].0 < |slots| && pairs[k].1 < |matched| && MatchedBy(slots, pairs[..k], matched)
    requires matched[pairs[k].1] < 0 && ContactAt(matched, slots[pairs[k].0]) < 0
    ensures MatchedBy(slots, pairs[..k + 1], matched[pairs[k].1 := slots[pairs[k].0]])
  {
    var j, next := pairs[k].1, matched[pairs[k].1 := slots[pairs[k].0]];
    SetContactAt(matched, j, slots[pairs[k].0]);
    assert pairs[..k + 1] == pairs[..k] + [pairs[k]];
    forall i | 0 <= i < |next| && next[i] >= 0
      ensures PairOf(pairs[..k + 1], i)
    {
      PairsNext(pairs, k, i);
    }
  }
}
