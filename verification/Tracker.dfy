/** The frame transaction over the ten track slots: assign, update, coast or
    expire, create, collect. */
module Tracker {
  import opened Matchings
  import opened Padding
  import opened Hungarian
  import opened TrackAssignment
  import opened Lifecycle
  import opened Motions

  datatype Report = Report(slot: nat, x: nat, y: nat)

  // ----- which contact holds a slot

  /** Index of the last contact given the slot, or -1. */
  ghost function ContactAt(slotOf: seq<int>, slot: nat): (j: int)
    ensures -1 <= j < |slotOf|
    ensures j >= 0 ==> slotOf[j] == slot
  {
    if slotOf == [] then -1
    else if slotOf[|slotOf| - 1] == slot then |slotOf| - 1
    else ContactAt(slotOf[..|slotOf| - 1], slot)
  }

  /** Each entry is a slot or -1, and no slot occurs twice. */
  ghost predicate Distinct(slotOf: seq<int>) {
    && (forall j | 0 <= j < |slotOf| :: -1 <= slotOf[j])
    && forall j, k | 0 <= j < k < |slotOf| && slotOf[j] >= 0 :: slotOf[j] != slotOf[k]
  }

  lemma {:induction false} NotHeld(slotOf: seq<int>, slot: nat)
    ensures ContactAt(slotOf, slot) < 0 <==> forall j | 0 <= j < |slotOf| :: slotOf[j] != slot
  {
    if slotOf != [] {
      NotHeld(slotOf[..|slotOf| - 1], slot);
    }
  }

  // ----- the frame as a function of the old tracks

  /** A slot after the matched updates and the unmatched lifecycle. */
  ghost function Carried(policy: Policy, t: Track, contacts: seq<Contact>, matched: seq<int>, slot: nat): Track
    requires |matched| == |contacts|
  {
    var j := ContactAt(matched, slot);
    if j >= 0 then Updated(policy, t, contacts[j]) else if t.active then Coasted(t) else t
  }

  ghost function CarriedAll(policy: Policy, ts: seq<Track>, contacts: seq<Contact>, matched: seq<int>): (r: seq<Track>)
    requires |matched| == |contacts|
    ensures |r| == |ts|
  {
    seq(|ts|, i requires 0 <= i < |ts| => Carried(policy, ts[i], contacts, matched, i))
  }

  /** A slot at the end of the frame. */
  ghost function Settled(policy: Policy, held: seq<Track>, contacts: seq<Contact>, placed: seq<int>, slot: nat): Track
    requires |placed| <= |contacts| && slot < |held|
  {
    var j := ContactAt(placed, slot);
    if j >= 0 then Started(policy, contacts[j], Requirement(policy, held, contacts[j])) else held[slot]
  }

  /** What the frame shows a slot. */
  ghost function BeatOf(policy: Policy, held: seq<Track>, contacts: seq<Contact>, matched: seq<int>, placed: seq<int>, slot: nat): Beat
    requires |matched| == |contacts| == |placed|
  {
    var j, k := ContactAt(matched, slot), ContactAt(placed, slot);
    if k >= 0 then Born(contacts[k].shapeAllowed, Requirement(policy, held, contacts[k]))
    else if j >= 0 then Seen(contacts[j].shapeAllowed)
    else Idle
  }

  ghost predicate AllTell(ts: seq<Track>, beats: seq<seq<Beat>>) {
    |ts| == |beats| == MAX_CONTACTS && forall i | 0 <= i < MAX_CONTACTS :: Tells(ts[i], beats[i])
  }

  /** Matched slots are active and distinct. */
  ghost predicate MatchesActive(ts: seq<Track>, matched: seq<int>) {
    Distinct(matched) && forall j | 0 <= j < |matched| && matched[j] >= 0 :: matched[j] < |ts| && ts[matched[j]].active
  }

  /** Contact j is given the first slot that is free among the held tracks
      and those placed before it. */
  ghost predicate FirstFree(held: seq<Track>, placed: seq<int>, j: nat)
    requires j < |placed|
  {
    && 0 <= placed[j] < |held| && Free(held, placed, j, placed[j])
    && forall i | 0 <= i < placed[j] :: !Free(held, placed, j, i)
  }

  ghost predicate Free(held: seq<Track>, placed: seq<int>, j: nat, i: nat)
    requires j <= |placed| && i < |held|
  {
    !held[i].active && ContactAt(placed[..j], i) < 0
  }

  /** Every unmatched contact takes the first free slot; it is dropped only
      when none is free. */
  ghost predicate PlacedInOrder(held: seq<Track>, matched: seq<int>, placed: seq<int>)
    requires |placed| <= |matched|
  {
    forall j | 0 <= j < |placed| ::
      if matched[j] >= 0 then placed[j] == -1
      else FirstFree(held, placed, j) || (placed[j] == -1 && forall i | 0 <= i < |held| :: !Free(held, placed, j, i))
  }

  lemma {:induction false} PlacedAreFree(held: seq<Track>, matched: seq<int>, placed: seq<int>, slot: nat)
    requires |placed| <= |matched| && PlacedInOrder(held, matched, placed) && slot < |held|
    requires ContactAt(placed, slot) >= 0
    ensures !held[slot].active
  {}

  lemma MatchedStayActive(policy: Policy, ts: seq<Track>, contacts: seq<Contact>, matched: seq<int>, slot: nat)
    requires |matched| == |contacts| && MatchesActive(ts, matched) && slot < |ts|
    requires ContactAt(matched, slot) >= 0
    ensures ts[slot].active && CarriedAll(policy, ts, contacts, matched)[slot].active
  {}

  /** One slot through one frame. */
  lemma SlotKeepsTelling(policy: Policy, ts: seq<Track>, contacts: seq<Contact>, matched: seq<int>, placed: seq<int>,
                         b: seq<Beat>, slot: nat)
    requires |matched| == |contacts| == |placed| && MatchesActive(ts, matched) && slot < |ts|
    requires PlacedInOrder(CarriedAll(policy, ts, contacts, matched), matched, placed)
    requires (forall c | c in contacts :: OnPanel(c)) && Tells(ts[slot], b)
    ensures var held := CarriedAll(policy, ts, contacts, matched);
            Tells(Settled(policy, held, contacts, placed, slot), b + [BeatOf(policy, held, contacts, matched, placed, slot)])
  {
    var held := CarriedAll(policy, ts, contacts, matched);
    var j, k := ContactAt(matched, slot), ContactAt(placed, slot);
    if k >= 0 {
      PlacedAreFree(held, matched, placed, slot);
      BornKeeps(policy, contacts[k], Requirement(policy, held, contacts[k]), b);
    } else if j >= 0 {
      MatchedStayActive(policy, ts, contacts, matched, slot);
      SeenKeeps(policy, ts[slot], b, contacts[j]);
    } else {
      IdleKeeps(ts[slot], b);
    }
  }

  // ----- output

  ghost predicate Shown(t: Track, current: set<nat>, slot: nat) {
    t.active && t.confirmed && slot in current
  }

  /** The collected contacts in slot order. */
  ghost function Collected(ts: seq<Track>, current: set<nat>, n: nat): seq<Report>
    requires n <= |ts|
  {
    if n == 0 then []
    else
      Collected(ts, current, n - 1)
      + if Shown(ts[n - 1], current, n - 1) then [Report(n - 1, ts[n - 1].outputX, ts[n - 1].outputY)] else []
  }

  /** The reports are exactly the slots that have earned one, each once. */
  ghost predicate ReportsEarned(reports: seq<Report>, ts: seq<Track>, beats: seq<seq<Beat>>)
    requires |ts| == |beats|
  {
    && (forall k | 0 <= k < |reports| :: ReportOf(reports[k], ts, beats))
    && (forall k, l | 0 <= k < l < |reports| :: reports[k].slot < reports[l].slot)
    && forall i | 0 <= i < |ts| && Earned(beats[i], HOLD_FRAMES) :: Report(i, ts[i].outputX, ts[i].outputY) in reports
  }

  ghost predicate ReportOf(r: Report, ts: seq<Track>, beats: seq<seq<Beat>>)
    requires |ts| == |beats|
  {
    r.slot < |ts| && Earned(beats[r.slot], HOLD_FRAMES) && r.x == ts[r.slot].outputX && r.y == ts[r.slot].outputY
  }

  lemma {:induction false} CollectedMembers(ts: seq<Track>, current: set<nat>, n: nat)
    requires n <= |ts|
    ensures var c := Collected(ts, current, n);
            && (forall r | r in c :: r.slot < n && Shown(ts[r.slot], current, r.slot)
                                     && r.x == ts[r.slot].outputX && r.y == ts[r.slot].outputY)
            && (forall k, l | 0 <= k < l < |c| :: c[k].slot < c[l].slot)
            && forall i: nat | i < n && Shown(ts[i], current, i) :: Report(i, ts[i].outputX, ts[i].outputY) in c
  {
    if n > 0 {
      CollectedMembers(ts, current, n - 1);
    }
  }

  lemma CollectedAreEarned(ts: seq<Track>, current: set<nat>, beats: seq<seq<Beat>>)
    requires AllTell(ts, beats)
    requires forall i: nat | i < |ts| :: beats[i] != [] && (i in current <==> !beats[i][|beats[i]| - 1].Idle?)
    ensures ReportsEarned(Collected(ts, current, |ts|), ts, beats)
  {
    CollectedMembers(ts, current, |ts|);
    forall i: nat | i < |ts|
      ensures Shown(ts[i], current, i) <==> Earned(beats[i], HOLD_FRAMES)
    {
      EarnedBySummary(beats[i], HOLD_FRAMES);
      assert Tells(ts[i], beats[i]);
    }
  }

  // ----- matching

  function DistanceRow(policy: Policy, t: Track, contacts: seq<Contact>): (r: seq<int>)
    ensures |r| == |contacts| && forall j | 0 <= j < |contacts| :: r[j] == Distance(policy, t, contacts[j])
  {
    seq(|contacts|, j requires 0 <= j < |contacts| => Distance(policy, t, contacts[j]))
  }

  function AllDistances(policy: Policy, ts: seq<Track>, contacts: seq<Contact>): (d: Distances)
    ensures |d| == |ts| && forall i | 0 <= i < |ts| :: d[i] == DistanceRow(policy, ts[i], contacts)
    ensures GatedDistances(d, |ts|, |contacts|, Gate(policy.LowLatency?))
  {
    seq(|ts|, i requires 0 <= i < |ts| => DistanceRow(policy, ts[i], contacts))
  }

  function ActiveFlags(ts: seq<Track>): (a: seq<bool>)
    ensures |a| == |ts| && forall i | 0 <= i < |ts| :: a[i] == ts[i].active
  {
    seq(|ts|, i requires 0 <= i < |ts| => ts[i].active)
  }

  /** matched is a lexicographic optimum between the active tracks and the
      contacts: most pairs first, then least total distance. */
  ghost predicate BestMatch(policy: Policy, ts: seq<Track>, contacts: seq<Contact>, matched: seq<int>) {
    exists rows ::
      var slots := ActiveSlots(ActiveFlags(ts), |ts|);
      && SlotsWritten(matched, slots, rows, |contacts|)
      && BestRows(Rows(AllDistances(policy, ts, contacts), slots), |slots|, |contacts|, policy.LowLatency?, rows)
  }

  lemma WrittenAreActive(active: seq<bool>, rows: seq<int>, contacts: nat, matched: seq<int>)
    requires var slots := ActiveSlots(active, |active|);
             |matched| == contacts && SlotsWritten(matched, slots, rows, contacts) && Slots(|slots|, contacts, rows)
    ensures Distinct(matched) && forall j | 0 <= j < |matched| && matched[j] >= 0 :: matched[j] < |active| && active[matched[j]]
  {
    forall j, k | 0 <= j < k < |matched| && matched[j] >= 0
      ensures matched[j] != matched[k]
    {
      if matched[k] >= 0 {
        var x, y := rows[j], rows[k];
        assert x != y && (x < y || y < x);
      }
    }
  }

  lemma BestMatchIsActive(policy: Policy, ts: seq<Track>, contacts: seq<Contact>, matched: seq<int>)
    requires |ts| <= MAX_CONTACTS && |matched| == |contacts| && BestMatch(policy, ts, contacts, matched)
    ensures MatchesActive(ts, matched)
  {
    var slots := ActiveSlots(ActiveFlags(ts), |ts|);
    var rows :| SlotsWritten(matched, slots, rows, |contacts|)
                && BestRows(Rows(AllDistances(policy, ts, contacts), slots), |slots|, |contacts|, policy.LowLatency?, rows);
    WrittenAreActive(ActiveFlags(ts), rows, |contacts|, matched);
  }

  lemma ContactAtNext(placed: seq<int>, next: int)
    ensures forall slot: nat :: ContactAt(placed + [next], slot) == if next == slot then |placed| else ContactAt(placed, slot)
  {}

  /** ts are the tracks before, with those holding a contact updated from it. */
  ghost predicate AllUpdated(policy: Policy, before: seq<Track>, contacts: seq<Contact>, slotOf: seq<int>, ts: seq<Track>)
    requires |slotOf| <= |contacts|
  {
    |ts| == |before| && forall i | 0 <= i < |ts| :: ts[i] == UpdatedAt(policy, before[i], contacts, slotOf, i)
  }

  ghost function UpdatedAt(policy: Policy, t: Track, contacts: seq<Contact>, slotOf: seq<int>, slot: nat): Track
    requires |slotOf| <= |contacts|
  {
    var j := ContactAt(slotOf, slot);
    if j >= 0 then Updated(policy, t, contacts[j]) else t
  }

  /** The slots in use. */
  ghost function SlotsIn(slotOf: seq<int>): (s: set<nat>)
    ensures forall i: nat :: i in s <==> ContactAt(slotOf, i) >= 0
  {
    if slotOf == [] then {}
    else
      var s := SlotsIn(slotOf[..|slotOf| - 1]);
      if slotOf[|slotOf| - 1] < 0 then s else s + {slotOf[|slotOf| - 1]}
  }

  lemma MatchedNext(policy: Policy, before: seq<Track>, contacts: seq<Contact>, matched: seq<int>, n: nat, ts: seq<Track>)
    requires n < |contacts| == |matched| && MatchesActive(before, matched)
    requires AllUpdated(policy, before, contacts, matched[..n], ts)
    ensures var next := matched[n];
            && AllUpdated(policy, before, contacts, matched[..n] + [next],
                          if next < 0 then ts else ts[next := Updated(policy, ts[next], contacts[n])])
            && SlotsIn(matched[..n] + [next]) == SlotsIn(matched[..n]) + if next < 0 then {} else {next as nat}
  {
    var done, next := matched[..n], matched[n];
    ContactAtNext(done, next);
    assert (done + [next])[..n] == done;
    if next >= 0 {
      NotHeld(done, next);
    }
  }

  ghost predicate AllSettled(policy: Policy, held: seq<Track>, contacts: seq<Contact>, placed: seq<int>, ts: seq<Track>)
    requires |placed| <= |contacts|
  {
    |ts| == |held| && forall i | 0 <= i < |ts| :: ts[i] == Settled(policy, held, contacts, placed, i)
  }

  lemma SettleNext(policy: Policy, held: seq<Track>, contacts: seq<Contact>, placed: seq<int>, ts: seq<Track>, slot: int)
    requires |placed| < |contacts| && -1 <= slot < |held| && AllSettled(policy, held, contacts, placed, ts)
    ensures AllSettled(policy, held, contacts, placed + [slot],
                       if slot < 0 then ts
                       else ts[slot := Started(policy, contacts[|placed|], Requirement(policy, held, contacts[|placed|]))])
  {}

  ghost function NextBeats(policy: Policy, beats: seq<seq<Beat>>, held: seq<Track>, contacts: seq<Contact>,
                           matched: seq<int>, placed: seq<int>): (r: seq<seq<Beat>>)
    requires |matched| == |contacts| == |placed|
    ensures |r| == |beats|
  {
    seq(|beats|, i requires 0 <= i < |beats| => beats[i] + [BeatOf(policy, held, contacts, matched, placed, i)])
  }

  lemma CurrentNotIdle(policy: Policy, held: seq<Track>, contacts: seq<Contact>, matched: seq<int>, placed: seq<int>, beats: seq<seq<Beat>>)
    requires |matched| == |contacts| == |placed|
    ensures forall i: nat | i < |beats| ::
              var b := NextBeats(policy, beats, held, contacts, matched, placed)[i];
              b != [] && (i in SlotsIn(matched) + SlotsIn(placed) <==> !b[|b| - 1].Idle?)
  {}

  lemma FrameCollected(policy: Policy, held: seq<Track>, contacts: seq<Contact>, matched: seq<int>, placed: seq<int>,
                       beats: seq<seq<Beat>>, ts: seq<Track>, current: set<nat>)
    requires |matched| == |contacts| == |placed| && current == SlotsIn(matched) + SlotsIn(placed)
    requires AllTell(ts, NextBeats(policy, beats, held, contacts, matched, placed))
    ensures ReportsEarned(Collected(ts, current, |ts|), ts, NextBeats(policy, beats, held, contacts, matched, placed))
  {
    CurrentNotIdle(policy, held, contacts, matched, placed, beats);
    CollectedAreEarned(ts, current, NextBeats(policy, beats, held, contacts, matched, placed));
  }

  lemma FrameKeepsTelling(policy: Policy, ts: seq<Track>, contacts: seq<Contact>, matched: seq<int>, placed: seq<int>,
                          beats: seq<seq<Beat>>, ts': seq<Track>)
    requires |matched| == |contacts| == |placed| && MatchesActive(ts, matched) && AllTell(ts, beats)
    requires PlacedInOrder(CarriedAll(policy, ts, contacts, matched), matched, placed)
    requires forall c | c in contacts :: OnPanel(c)
    requires AllSettled(policy, CarriedAll(policy, ts, contacts, matched), contacts, placed, ts')
    ensures AllTell(ts', NextBeats(policy, beats, CarriedAll(policy, ts, contacts, matched), contacts, matched, placed))
  {
    forall i | 0 <= i < MAX_CONTACTS
      ensures var held := CarriedAll(policy, ts, contacts, matched);
              Tells(ts'[i], NextBeats(policy, beats, held, contacts, matched, placed)[i])
    {
      SlotKeepsTelling(policy, ts, contacts, matched, placed, beats[i], i);
    }
  }

  /** One more frame in every slot's record. */
  ghost predicate Grown(before: seq<seq<Beat>>, after: seq<seq<Beat>>) {
    |after| == |before| && forall i | 0 <= i < |before| :: |after[i]| == |before[i]| + 1 && after[i][..|before[i]|] == before[i]
  }

  lemma GrownByFrame(policy: Policy, beats: seq<seq<Beat>>, held: seq<Track>, contacts: seq<Contact>, matched: seq<int>, placed: seq<int>)
    requires |matched| == |contacts| == |placed|
    ensures Grown(beats, NextBeats(policy, beats, held, contacts, matched, placed))
  {}

  /** Exactly the active tracks outside current have coasted or expired. */
  ghost predicate Advanced(before: seq<Track>, current: set<nat>, after: seq<Track>) {
    && |after| == |before|
    && forall i: nat | i < |before| ::
         after[i] == if before[i].active && i !in current then Coasted(before[i]) else before[i]
  }

  lemma CarriedIs(policy: Policy, before: seq<Track>, contacts: seq<Contact>, matched: seq<int>, updated: seq<Track>, held: seq<Track>)
    requires |matched| == |contacts| && MatchesActive(before, matched)
    requires AllUpdated(policy, before, contacts, matched, updated) && Advanced(updated, SlotsIn(matched), held)
    ensures held == CarriedAll(policy, before, contacts, matched)
  {
    forall i: nat | i < |before|
      ensures held[i] == Carried(policy, before[i], contacts, matched, i)
    {
      assert updated[i] == UpdatedAt(policy, before[i], contacts, matched, i);
    }
  }

  // ----- motion and output, in terms of contacts

  /** Every active track moves as its record of contacts says. */
  ghost predicate AllMove(ts: seq<Track>, ms: seq<Motion>) {
    |ms| == |ts| && forall i | 0 <= i < |ts| && ts[i].active :: MovesAs(ts[i], ms[i])
  }

  ghost function NextMotion(m: Motion, contacts: seq<Contact>, matched: seq<int>, placed: seq<int>, slot: nat): Motion
    requires |matched| == |contacts| == |placed|
  {
    var j, k := ContactAt(matched, slot), ContactAt(placed, slot);
    if k >= 0 then Motion(contacts[k], contacts[k], 0)
    else if j >= 0 then Motion(m.last, contacts[j], 0)
    else m.(misses := m.misses + 1)
  }

  ghost function NextMotions(ms: seq<Motion>, contacts: seq<Contact>, matched: seq<int>, placed: seq<int>): (r: seq<Motion>)
    requires |matched| == |contacts| == |placed|
    ensures |r| == |ms|
  {
    seq(|ms|, i requires 0 <= i < |ms| => NextMotion(ms[i], contacts, matched, placed, i))
  }

  lemma SlotMoves(policy: Policy, ts: seq<Track>, contacts: seq<Contact>, matched: seq<int>, placed: seq<int>,
                  ms: seq<Motion>, slot: nat)
    requires |matched| == |contacts| == |placed| && MatchesActive(ts, matched) && AllMove(ts, ms) && slot < |ts|
    ensures var t := Settled(policy, CarriedAll(policy, ts, contacts, matched), contacts, placed, slot);
            t.active ==> MovesAs(t, NextMotion(ms[slot], contacts, matched, placed, slot))
  {
    var held := CarriedAll(policy, ts, contacts, matched);
    var j, k := ContactAt(matched, slot), ContactAt(placed, slot);
    if k >= 0 {
      StartedMoves(policy, contacts[k], Requirement(policy, held, contacts[k]));
    } else if j >= 0 {
      MatchedStayActive(policy, ts, contacts, matched, slot);
      UpdatedMoves(policy, ts[slot], ms[slot], contacts[j]);
    } else if ts[slot].active {
      CoastedMoves(ts[slot], ms[slot]);
    }
  }

  lemma FrameMoves(policy: Policy, ts: seq<Track>, contacts: seq<Contact>, matched: seq<int>, placed: seq<int>,
                   ms: seq<Motion>, after: seq<Track>)
    requires |matched| == |contacts| == |placed| && MatchesActive(ts, matched) && AllMove(ts, ms)
    requires AllSettled(policy, CarriedAll(policy, ts, contacts, matched), contacts, placed, after)
    ensures AllMove(after, NextMotions(ms, contacts, matched, placed))
  {
    forall i | 0 <= i < |ts| && after[i].active
      ensures MovesAs(after[i], NextMotion(ms[i], contacts, matched, placed, i))
    {
      SlotMoves(policy, ts, contacts, matched, placed, ms, i);
    }
  }

  /** d holds, for every active slot, its distances from where the contacts lead. */
  ghost predicate ExpectedDistances(policy: Policy, active: seq<bool>, ms: seq<Motion>, contacts: seq<Contact>, d: Distances) {
    && |d| == |active| == |ms|
    && (forall i | 0 <= i < |d| :: |d[i]| == |contacts|)
    && forall i, j | 0 <= i < |d| && active[i] && 0 <= j < |contacts| :: IsDistance(policy, ms[i], contacts[j], d[i][j])
  }

  /** matched is a lexicographic optimum over those distances. */
  ghost predicate BestExpected(policy: Policy, active: seq<bool>, ms: seq<Motion>, contacts: seq<Contact>, matched: seq<int>) {
    exists d, rows ::
      && ExpectedDistances(policy, active, ms, contacts, d)
      && SlotsWritten(matched, ActiveSlots(active, |active|), rows, |contacts|)
      && BestRows(Rows(d, ActiveSlots(active, |active|)), |ActiveSlots(active, |active|)|, |contacts|, policy.LowLatency?, rows)
  }

  lemma BestMatchIsExpected(policy: Policy, ts: seq<Track>, ms: seq<Motion>, contacts: seq<Contact>, matched: seq<int>)
    requires AllMove(ts, ms) && BestMatch(policy, ts, contacts, matched)
    ensures BestExpected(policy, ActiveFlags(ts), ms, contacts, matched)
  {
    var d, slots := AllDistances(policy, ts, contacts), ActiveSlots(ActiveFlags(ts), |ts|);
    var rows :| SlotsWritten(matched, slots, rows, |contacts|)
                && BestRows(Rows(d, slots), |slots|, |contacts|, policy.LowLatency?, rows);
    forall i, j | 0 <= i < |d| && ts[i].active && 0 <= j < |contacts|
      ensures IsDistance(policy, ms[i], contacts[j], d[i][j])
    {
      DistanceOfMotion(policy, ts[i], ms[i], contacts[j]);
    }
    assert ExpectedDistances(policy, ActiveFlags(ts), ms, contacts, d);
  }

  /** Where the outputs of matched and new tracks come from; every other track
      keeps its output. */
  ghost predicate OutputsFollow(policy: Policy, before: seq<Track>, contacts: seq<Contact>, matched: seq<int>, placed: seq<int>, after: seq<Track>)
    requires |matched| == |contacts| == |placed|
  {
    && |after| == |before|
    && (forall j | 0 <= j < |contacts| && 0 <= matched[j] < |before| ::
          && OutputFollows(policy, before[matched[j]].outputX, contacts[j].x, contacts[j].outputX, after[matched[j]].outputX)
          && OutputFollows(policy, before[matched[j]].outputY, contacts[j].y, contacts[j].outputY, after[matched[j]].outputY))
    && (forall j | 0 <= j < |contacts| && 0 <= placed[j] < |before| ::
          && after[placed[j]].outputX == (if policy.LowLatency? then contacts[j].outputX else contacts[j].x)
          && after[placed[j]].outputY == (if policy.LowLatency? then contacts[j].outputY else contacts[j].y))
    && forall s | 0 <= s < |before| && s !in matched && s !in placed && after[s].active ::
         after[s].outputX == before[s].outputX && after[s].outputY == before[s].outputY
  }

  /** The same of the reports: a report of a matched slot follows from the slot's
      output before and its contact, one of a new slot from its contact. */
  ghost predicate ReportsFollow(policy: Policy, before: seq<Track>, contacts: seq<Contact>, matched: seq<int>, placed: seq<int>, reports: seq<Report>)
    requires |matched| == |contacts| == |placed|
  {
    && (forall k, j | 0 <= k < |reports| && 0 <= j < |contacts| && matched[j] == reports[k].slot ::
          && reports[k].slot < |before|
          && OutputFollows(policy, before[matched[j]].outputX, contacts[j].x, contacts[j].outputX, reports[k].x)
          && OutputFollows(policy, before[matched[j]].outputY, contacts[j].y, contacts[j].outputY, reports[k].y))
    && forall k, j | 0 <= k < |reports| && 0 <= j < |contacts| && placed[j] == reports[k].slot ::
         && reports[k].x == (if policy.LowLatency? then contacts[j].outputX else contacts[j].x)
         && reports[k].y == (if policy.LowLatency? then contacts[j].outputY else contacts[j].y)
  }

  lemma HeldBy(slotOf: seq<int>, j: nat)
    requires Distinct(slotOf) && j < |slotOf| && slotOf[j] >= 0
    ensures ContactAt(slotOf, slotOf[j]) == j
  {
    NotHeld(slotOf, slotOf[j]);
    var k := ContactAt(slotOf, slotOf[j]);
    assert k < j || k > j || k == j;
  }

  lemma PlacedDistinct(held: seq<Track>, matched: seq<int>, placed: seq<int>)
    requires |placed| <= |matched| && PlacedInOrder(held, matched, placed)
    ensures Distinct(placed)
  {
    forall j, k | 0 <= j < k < |placed| && placed[j] >= 0
      ensures placed[j] != placed[k]
    {
      if placed[k] >= 0 {
        NotHeld(placed[..k], placed[k]);
        assert placed[..k][j] == placed[j];
      }
    }
  }

  /** A matched slot at the end of the frame is its track updated from its contact. */
  lemma MatchedAtEnd(policy: Policy, before: seq<Track>, contacts: seq<Contact>, matched: seq<int>, placed: seq<int>, after: seq<Track>, j: nat)
    requires |matched| == |contacts| == |placed| && MatchesActive(before, matched) && j < |contacts| && matched[j] >= 0
    requires PlacedInOrder(CarriedAll(policy, before, contacts, matched), matched, placed)
    requires AllSettled(policy, CarriedAll(policy, before, contacts, matched), contacts, placed, after)
    ensures matched[j] < |after| == |before| && after[matched[j]] == Updated(policy, before[matched[j]], contacts[j])
  {
    var held, s := CarriedAll(policy, before, contacts, matched), matched[j];
    HeldBy(matched, j);
    MatchedStayActive(policy, before, contacts, matched, s);
    if ContactAt(placed, s) >= 0 {
      PlacedAreFree(held, matched, placed, s);
    }
    assert after[s] == Settled(policy, held, contacts, placed, s);
  }

  lemma PlacedAtEnd(policy: Policy, held: seq<Track>, contacts: seq<Contact>, matched: seq<int>, placed: seq<int>, after: seq<Track>, j: nat)
    requires |matched| == |contacts| == |placed| && j < |contacts| && 0 <= placed[j] < |held|
    requires PlacedInOrder(held, matched, placed) && AllSettled(policy, held, contacts, placed, after)
    ensures |after| == |held| && after[placed[j]] == Started(policy, contacts[j], Requirement(policy, held, contacts[j]))
  {
    PlacedDistinct(held, matched, placed);
    HeldBy(placed, j);
    assert after[placed[j]] == Settled(policy, held, contacts, placed, placed[j]);
  }

  lemma FrameOutputs(policy: Policy, before: seq<Track>, contacts: seq<Contact>, matched: seq<int>, placed: seq<int>, after: seq<Track>)
    requires |matched| == |contacts| == |placed| && MatchesActive(before, matched)
    requires PlacedInOrder(CarriedAll(policy, before, contacts, matched), matched, placed)
    requires AllSettled(policy, CarriedAll(policy, before, contacts, matched), contacts, placed, after)
    ensures OutputsFollow(policy, before, contacts, matched, placed, after)
  {
    forall j | 0 <= j < |contacts| && 0 <= matched[j] < |before|
      ensures OutputFollows(policy, before[matched[j]].outputX, contacts[j].x, contacts[j].outputX, after[matched[j]].outputX)
      ensures OutputFollows(policy, before[matched[j]].outputY, contacts[j].y, contacts[j].outputY, after[matched[j]].outputY)
    {
      MatchedAtEnd(policy, before, contacts, matched, placed, after, j);
      UpdatedOutput(policy, before[matched[j]], contacts[j]);
    }
    forall j | 0 <= j < |contacts| && 0 <= placed[j] < |before|
      ensures after[placed[j]].outputX == if policy.LowLatency? then contacts[j].outputX else contacts[j].x
      ensures after[placed[j]].outputY == if policy.LowLatency? then contacts[j].outputY else contacts[j].y
    {
      PlacedAtEnd(policy, CarriedAll(policy, before, contacts, matched), contacts, matched, placed, after, j);
    }
    forall s: nat | s < |before| && s !in matched && s !in placed && after[s].active
      ensures after[s].outputX == before[s].outputX && after[s].outputY == before[s].outputY
    {
      assert after[s] == Settled(policy, CarriedAll(policy, before, contacts, matched), contacts, placed, s);
    }
  }

  lemma FrameReports(policy: Policy, before: seq<Track>, contacts: seq<Contact>, matched: seq<int>, placed: seq<int>,
                     after: seq<Track>, beats: seq<seq<Beat>>, reports: seq<Report>)
    requires |matched| == |contacts| == |placed| && OutputsFollow(policy, before, contacts, matched, placed, after)
    requires |after| == |beats| && ReportsEarned(reports, after, beats)
    ensures ReportsFollow(policy, before, contacts, matched, placed, reports)
  {
    forall k | 0 <= k < |reports|
      ensures ReportOf(reports[k], after, beats)
    {}
  }

  class TrackTable {
    const policy: Policy
    const tracks: array<Track>
    const contactSlots: array<int>
    const w: Workspace
    /** What each slot has seen since the table was last cleared. */
    ghost var beats: seq<seq<Beat>>
    /** The contacts each active track was matched to last. */
    ghost var motions: seq<Motion>

    ghost predicate Valid()
      reads this, tracks
    {
      && tracks.Length == MAX_CONTACTS && contactSlots.Length == MAX_CONTACTS
      && w.Valid() && w.cap == 2 * MAX_CONTACTS
      && contactSlots != w.u && contactSlots != w.v && contactSlots != w.p
      && contactSlots != w.way && contactSlots != w.minv
      && AllTell(tracks[..], beats) && AllMove(tracks[..], motions)
    }

    constructor (policy: Policy)
      ensures Valid() && this.policy == policy && beats == seq(MAX_CONTACTS, _ => [])
      ensures fresh(tracks) && fresh(contactSlots)
    {
      this.policy := policy;
      tracks := new Track[MAX_CONTACTS](_ => BLANK);
      w := new Workspace(2 * MAX_CONTACTS);
      contactSlots := new int[MAX_CONTACTS](_ => -1);
      beats, motions := seq(MAX_CONTACTS, _ => []), seq(MAX_CONTACTS, _ => STILL);
    }

    /** The memset of g6ts_release_contacts: nothing seen before counts again. */
    method Release()
      requires Valid()
      modifies tracks, this`beats
      ensures Valid() && beats == seq(MAX_CONTACTS, _ => [])
      ensures forall i | 0 <= i < tracks.Length :: tracks[i] == BLANK
    {
      for i := 0 to tracks.Length
        invariant forall k | 0 <= k < i :: tracks[k] == BLANK
      {
        tracks[i] := BLANK;
      }
      beats := seq(MAX_CONTACTS, _ => []);
    }

    /** Assignment of the frame's contacts to the active tracks. */
    method Assign(contacts: seq<Contact>) returns (matched: seq<int>)
      requires Valid() && |contacts| <= MAX_CONTACTS
      modifies w.cost, w.u, w.v, w.p, w.way, w.minv, w.used, contactSlots
      ensures |matched| == |contacts| && BestMatch(policy, tracks[..], contacts, matched)
      ensures BestExpected(policy, ActiveFlags(tracks[..]), motions, contacts, matched)
    {
      var ts := tracks[..];
      var matches, rows := AssignTracks(w, ActiveFlags(ts), AllDistances(policy, ts, contacts), |contacts|, policy.LowLatency?, contactSlots);
      matched := contactSlots[..|contacts|];
      ghost var slots := ActiveSlots(ActiveFlags(ts), |ts|);
      assert SlotsWritten(matched, slots, rows, |contacts|);
      assert BestMatch(policy, ts, contacts, matched);
      BestMatchIsExpected(policy, ts, motions, contacts, matched);
    }

    /** The update of contact n's track, when it has one. */
    method UpdateOne(contacts: seq<Contact>, matched: seq<int>, n: nat, ghost before: seq<Track>)
      requires n < |matched| == |contacts| && |before| == tracks.Length && MatchesActive(before, matched)
      requires AllUpdated(policy, before, contacts, matched[..n], tracks[..])
      modifies tracks
      ensures AllUpdated(policy, before, contacts, matched[..n + 1], tracks[..])
    {
      ghost var now := tracks[..];
      assert matched[..n + 1] == matched[..n] + [matched[n]];
      MatchedNext(policy, before, contacts, matched, n, now);
      if matched[n] >= 0 {
        var slot: nat := matched[n];
        tracks[slot] := Updated(policy, tracks[slot], contacts[n]);
        assert tracks[..] == now[slot := Updated(policy, now[slot], contacts[n])];
      }
    }

    /** First loop of g6ts_report_heat_contacts. */
    method UpdateMatched(contacts: seq<Contact>, matched: seq<int>) returns (current: set<nat>)
      requires |matched| == |contacts| && tracks.Length == MAX_CONTACTS
      requires MatchesActive(tracks[..], matched)
      modifies tracks
      ensures AllUpdated(policy, old(tracks[..]), contacts, matched, tracks[..])
      ensures current == SlotsIn(matched)
    {
      current := {};
      ghost var before := tracks[..];
      for n := 0 to |contacts|
        invariant AllUpdated(policy, before, contacts, matched[..n], tracks[..])
        invariant current == SlotsIn(matched[..n])
      {
        UpdateOne(contacts, matched, n, before);
        if matched[n] >= 0 {
          current := current + {matched[n]};
        }
        assert matched[..n + 1] == matched[..n] + [matched[n]];
      }
      assert matched[..|contacts|] == matched;
    }

    /** g6ts_advance_unmatched_tracks. */
    method AdvanceUnmatched(current: set<nat>)
      modifies tracks
      ensures Advanced(old(tracks[..]), current, tracks[..])
    {
      for n := 0 to tracks.Length
        invariant forall i: nat | i < tracks.Length ::
                    tracks[i] == if i < n && old(tracks[i]).active && i !in current
                                 then Coasted(old(tracks[i])) else old(tracks[i])
      {
        if tracks[n].active && n !in current {
          tracks[n] := Coasted(tracks[n]);
        }
      }
    }

    /** g6ts_confirmation_requirement. */
    method ConfirmationRequirement(contact: Contact) returns (required: nat)
      ensures required == Requirement(policy, tracks[..], contact)
    {
      required := CONFIRM_NORMAL;
      if policy.LowLatency? {
        required := CONFIRM_LOW_LATENCY;
      }
      if contact.pixels < MIN_PIXELS {
        required := CONFIRM_WEAK;
      }
      if !contact.shapeAllowed && required < CONFIRM_WEAK {
        required := CONFIRM_WEAK;
      }
      assert tracks[..0] == [];
      for i := 0 to tracks.Length
        invariant required == Requirement(policy, tracks[..i], contact)
      {
        RequirementStep(tracks[..i], tracks[i], contact);
        assert tracks[..i + 1] == tracks[..i] + [tracks[i]];
        if !tracks[i].active || !tracks[i].confirmed || tracks[i].missed != 0 {
          continue;
        }
        if Squared(tracks[i].rawX - contact.x, tracks[i].rawY - contact.y) > SPLIT_RADIUS * SPLIT_RADIUS {
          continue;
        }
        if required < CONFIRM_WEAK {
          required := CONFIRM_WEAK;
        }
        if contact.strength * 2 <= tracks[i].strength || contact.pixels * 2 <= tracks[i].pixels {
          required := CONFIRM_SPLIT;
        }
      }
      assert tracks[..tracks.Length] == tracks[..];
    }

    /** g6ts_new_track: the first free slot, or -1. */
    method NewTrack(contact: Contact) returns (slot: int)
      modifies tracks
      ensures -1 <= slot < tracks.Length
      ensures slot < 0 ==> unchanged(tracks) && forall i | 0 <= i < tracks.Length :: tracks[i].active
      ensures slot >= 0 ==>
                && !old(tracks[slot].active) && (forall i | 0 <= i < slot :: old(tracks[i].active))
                && tracks[..] == old(tracks[..])[slot := Started(policy, contact, Requirement(policy, old(tracks[..]), contact))]
    {
      slot := 0;
      while slot < tracks.Length && tracks[slot].active
        invariant 0 <= slot <= tracks.Length && forall i | 0 <= i < slot :: tracks[i].active
      {
        slot := slot + 1;
      }
      if slot == tracks.Length {
        return -1;
      }
      ghost var before := tracks[..];
      tracks[slot] := BLANK;
      SameRequirement(policy, before, tracks[..], contact);
      var required := ConfirmationRequirement(contact);
      tracks[slot] := Started(policy, contact, required);
    }

    /** One round of g6ts_create_unmatched_tracks. */
    method Place(contacts: seq<Contact>, matched: seq<int>, ghost held: seq<Track>, placed: seq<int>) returns (slot: int)
      requires |placed| < |contacts| == |matched| && PlacedInOrder(held, matched, placed)
      requires AllSettled(policy, held, contacts, placed, tracks[..])
      modifies tracks
      ensures -1 <= slot < tracks.Length && PlacedInOrder(held, matched, placed + [slot])
      ensures AllSettled(policy, held, contacts, placed + [slot], tracks[..])
    {
      ghost var ts := tracks[..];
      var contact := contacts[|placed|];
      FreeIsInactive(policy, held, contacts, matched, placed, ts);
      SettledRequirement(policy, held, contacts, placed, ts, contact);
      slot := -1;
      if matched[|placed|] < 0 {
        slot := NewTrack(contact);
      }
      assert tracks[..] == if slot < 0 then ts else ts[slot := Started(policy, contact, Requirement(policy, held, contact))];
      PlaceNext(held, matched, placed, slot);
      SettleNext(policy, held, contacts, placed, ts, slot);
    }

    /** g6ts_create_unmatched_tracks. */
    method CreateUnmatched(contacts: seq<Contact>, matched: seq<int>, before: set<nat>)
      returns (placed: seq<int>, current: set<nat>)
      requires |matched| == |contacts|
      modifies tracks
      ensures |placed| == |contacts| && PlacedInOrder(old(tracks[..]), matched, placed)
      ensures AllSettled(policy, old(tracks[..]), contacts, placed, tracks[..])
      ensures current == before + SlotsIn(placed)
    {
      placed, current := [], before;
      ghost var held := tracks[..];
      for n := 0 to |contacts|
        invariant |placed| == n && PlacedInOrder(held, matched, placed)
        invariant AllSettled(policy, held, contacts, placed, tracks[..])
        invariant current == before + SlotsIn(placed)
      {
        var slot := Place(contacts, matched, held, placed);
        if slot >= 0 {
          current := current + {slot};
        }
        assert (placed + [slot])[..n] == placed;
        placed := placed + [slot];
      }
    }

    /** g6ts_collect_linux_contacts. */
    method Collect(current: set<nat>) returns (reports: seq<Report>)
      ensures reports == Collected(tracks[..], current, tracks.Length)
    {
      reports := [];
      for i := 0 to tracks.Length
        invariant reports == Collected(tracks[..], current, i)
      {
        var t := tracks[i];
        if t.active && t.confirmed && i in current {
          reports := reports + [Report(i, t.outputX, t.outputY)];
        }
      }
    }

    /** Every active track is updated from its contact, or coasts or expires. */
    method CarryTracks(contacts: seq<Contact>, matched: seq<int>) returns (current: set<nat>)
      requires |matched| == |contacts| && tracks.Length == MAX_CONTACTS && MatchesActive(tracks[..], matched)
      modifies tracks
      ensures tracks[..] == CarriedAll(policy, old(tracks[..]), contacts, matched) && current == SlotsIn(matched)
    {
      ghost var before := tracks[..];
      current := UpdateMatched(contacts, matched);
      ghost var updated := tracks[..];
      AdvanceUnmatched(current);
      CarriedIs(policy, before, contacts, matched, updated, tracks[..]);
    }

    /** The frame up to the unmatched lifecycle: match, update, coast or expire. */
    method MatchAndCarry(contacts: seq<Contact>) returns (matched: seq<int>, current: set<nat>)
      requires Valid() && |contacts| <= MAX_CONTACTS
      modifies tracks, w.cost, w.u, w.v, w.p, w.way, w.minv, w.used, contactSlots
      ensures |matched| == |contacts| && BestMatch(policy, old(tracks[..]), contacts, matched)
      ensures BestExpected(policy, ActiveFlags(old(tracks[..])), motions, contacts, matched)
      ensures MatchesActive(old(tracks[..]), matched) && current == SlotsIn(matched)
      ensures tracks[..] == CarriedAll(policy, old(tracks[..]), contacts, matched)
    {
      ghost var before := tracks[..];
      matched := Assign(contacts);
      BestMatchIsActive(policy, before, contacts, matched);
      current := CarryTracks(contacts, matched);
    }

    /** g6ts_report_heat_contacts after the contacts are found.  The new state
        is a function of the old tracks, the match and the placement; exactly
        the slots that have earned it are reported. */
    method Frame(contacts: seq<Contact>) returns (matched: seq<int>, placed: seq<int>, reports: seq<Report>)
      requires Valid() && |contacts| <= MAX_CONTACTS && forall c | c in contacts :: OnPanel(c)
      modifies tracks, w.cost, w.u, w.v, w.p, w.way, w.minv, w.used, contactSlots, this`beats, this`motions
      ensures Valid()
      ensures |matched| == |contacts| == |placed|
      ensures BestMatch(policy, old(tracks[..]), contacts, matched)
      ensures var held := CarriedAll(policy, old(tracks[..]), contacts, matched);
              && PlacedInOrder(held, matched, placed)
              && AllSettled(policy, held, contacts, placed, tracks[..])
              && beats == NextBeats(policy, old(beats), held, contacts, matched, placed)
      ensures ReportsEarned(reports, tracks[..], beats)
      ensures BestExpected(policy, ActiveFlags(old(tracks[..])), old(motions), contacts, matched)
      ensures motions == NextMotions(old(motions), contacts, matched, placed)
      ensures OutputsFollow(policy, old(tracks[..]), contacts, matched, placed, tracks[..])
      ensures ReportsFollow(policy, old(tracks[..]), contacts, matched, placed, reports)
    {
      ghost var before, seen := tracks[..], beats;
      var current;
      matched, current := MatchAndCarry(contacts);
      ghost var held := tracks[..];
      placed, current := CreateUnmatched(contacts, matched, current);
      beats := NextBeats(policy, seen, held, contacts, matched, placed);
      FrameKeepsTelling(policy, before, contacts, matched, placed, seen, tracks[..]);
      FrameMoves(policy, before, contacts, matched, placed, motions, tracks[..]);
      FrameOutputs(policy, before, contacts, matched, placed, tracks[..]);
      motions := NextMotions(motions, contacts, matched, placed);
      reports := Collect(current);
      FrameCollected(policy, held, contacts, matched, placed, seen, tracks[..], current);
      FrameReports(policy, before, contacts, matched, placed, tracks[..], beats, reports);
    }

    /** The frame as its caller sees it: every slot's record grows by one frame. */
    method ReportContacts(contacts: seq<Contact>) returns (reports: seq<Report>)
      requires Valid() && |contacts| <= MAX_CONTACTS && forall c | c in contacts :: OnPanel(c)
      modifies tracks, w.cost, w.u, w.v, w.p, w.way, w.minv, w.used, contactSlots, this`beats, this`motions
      ensures Valid() && Grown(old(beats), beats) && ReportsEarned(reports, tracks[..], beats)
    {
      ghost var before, held := beats, tracks[..];
      var matched, placed;
      matched, placed, reports := Frame(contacts);
      GrownByFrame(policy, before, CarriedAll(policy, held, contacts, matched), contacts, matched, placed);
    }
  }

  lemma RequirementStep(ts: seq<Track>, t: Track, c: Contact)
    ensures AnyBeside(ts + [t], c) <==> AnyBeside(ts, c) || Beside(t, c)
    ensures AnyFragment(ts + [t], c) <==> AnyFragment(ts, c) || Fragment(t, c)
  {
    var more := ts + [t];
    assert more[|ts|] == t;
    assert forall i | 0 <= i < |ts| :: more[i] == ts[i];
  }

  ghost predicate SameNeighbour(t: Track, u: Track, c: Contact) {
    (Beside(t, c) <==> Beside(u, c)) && (Fragment(t, c) <==> Fragment(u, c))
  }

  lemma SameRequirement(policy: Policy, ts: seq<Track>, us: seq<Track>, c: Contact)
    requires |ts| == |us| && forall i | 0 <= i < |ts| :: SameNeighbour(ts[i], us[i], c)
    ensures Requirement(policy, ts, c) == Requirement(policy, us, c)
  {}

  /** Tracks started in this frame are unconfirmed, so they are nobody's neighbour. */
  lemma SettledRequirement(policy: Policy, held: seq<Track>, contacts: seq<Contact>, placed: seq<int>, ts: seq<Track>, c: Contact)
    requires |placed| <= |contacts| && AllSettled(policy, held, contacts, placed, ts)
    requires forall i | 0 <= i < |ts| && ContactAt(placed, i) >= 0 :: !held[i].active
    ensures Requirement(policy, ts, c) == Requirement(policy, held, c)
  {
    SameRequirement(policy, ts, held, c);
  }

  lemma FreeIsInactive(policy: Policy, held: seq<Track>, contacts: seq<Contact>, matched: seq<int>, placed: seq<int>, ts: seq<Track>)
    requires |placed| <= |matched| == |contacts| && PlacedInOrder(held, matched, placed)
    requires AllSettled(policy, held, contacts, placed, ts)
    ensures forall i | 0 <= i < |held| && ContactAt(placed, i) >= 0 :: !held[i].active
    ensures forall i | 0 <= i < |held| :: Free(held, placed, |placed|, i) <==> !ts[i].active
  {
    assert placed[..|placed|] == placed;
    forall i | 0 <= i < |held| && ContactAt(placed, i) >= 0
      ensures !held[i].active
    {
      PlacedAreFree(held, matched, placed, i);
    }
  }

  /** One more contact placed, or found to need no place. */
  lemma PlaceNext(held: seq<Track>, matched: seq<int>, placed: seq<int>, slot: int)
    requires |placed| < |matched| && PlacedInOrder(held, matched, placed) && -1 <= slot < |held|
    requires if matched[|placed|] >= 0 then slot == -1
             else if slot >= 0 then Free(held, placed, |placed|, slot) && forall i | 0 <= i < slot :: !Free(held, placed, |placed|, i)
             else forall i | 0 <= i < |held| :: !Free(held, placed, |placed|, i)
    ensures PlacedInOrder(held, matched, placed + [slot])
  {
    var more := placed + [slot];
    forall j, i | 0 <= j <= |placed| && 0 <= i < |held|
      ensures Free(held, more, j, i) <==> Free(held, placed, j, i)
    {
      assert more[..j] == placed[..j];
    }
    forall j | 0 <= j < |placed|
      ensures FirstFree(held, more, j) <==> FirstFree(held, placed, j)
    {}
  }
}
