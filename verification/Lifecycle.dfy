/** The life of one track slot: what it has seen, frame by frame, and when that
    earns it a place in the output. */
module Lifecycle {
  import opened Numbers
  import opened Padding
  import opened TrackAssignment
  import Positions

  const HOLD_FRAMES: nat := 6
  const CONFIRM_NORMAL: nat := 3
  const CONFIRM_LOW_LATENCY: nat := 2
  const CONFIRM_WEAK: nat := 5
  const CONFIRM_SPLIT: nat := 8
  const MIN_PIXELS: nat := 3
  const LOGICAL_MAX: nat := 32767
  const SPLIT_RADIUS: nat := 2048
  const STATIONARY_MAX: nat := 64
  const SLOW_MAX: nat := 256

  // ----- what a slot saw

  /** One frame of one slot: no contact, a contact matched to its track, or a
      contact that started a new track. */
  datatype Beat = Idle | Seen(allowed: bool) | Born(allowed: bool, required: nat)

  ghost predicate Counts(beat: Beat) {
    !beat.Idle? && beat.allowed
  }

  /** Frame k started the slot's latest track. */
  ghost predicate BornAt(b: seq<Beat>, k: int) {
    0 <= k < |b| && b[k].Born? && forall t | k < t < |b| :: !b[t].Born?
  }

  ghost predicate IdleRun(b: seq<Beat>, t: nat, n: nat) {
    t + n <= |b| && forall x | t <= x < t + n :: b[x].Idle?
  }

  /** More idle frames in a row than a track is held for, from frame t on. */
  ghost predicate LongGap(b: seq<Beat>, t: nat, hold: nat) {
    IdleRun(b, t, hold + 1)
  }

  /** From frame k on the slot was never idle for more than hold frames in a row. */
  ghost predicate NoLongGap(b: seq<Beat>, k: nat, hold: nat) {
    forall t: nat | k <= t :: !LongGap(b, t, hold)
  }

  /** Frames from k on that showed the slot a contact of allowed shape. */
  ghost function Sightings(b: seq<Beat>, k: nat): nat {
    if |b| <= k then 0
    else Sightings(b[..|b| - 1], k) + if Counts(b[|b| - 1]) then 1 else 0
  }

  /** Frames from k on that showed the slot any contact. */
  ghost function Showings(b: seq<Beat>, k: nat): nat {
    if |b| <= k then 0
    else Showings(b[..|b| - 1], k) + if b[|b| - 1].Idle? then 0 else 1
  }

  ghost predicate EarnedSince(b: seq<Beat>, k: nat, hold: nat) {
    BornAt(b, k) && NoLongGap(b, k, hold) && Sightings(b, k) >= b[k].required
  }

  /** The slot shows a contact in the latest frame, belongs to a track that
      never went missing for long, and has seen the evidence that track needs. */
  ghost predicate Earned(b: seq<Beat>, hold: nat) {
    b != [] && !b[|b| - 1].Idle? && exists k: nat :: EarnedSince(b, k, hold)
  }

  // ----- running summary

  ghost function Quiet(b: seq<Beat>): nat {
    if b == [] || !b[|b| - 1].Idle? then 0 else Quiet(b[..|b| - 1]) + 1
  }

  ghost function Alive(b: seq<Beat>, hold: nat): bool {
    b != [] &&
    (b[|b| - 1].Born? || (Alive(b[..|b| - 1], hold) && Quiet(b) <= hold))
  }

  ghost function Birth(b: seq<Beat>): (k: int)
    ensures -1 <= k < |b|
  {
    if b == [] then -1 else if b[|b| - 1].Born? then |b| - 1 else Birth(b[..|b| - 1])
  }

  ghost function Evidence(b: seq<Beat>): nat {
    if b == [] then 0
    else
      (if Counts(b[|b| - 1]) then 1 else 0)
      + if b[|b| - 1].Born? then 0 else Evidence(b[..|b| - 1])
  }

  ghost function Required(b: seq<Beat>): nat {
    if b == [] then 0
    else if b[|b| - 1].Born? then b[|b| - 1].required
    else Required(b[..|b| - 1])
  }

  ghost function Age(b: seq<Beat>): nat {
    if b == [] then 0
    else if b[|b| - 1].Born? then 1
    else Age(b[..|b| - 1]) + if b[|b| - 1].Idle? then 0 else 1
  }

  lemma {:induction false} BirthIsLatest(b: seq<Beat>)
    ensures forall k :: BornAt(b, k) <==> k == Birth(b) && k >= 0
    ensures Birth(b) >= 0 ==> b[Birth(b)].Born? && b[Birth(b)].required == Required(b)
    ensures Birth(b) >= 0 ==> Evidence(b) == Sightings(b, Birth(b)) && Age(b) == Showings(b, Birth(b))
  {
    if b != [] {
      var rest := b[..|b| - 1];
      BirthIsLatest(rest);
      if b[|b| - 1].Born? {
        assert Sightings(rest, |b| - 1) == 0 && Showings(rest, |b| - 1) == 0;
      } else {
        forall k | 0 <= k < |b|
          ensures BornAt(b, k) <==> BornAt(rest, k)
        {
          assert b[|b| - 1] == b[|rest|];
        }
      }
    }
  }

  lemma {:induction false} QuietRuns(b: seq<Beat>, n: nat)
    ensures Quiet(b) <= |b|
    ensures n <= |b| ==> (IdleRun(b, |b| - n, n) <==> n <= Quiet(b))
  {
    if b != [] {
      var rest := b[..|b| - 1];
      if n > 0 {
        QuietRuns(rest, n - 1);
        if n <= |b| && IdleRun(b, |b| - n, n) {
          assert IdleRun(rest, |rest| - (n - 1), n - 1);
        }
      } else {
        QuietRuns(rest, 0);
      }
    }
  }

  /** A gap ends with the last frame or lies in the frames before. */
  lemma GapStep(b: seq<Beat>, k: nat, hold: nat)
    requires b != [] && k < |b|
    ensures NoLongGap(b, k, hold) <==>
              NoLongGap(b[..|b| - 1], k, hold) && (Quiet(b) <= hold || |b| - (hold + 1) < k)
  {
    var rest, n := b[..|b| - 1], hold + 1;
    QuietRuns(b, n);
    forall t: nat | k <= t
      ensures LongGap(b, t, hold) <==> LongGap(rest, t, hold) || (t + n == |b| && LongGap(b, |b| - n, hold))
    {
      assert t + n < |b| ==> forall x | t <= x < t + n :: b[x] == rest[x];
    }
    if n <= |b| && k <= |b| - n && n <= Quiet(b) {
      assert LongGap(b, |b| - n, hold);
    }
  }

  lemma {:induction false} QuietSinceBirth(b: seq<Beat>)
    requires Birth(b) >= 0
    ensures Quiet(b) <= |b| - 1 - Birth(b)
  {
    if !b[|b| - 1].Born? {
      QuietSinceBirth(b[..|b| - 1]);
    }
  }

  lemma {:induction false} AliveMeansNoLongGap(b: seq<Beat>, hold: nat)
    ensures Alive(b, hold) <==> Birth(b) >= 0 && NoLongGap(b, Birth(b), hold)
  {
    if b != [] {
      var rest := b[..|b| - 1];
      AliveMeansNoLongGap(rest, hold);
      if b[|b| - 1].Born? {
        GapStep(b, |b| - 1, hold);
        assert NoLongGap(rest, |b| - 1, hold);
      } else if Birth(rest) >= 0 {
        GapStep(b, Birth(b), hold);
        QuietSinceBirth(b);
      }
    }
  }

  /** What the running summary decides is the plain statement. */
  lemma EarnedBySummary(b: seq<Beat>, hold: nat)
    ensures Earned(b, hold) <==>
              b != [] && !b[|b| - 1].Idle? && Alive(b, hold) && Evidence(b) >= Required(b)
  {
    BirthIsLatest(b);
    AliveMeansNoLongGap(b, hold);
    if Birth(b) >= 0 {
      var k: nat := Birth(b);
      assert BornAt(b, k);
      assert EarnedSince(b, k, hold) <==> Alive(b, hold) && Evidence(b) >= Required(b);
    }
  }

  // ----- the track record

  /** What the tracker uses of a contact: logical and sensor position, the
      output position of the low-latency policy, size and shape. */
  datatype Contact = Contact(x: nat, y: nat, outputX: nat, outputY: nat, sensorX: nat, sensorY: nat,
                             strength: nat, pixels: nat, shapeAllowed: bool)

  /** The default policy, or the opt-in low-latency one (behavior_v2). */
  datatype Policy = Standard | LowLatency

  datatype Track = Track(
    active: bool,
    confirmed: bool,
    rawX: nat,
    rawY: nat,
    outputX: nat,
    outputY: nat,
    velocityX: int,
    velocityY: int,
    sensorX: nat,
    sensorY: nat,
    sensorVelocityX: int,
    sensorVelocityY: int,
    strength: nat,
    pixels: nat,
    age: nat,
    missed: nat,
    evidence: nat,
    required: nat
  )

  /** Position of the last column and row, in Q24. */
  const SENSOR_X_MAX: nat := (Positions.COLS - 1) * Positions.TWO24
  const SENSOR_Y_MAX: nat := (Positions.ROWS - 1) * Positions.TWO24

  /** A zeroed record. */
  const BLANK: Track := Track(false, false, 0, 0, 0, 0, 0, 0, 0, 0, 0, 0, 0, 0, 0, 0, 0, 0)

  ghost predicate OnPanel(c: Contact) {
    && c.x <= LOGICAL_MAX && c.y <= LOGICAL_MAX && c.outputX <= LOGICAL_MAX && c.outputY <= LOGICAL_MAX
    && c.sensorX <= SENSOR_X_MAX && c.sensorY <= SENSOR_Y_MAX
  }

  /** Every field fits the width the driver stores it in. */
  ghost predicate InRange(t: Track) {
    && t.rawX <= LOGICAL_MAX && t.rawY <= LOGICAL_MAX
    && t.outputX <= LOGICAL_MAX && t.outputY <= LOGICAL_MAX
    && 0 - LOGICAL_MAX <= t.velocityX <= LOGICAL_MAX && 0 - LOGICAL_MAX <= t.velocityY <= LOGICAL_MAX
    && t.sensorX <= SENSOR_X_MAX && t.sensorY <= SENSOR_Y_MAX
    && 0 - SENSOR_X_MAX <= t.sensorVelocityX <= SENSOR_X_MAX && 0 - SENSOR_Y_MAX <= t.sensorVelocityY <= SENSOR_Y_MAX
    && t.age <= 65535 && t.missed <= HOLD_FRAMES && t.evidence <= 255 && t.required <= 255
  }

  /** The record agrees with what the slot has seen. */
  ghost predicate Tells(t: Track, b: seq<Beat>) {
    && InRange(t)
    && t.active == Alive(b, HOLD_FRAMES)
    && (t.active ==>
          && t.missed == Quiet(b) && t.age == Min(65535, Age(b))
          && t.required == Required(b)
          && (t.confirmed <==> Evidence(b) >= Required(b))
          && (!t.confirmed ==> t.evidence == Evidence(b)))
  }

  function FilterCoordinate(previous: nat, sample: nat): (r: nat)
    ensures previous <= sample ==> previous <= r <= sample
    ensures sample <= previous ==> sample <= r <= previous
    ensures previous > sample + SLOW_MAX || sample > previous + SLOW_MAX ==> r == sample
  {
    var delta := if previous > sample then previous - sample else sample - previous;
    if delta <= STATIONARY_MAX then (3 * previous + sample + 2) / 4
    else if delta <= SLOW_MAX then (previous + 3 * sample + 2) / 4
    else sample
  }

  /** C division by two, which rounds towards zero. */
  function Halve(v: int): (r: int)
    ensures v >= 0 ==> 0 <= r && v - 1 <= 2 * r <= v
    ensures v <= 0 ==> r <= 0 && v <= 2 * r <= v + 1
  {
    if v >= 0 then v / 2 else 0 - (0 - v) / 2
  }

  /** g6ts_update_track. */
  function Updated(policy: Policy, t: Track, c: Contact): (r: Track) {
    var counted := !t.confirmed && c.shapeAllowed && t.evidence < 255;
    var evidence := if counted then t.evidence + 1 else t.evidence;
    t.(rawX := c.x, rawY := c.y,
       velocityX := c.x - t.rawX, velocityY := c.y - t.rawY,
       sensorX := c.sensorX, sensorY := c.sensorY,
       sensorVelocityX := c.sensorX - t.sensorX, sensorVelocityY := c.sensorY - t.sensorY,
       outputX := if policy.LowLatency? then c.outputX else FilterCoordinate(t.outputX, c.x),
       outputY := if policy.LowLatency? then c.outputY else FilterCoordinate(t.outputY, c.y),
       strength := c.strength, pixels := c.pixels,
       age := if t.age < 65535 then t.age + 1 else t.age,
       evidence := evidence,
       confirmed := t.confirmed || (counted && evidence >= t.required),
       missed := 0)
  }

  /** One frame of g6ts_advance_unmatched_tracks for an active track. */
  function Coasted(t: Track): (r: Track) {
    if t.missed < HOLD_FRAMES then
      t.(missed := t.missed + 1, velocityX := Halve(t.velocityX), velocityY := Halve(t.velocityY),
         sensorVelocityX := Halve(t.sensorVelocityX), sensorVelocityY := Halve(t.sensorVelocityY))
    else BLANK
  }

  /** g6ts_new_track. */
  function Started(policy: Policy, c: Contact, required: nat): (r: Track) {
    Track(true, required <= 1, c.x, c.y,
          if policy.LowLatency? then c.outputX else c.x, if policy.LowLatency? then c.outputY else c.y,
          0, 0, c.sensorX, c.sensorY, 0, 0, c.strength, c.pixels, 1, 0,
          if c.shapeAllowed then 1 else 0, required)
  }

  lemma SummarySnoc(b: seq<Beat>, beat: Beat)
    ensures (b + [beat])[..|b + [beat]| - 1] == b
  {}

  lemma SeenKeeps(policy: Policy, t: Track, b: seq<Beat>, c: Contact)
    requires Tells(t, b) && t.active && OnPanel(c)
    ensures Tells(Updated(policy, t, c), b + [Seen(c.shapeAllowed)])
  {}

  lemma IdleKeeps(t: Track, b: seq<Beat>)
    requires Tells(t, b)
    ensures Tells(if t.active then Coasted(t) else t, b + [Idle])
  {}

  lemma BornKeeps(policy: Policy, c: Contact, required: nat, b: seq<Beat>)
    requires OnPanel(c) && 1 < required <= 255
    ensures Tells(Started(policy, c, required), b + [Born(c.shapeAllowed, required)])
  {}

  // ----- distance

  function Clamp(v: int, top: nat): (r: nat)
    ensures r <= top && (0 <= v <= top ==> r == v)
  {
    if v < 0 then 0 else if v > top then top else v
  }

  function Squared(x: int, y: int): (r: nat)
    ensures r == x * x + y * y
  {
    assert x * x >= 0 && y * y >= 0;
    x * x + y * y
  }

  /** Square of how far the contact is from where the track is expected. */
  function SquaredGap(t: Track, c: Contact): nat {
    Squared(Clamp(t.rawX + t.velocityX, LOGICAL_MAX) - c.x, Clamp(t.rawY + t.velocityY, LOGICAL_MAX) - c.y)
  }

  /** The same between assignment coordinates of the sensor positions. */
  function SquaredSensorGap(t: Track, c: Contact): nat {
    Squared(AssignmentX(Clamp(t.sensorX + t.sensorVelocityX, SENSOR_X_MAX)) - AssignmentX(c.sensorX),
            AssignmentY(Clamp(t.sensorY + t.sensorVelocityY, SENSOR_Y_MAX)) - AssignmentY(c.sensorY))
  }

  function AssignmentX(q24: nat): int {
    Positions.AssignmentCoordinate(q24, Positions.X_SCALE_Q24)
  }

  function AssignmentY(q24: nat): int {
    Positions.AssignmentCoordinate(q24, Positions.Y_SCALE_Q24)
  }

  /** g6ts_track_distance: the root of the squared gap when it is within the
      gate, or the squared sensor gap when it is inside the radius. */
  function Distance(policy: Policy, t: Track, c: Contact): (d: nat)
    ensures policy.Standard? ==>
              && (d == INVALID_COST <==> SquaredGap(t, c) > TRACK_MATCH_MAX * TRACK_MATCH_MAX)
              && (d != INVALID_COST ==> IsRoot(SquaredGap(t, c), d))
    ensures policy.LowLatency? ==>
              && (d == INVALID_COST <==> SquaredSensorGap(t, c) >= WINDOWS_ASSIGN_RADIUS * WINDOWS_ASSIGN_RADIUS)
              && (d != INVALID_COST ==> d == SquaredSensorGap(t, c))
    ensures d == INVALID_COST || d <= Gate(policy.LowLatency?)
  {
    if policy.LowLatency? then
      var squared := SquaredSensorGap(t, c);
      if squared >= WINDOWS_ASSIGN_RADIUS * WINDOWS_ASSIGN_RADIUS then INVALID_COST else squared
    else
      var squared := SquaredGap(t, c);
      if squared > TRACK_MATCH_MAX * TRACK_MATCH_MAX then INVALID_COST
      else
        RootRange(squared, Root(squared), TRACK_MATCH_MAX + 1);
        Root(squared)
  }

  // ----- confirmation requirement

  /** An established track, seen this frame, close to the contact. */
  ghost predicate Beside(t: Track, c: Contact) {
    t.active && t.confirmed && t.missed == 0
    && Squared(t.rawX - c.x, t.rawY - c.y) <= SPLIT_RADIUS * SPLIT_RADIUS
  }

  /** The contact looks like a fragment of that track. */
  ghost predicate Fragment(t: Track, c: Contact) {
    Beside(t, c) && (c.strength * 2 <= t.strength || c.pixels * 2 <= t.pixels)
  }

  ghost predicate AnyBeside(ts: seq<Track>, c: Contact) {
    exists i | 0 <= i < |ts| :: Beside(ts[i], c)
  }

  ghost predicate AnyFragment(ts: seq<Track>, c: Contact) {
    exists i | 0 <= i < |ts| :: Fragment(ts[i], c)
  }

  ghost function Shortest(policy: Policy): nat {
    if policy.LowLatency? then CONFIRM_LOW_LATENCY else CONFIRM_NORMAL
  }

  /** Evidence a new track needs: long beside a track it may have split from,
      medium when weak, of the wrong shape or crowded, short otherwise. */
  ghost function Requirement(policy: Policy, ts: seq<Track>, c: Contact): (r: nat)
    ensures r == Shortest(policy) || r == CONFIRM_WEAK || r == CONFIRM_SPLIT
  {
    if AnyFragment(ts, c) then CONFIRM_SPLIT
    else if c.pixels < MIN_PIXELS || !c.shapeAllowed || AnyBeside(ts, c) then CONFIRM_WEAK
    else Shortest(policy)
  }
}
