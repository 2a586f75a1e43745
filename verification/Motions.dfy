/** What a track's position fields amount to: the two contacts it was matched to
    last and the frames missed since decide where it is expected next. */
module Motions {
  import opened Padding
  import opened TrackAssignment
  import opened Lifecycle
  import Positions

  /** The contact before the last one, the last one, and the frames missed
      since; a new track has seen its first contact twice. */
  datatype Motion = Motion(before: Contact, last: Contact, misses: nat)

  const NOWHERE: Contact := Contact(0, 0, 0, 0, 0, 0, 0, 0, false)
  const STILL: Motion := Motion(NOWHERE, NOWHERE, 0)

  ghost function Power(n: nat): (p: nat)
    ensures p >= 1
  {
    if n == 0 then 1 else 2 * Power(n - 1)
  }

  /** A step after n frames of slowing down, cut towards zero. */
  ghost function Slowed(v: int, n: nat): int {
    if v >= 0 then v / Power(n) else 0 - (0 - v) / Power(n)
  }

  /** One coordinate of the expected position: one more step of the last kind,
      slowed down, and never off the panel. */
  ghost function Expected(earlier: int, later: int, misses: nat, top: int): int {
    var p := later + Slowed(later - earlier, misses);
    if p < 0 then 0 else if p > top then top else p
  }

  /** The record holds the position and size of the last contact and the step
      from the one before. */
  ghost predicate MovesAs(t: Track, m: Motion) {
    && t.missed == m.misses
    && t.rawX == m.last.x && t.rawY == m.last.y && t.sensorX == m.last.sensorX && t.sensorY == m.last.sensorY
    && t.velocityX == Slowed(m.last.x - m.before.x, m.misses) && t.velocityY == Slowed(m.last.y - m.before.y, m.misses)
    && t.sensorVelocityX == Slowed(m.last.sensorX - m.before.sensorX, m.misses)
    && t.sensorVelocityY == Slowed(m.last.sensorY - m.before.sensorY, m.misses)
    && t.strength == m.last.strength && t.pixels == m.last.pixels
  }

  lemma Unslowed(v: int)
    ensures Slowed(v, 0) == v
  {}

  lemma HalfOfQuotient(a: int, p: nat)
    requires p > 0
    ensures (a / p) / 2 == a / (2 * p)
  {
    var q := a / p;
    var r := q / 2;
    Positions.Scale(2 * r, q, p);
    Positions.Scale(q + 1, 2 * r + 2, p);
    Regroup(r, p);
    Regroup(r + 1, p);
    QuotientIs(a, 2 * p, r);
  }

  lemma Regroup(r: int, p: int)
    ensures r * (2 * p) == (2 * r) * p
  {}

  lemma QuotientIs(a: int, b: nat, r: int)
    requires b > 0 && r * b <= a < (r + 1) * b
    ensures a / b == r
  {
    Positions.DivLower(a, b, r);
    Positions.DivUpper(a, b, r);
  }

  lemma HalveEitherSign(q: nat)
    ensures Halve(q) == q / 2 && Halve(0 - q) == 0 - q / 2
  {}

  lemma HalveSlows(v: int, n: nat)
    ensures Halve(Slowed(v, n)) == Slowed(v, n + 1)
  {
    var a, p := if v >= 0 then v else 0 - v, Power(n);
    assert Power(n + 1) == 2 * p;
    Positions.DivLower(a, p, 0);
    HalfOfQuotient(a, p);
    HalveEitherSign(a / p);
  }

  lemma UpdatedMoves(policy: Policy, t: Track, m: Motion, c: Contact)
    requires MovesAs(t, m)
    ensures MovesAs(Updated(policy, t, c), Motion(m.last, c, 0))
  {}

  lemma StartedMoves(policy: Policy, c: Contact, required: nat)
    ensures MovesAs(Started(policy, c, required), Motion(c, c, 0))
  {}

  lemma CoastedMoves(t: Track, m: Motion)
    requires MovesAs(t, m)
    ensures Coasted(t).active ==> MovesAs(Coasted(t), m.(misses := m.misses + 1))
  {
    HalveSlows(m.last.x - m.before.x, m.misses);
    HalveSlows(m.last.y - m.before.y, m.misses);
    HalveSlows(m.last.sensorX - m.before.sensorX, m.misses);
    HalveSlows(m.last.sensorY - m.before.sensorY, m.misses);
  }

  // ----- where a track is expected, in terms of contacts alone

  /** d is the floored root of the squared distance from the expected position,
      or invalid beyond the gate. */
  ghost predicate IsGap(m: Motion, c: Contact, d: int) {
    var dx := Expected(m.before.x, m.last.x, m.misses, LOGICAL_MAX) - c.x;
    var dy := Expected(m.before.y, m.last.y, m.misses, LOGICAL_MAX) - c.y;
    if dx * dx + dy * dy > TRACK_MATCH_MAX * TRACK_MATCH_MAX then d == INVALID_COST
    else 0 <= d <= TRACK_MATCH_MAX && d * d <= dx * dx + dy * dy < (d + 1) * (d + 1)
  }

  /** d is the squared distance between assignment coordinates, or invalid from
      the radius on. */
  ghost predicate IsSensorGap(m: Motion, c: Contact, d: int) {
    var x := Expected(m.before.sensorX, m.last.sensorX, m.misses, SENSOR_X_MAX);
    var y := Expected(m.before.sensorY, m.last.sensorY, m.misses, SENSOR_Y_MAX);
    var dx := Positions.AssignmentCoordinate(x, Positions.X_SCALE_Q24) - Positions.AssignmentCoordinate(c.sensorX, Positions.X_SCALE_Q24);
    var dy := Positions.AssignmentCoordinate(y, Positions.Y_SCALE_Q24) - Positions.AssignmentCoordinate(c.sensorY, Positions.Y_SCALE_Q24);
    d == if dx * dx + dy * dy >= WINDOWS_ASSIGN_RADIUS * WINDOWS_ASSIGN_RADIUS then INVALID_COST else dx * dx + dy * dy
  }

  ghost predicate IsDistance(policy: Policy, m: Motion, c: Contact, d: int) {
    if policy.LowLatency? then IsSensorGap(m, c, d) else IsGap(m, c, d)
  }

  /** The driver's distance is the one from where the contacts lead. */
  lemma DistanceOfMotion(policy: Policy, t: Track, m: Motion, c: Contact)
    requires MovesAs(t, m)
    ensures IsDistance(policy, m, c, Distance(policy, t, c))
  {
    var d := Distance(policy, t, c);
    if policy.Standard? {
      assert d == INVALID_COST || d <= TRACK_MATCH_MAX;
    }
  }

  lemma TwiceUpdated(policy: Policy, t: Track, a: Contact, b: Contact)
    ensures MovesAs(Updated(policy, Updated(policy, t, a), b), Motion(a, b, 0))
  {
    Unslowed(b.x - a.x);
    Unslowed(b.y - a.y);
    Unslowed(b.sensorX - a.sensorX);
    Unslowed(b.sensorY - a.sensorY);
  }

  /** A track that saw contact a and then b is expected at 2b - a, cut to the
      panel: its distance to c is measured from there and is 0 only there. */
  lemma TwoSightings(t: Track, a: Contact, b: Contact, c: Contact)
    ensures var u := Updated(Standard, Updated(Standard, t, a), b);
            var d, x, y := Distance(Standard, u, c), 2 * b.x - a.x, 2 * b.y - a.y;
            var dx := (if x < 0 then 0 else if x > LOGICAL_MAX then LOGICAL_MAX else x) - c.x;
            var dy := (if y < 0 then 0 else if y > LOGICAL_MAX then LOGICAL_MAX else y) - c.y;
            && (d == INVALID_COST <==> dx * dx + dy * dy > TRACK_MATCH_MAX * TRACK_MATCH_MAX)
            && (d != INVALID_COST ==> d * d <= dx * dx + dy * dy < (d + 1) * (d + 1))
            && (d == 0 <==> dx == 0 && dy == 0)
  {
    var u := Updated(Standard, t, a);
    TwiceUpdated(Standard, t, a, b);
    DistanceOfMotion(Standard, Updated(Standard, u, b), Motion(a, b, 0), c);
    Unslowed(b.x - a.x);
    Unslowed(b.y - a.y);
    ZeroGap(Motion(a, b, 0), c, Distance(Standard, Updated(Standard, u, b), c));
  }

  /** The same for sensor positions under the low-latency policy: the distance
      is the squared one between assignment coordinates, 0 only where both agree. */
  lemma TwoSensorSightings(t: Track, a: Contact, b: Contact, c: Contact)
    ensures var u := Updated(LowLatency, Updated(LowLatency, t, a), b);
            var d, x, y := Distance(LowLatency, u, c), 2 * b.sensorX - a.sensorX, 2 * b.sensorY - a.sensorY;
            var px := if x < 0 then 0 else if x > SENSOR_X_MAX then SENSOR_X_MAX else x;
            var py := if y < 0 then 0 else if y > SENSOR_Y_MAX then SENSOR_Y_MAX else y;
            var dx := Positions.AssignmentCoordinate(px, Positions.X_SCALE_Q24) - Positions.AssignmentCoordinate(c.sensorX, Positions.X_SCALE_Q24);
            var dy := Positions.AssignmentCoordinate(py, Positions.Y_SCALE_Q24) - Positions.AssignmentCoordinate(c.sensorY, Positions.Y_SCALE_Q24);
            && (d == INVALID_COST <==> dx * dx + dy * dy >= WINDOWS_ASSIGN_RADIUS * WINDOWS_ASSIGN_RADIUS)
            && (d != INVALID_COST ==> d == dx * dx + dy * dy)
            && (d == 0 <==> dx == 0 && dy == 0)
  {
    var u := Updated(LowLatency, t, a);
    TwiceUpdated(LowLatency, t, a, b);
    DistanceOfMotion(LowLatency, Updated(LowLatency, u, b), Motion(a, b, 0), c);
    Unslowed(b.sensorX - a.sensorX);
    Unslowed(b.sensorY - a.sensorY);
    var x, y := Expected(a.sensorX, b.sensorX, 0, SENSOR_X_MAX), Expected(a.sensorY, b.sensorY, 0, SENSOR_Y_MAX);
    ZeroSquares(Positions.AssignmentCoordinate(x, Positions.X_SCALE_Q24) - Positions.AssignmentCoordinate(c.sensorX, Positions.X_SCALE_Q24),
                Positions.AssignmentCoordinate(y, Positions.Y_SCALE_Q24) - Positions.AssignmentCoordinate(c.sensorY, Positions.Y_SCALE_Q24));
  }

  lemma ZeroRoot(g: int, d: int)
    requires 0 <= d && d * d <= g < (d + 1) * (d + 1)
    ensures d == 0 <==> g == 0
  {}

  lemma ZeroGap(m: Motion, c: Contact, d: int)
    requires IsGap(m, c, d)
    ensures d == 0 <==> c.x == Expected(m.before.x, m.last.x, m.misses, LOGICAL_MAX)
                        && c.y == Expected(m.before.y, m.last.y, m.misses, LOGICAL_MAX)
  {
    var dx := Expected(m.before.x, m.last.x, m.misses, LOGICAL_MAX) - c.x;
    var dy := Expected(m.before.y, m.last.y, m.misses, LOGICAL_MAX) - c.y;
    ZeroSquares(dx, dy);
    if dx * dx + dy * dy <= TRACK_MATCH_MAX * TRACK_MATCH_MAX {
      ZeroRoot(dx * dx + dy * dy, d);
    }
  }

  lemma ZeroSquares(x: int, y: int)
    ensures x * x + y * y == 0 <==> x == 0 && y == 0
    ensures x * x + y * y >= 0
  {
    ZeroSquare(x);
    ZeroSquare(y);
  }

  lemma ZeroSquare(x: int)
    ensures x * x >= 0 && (x * x == 0 <==> x == 0)
  {}

  // ----- what is reported

  /** One output coordinate after a match: between the previous output and the
      sample, weighing three to one when close and one to three when slow,
      rounded half up, and the sample itself when fast. */
  ghost predicate Smoothed(previous: int, sample: int, r: int) {
    var delta := if previous < sample then sample - previous else previous - sample;
    && (previous <= r <= sample || sample <= r <= previous)
    && (delta <= STATIONARY_MAX ==> 4 * r <= 3 * previous + sample + 2 < 4 * r + 4)
    && (STATIONARY_MAX < delta <= SLOW_MAX ==> 4 * r <= previous + 3 * sample + 2 < 4 * r + 4)
    && (delta > SLOW_MAX ==> r == sample)
  }

  ghost predicate OutputFollows(policy: Policy, previous: int, sample: int, direct: int, r: int) {
    if policy.LowLatency? then r == direct else Smoothed(previous, sample, r)
  }

  lemma UpdatedOutput(policy: Policy, t: Track, c: Contact)
    ensures OutputFollows(policy, t.outputX, c.x, c.outputX, Updated(policy, t, c).outputX)
    ensures OutputFollows(policy, t.outputY, c.y, c.outputY, Updated(policy, t, c).outputY)
  {}
}
