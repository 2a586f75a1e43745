/** The opt-in class history of a track: which of four classes it is in after
    each score vector, decided by a table of transition rules. */
module ClassRules {
  import opened Numbers

  const CLASS_COUNT: nat := 4
  const UNCLASSIFIED: nat := 4
  const HISTORY_CAPACITY: nat := 10
  const AGE_MAX: nat := 65535
  /** One in the driver's fixed-point scores. */
  const UNIT: int := 0x100_0000

  type Scores = s: seq<int> | |s| == CLASS_COUNT witness [0, 0, 0, 0]

  datatype Rule = Rule(historyMargins: Scores, currentMargins: Scores, minimum: int, depth: nat, ageLimit: nat)

  /** Row 4 * prior + next is the rule from class prior to class next. */
  type Table = t: seq<Rule> | |t| == (CLASS_COUNT + 1) * CLASS_COUNT && forall i | 0 <= i < |t| :: t[i].ageLimit < 256
    witness seq((CLASS_COUNT + 1) * CLASS_COUNT, _ => Rule([0, 0, 0, 0], [0, 0, 0, 0], 0, 0, 0))

  /** One frame of an assigned track. */
  datatype Sample = Sample(scores: Scores, pixels: nat)

  const POINT_MINIMUMS: seq<nat> := [0, 6, 4, 4]
  const POINT_MAXIMUMS: seq<nat> := [20, 9999, 50, 100]

  ghost function RuleOf(table: Table, prior: nat, next: nat): Rule
    requires prior <= UNCLASSIFIED && next < CLASS_COUNT
  {
    table[prior * CLASS_COUNT + next]
  }

  ghost predicate PointsFit(class_: nat, pixels: nat)
    requires class_ < CLASS_COUNT
  {
    POINT_MINIMUMS[class_] <= pixels <= POINT_MAXIMUMS[class_]
  }

  // ----- candidate

  /** The first of the classes below n with the highest score. */
  ghost function Leader(s: Scores, n: nat): (c: nat)
    requires 1 <= n <= CLASS_COUNT
    ensures c < n
    ensures forall k | 0 <= k < n :: s[k] <= s[c]
    ensures forall k | 0 <= k < c :: s[k] < s[c]
  {
    if n == 1 then 0
    else
      var best := Leader(s, n - 1);
      if s[best] < s[n - 1] then n - 1 else best
  }

  // ----- gates

  /** Class c leads every other by its margin and reaches the floor. */
  ghost predicate Clears(s: Scores, c: nat, margins: Scores, floor: int)
    requires c < CLASS_COUNT
  {
    && (forall k | 0 <= k < CLASS_COUNT && k != c :: s[c] - s[k] >= margins[k] * UNIT)
    && s[c] >= floor * UNIT
  }

  /** The newest rule.depth vectors all clear the rule. */
  ghost predicate HistoryClears(h: seq<Scores>, c: nat, rule: Rule)
    requires c < CLASS_COUNT
  {
    && rule.depth <= HISTORY_CAPACITY && rule.depth <= |h|
    && forall i | 0 <= i < rule.depth :: Clears(h[i], c, rule.historyMargins, rule.minimum)
  }

  // ----- runs

  /** The newest vectors, newest first, as many as the buffer holds. */
  ghost function Newest(samples: seq<Sample>): (h: seq<Scores>)
    ensures |h| == Min(|samples|, HISTORY_CAPACITY)
    ensures forall i | 0 <= i < |h| :: h[i] == samples[|samples| - 1 - i].scores
  {
    if samples == [] then []
    else
      var h := [samples[|samples| - 1].scores] + Newest(samples[..|samples| - 1]);
      if |h| > HISTORY_CAPACITY then h[..HISTORY_CAPACITY] else h
  }

  /** Does the driver move a track from class prior to class c in this frame? */
  ghost predicate Moves(table: Table, age: nat, prior: nat, c: nat, s: Sample, h: seq<Scores>)
    requires prior <= UNCLASSIFIED && c < CLASS_COUNT
  {
    var rule := RuleOf(table, prior, c);
    && PointsFit(c, s.pixels)
    && (   ((age == 1 || age <= rule.ageLimit) && Clears(s.scores, c, rule.currentMargins, rule.minimum))
        || (age > 1 && HistoryClears(h, c, rule)))
  }

  ghost function Next(table: Table, age: nat, prior: nat, s: Sample, h: seq<Scores>): (c: nat)
    requires prior <= UNCLASSIFIED
    ensures c <= UNCLASSIFIED
  {
    var c := Leader(s.scores, CLASS_COUNT);
    if c != prior && Moves(table, age, prior, c, s, h) then c else prior
  }

  /** Class after a whole run. */
  ghost function ClassAfter(table: Table, samples: seq<Sample>): (c: nat)
    ensures c <= UNCLASSIFIED
  {
    if samples == [] then UNCLASSIFIED
    else
      var last := |samples| - 1;
      Next(table, Min(|samples|, AGE_MAX), ClassAfter(table, samples[..last]), samples[last], Newest(samples))
  }

  ghost predicate Confirmed(c: nat) {
    c == 0 || c == 2
  }

  // ----- the shipped table

  const MARGINS_OFF: Scores := [255, 255, 255, 255]

  const SHIPPED: Table := [
    Rule([0, 0, 0, 0], MARGINS_OFF, 0, 0, 0),
    Rule([20, 0, 10, 30], [100, 0, 10, 30], -500, 5, 3),
    Rule([2, 30, 0, 30], MARGINS_OFF, -25, 2, 0),
    Rule([200, 15, 7, 0], MARGINS_OFF, -45, 1, 0),
    Rule([0, 5, 5, 40], MARGINS_OFF, -2, 8, 0),
    Rule([0, 0, 0, 0], MARGINS_OFF, 0, 0, 0),
    Rule([1, 30, 0, 40], MARGINS_OFF, -25, 4, 0),
    Rule([30, 30, 30, 0], MARGINS_OFF, -20, 30, 0),
    Rule([0, 15, 1, 15], MARGINS_OFF, -25, 2, 0),
    Rule([40, 0, 80, 30], [100, 0, 80, 80], -500, 5, 3),
    Rule([0, 0, 0, 0], MARGINS_OFF, 0, 0, 0),
    Rule([50, 10, 30, 0], MARGINS_OFF, -15, 4, 0),
    Rule([0, 15, 1, 15], MARGINS_OFF, -25, 1, 0),
    Rule([20, 0, 40, 100], MARGINS_OFF, -40, 5, 0),
    Rule([2, 12, 0, 30], MARGINS_OFF, -25, 3, 0),
    Rule([0, 0, 0, 0], MARGINS_OFF, 0, 0, 0),
    Rule([0, 6, 1, 30], [0, 10, 1, 30], -3, 2, 3),
    Rule([22, 0, 15, 15], MARGINS_OFF, -9999, 2, 0),
    Rule([1, 3, 0, 8], MARGINS_OFF, -8, 4, 3),
    Rule([100, 7, 8, 0], [100, 30, 10, 0], -20, 3, 3)
  ]

  /** Once classified, a track is never unclassified again, under any table. */
  lemma {:induction false} NeverUnclassifiedAgain(table: Table, samples: seq<Sample>, k: nat)
    requires k <= |samples| && ClassAfter(table, samples[..k]) < UNCLASSIFIED
    ensures ClassAfter(table, samples) < UNCLASSIFIED
  {
    if k == |samples| {
      assert samples[..k] == samples;
    } else {
      var rest := samples[..|samples| - 1];
      assert rest[..k] == samples[..k];
      NeverUnclassifiedAgain(table, rest, k);
    }
  }

  /** Under the shipped table class 1 never steps directly to class 3: the rule
      asks for more history than the buffer holds. */
  lemma OneNeverStepsToThree(samples: seq<Sample>, s: Sample)
    requires ClassAfter(SHIPPED, samples) == 1
    ensures ClassAfter(SHIPPED, samples + [s]) != 3
  {}

  // ----- no quick return

  /** Leaving a for c and leaving c for a need opposite leads. */
  ghost predicate Opposed(table: Table, a: nat, c: nat)
    requires a < CLASS_COUNT && c < CLASS_COUNT
  {
    && RuleOf(table, a, c).depth > 0
    && RuleOf(table, a, c).historyMargins[a] + RuleOf(table, c, a).historyMargins[c] > 0
    && RuleOf(table, a, c).currentMargins[a] + RuleOf(table, c, a).historyMargins[c] > 0
  }

  lemma ShippedOpposed(a: nat, c: nat)
    requires a < CLASS_COUNT && c < CLASS_COUNT && a != c
    ensures Opposed(SHIPPED, a, c)
  {}

  /** samples[k] moved the track from a to c. */
  ghost predicate StepAt(table: Table, samples: seq<Sample>, k: nat, a: nat, c: nat) {
    k < |samples| && a != c && ClassAfter(table, samples[..k]) == a && ClassAfter(table, samples[..k + 1]) == c
  }

  lemma MoveOfStep(table: Table, samples: seq<Sample>, k: nat, a: nat, c: nat)
    requires StepAt(table, samples, k, a, c)
    ensures a <= UNCLASSIFIED && c < CLASS_COUNT
    ensures Moves(table, Min(k + 1, AGE_MAX), a, c, samples[k], Newest(samples[..k + 1]))
  {
    assert samples[..k + 1][..k] == samples[..k];
  }

  /** At a step the new class leads the one left behind. */
  lemma LeadAtStep(table: Table, samples: seq<Sample>, k: nat, a: nat, c: nat)
    requires a < CLASS_COUNT && StepAt(table, samples, k, a, c) && c < CLASS_COUNT && RuleOf(table, a, c).depth > 0
    ensures var s, rule := samples[k].scores, RuleOf(table, a, c);
            s[c] - s[a] >= rule.historyMargins[a] * UNIT || s[c] - s[a] >= rule.currentMargins[a] * UNIT
  {
    MoveOfStep(table, samples, k, a, c);
    assert Newest(samples[..k + 1])[0] == samples[k].scores;
  }

  /** Past the age at which a single vector decides, it has led it in every
      vector of the rule's window. */
  lemma LeadInWindow(table: Table, samples: seq<Sample>, step: nat, a: nat, c: nat, k: nat)
    requires c < CLASS_COUNT && StepAt(table, samples, step, c, a) && a < CLASS_COUNT && k <= step
    requires step > 0 && step + 1 > RuleOf(table, c, a).ageLimit && step - k < RuleOf(table, c, a).depth
    ensures samples[k].scores[a] - samples[k].scores[c] >= RuleOf(table, c, a).historyMargins[c] * UNIT
  {
    MoveOfStep(table, samples, step, c, a);
    var h := Newest(samples[..step + 1]);
    assert HistoryClears(h, a, RuleOf(table, c, a));
    assert h[step - k] == samples[..step + 1][k].scores == samples[k].scores;
  }

  /** A track that went from a to c and then from c to a, past the age at which
      a single vector decides, spent at least the depth of the second rule
      away from a. */
  lemma NoQuickReturn(table: Table, samples: seq<Sample>, k: nat, back: nat, a: nat, c: nat)
    requires a < CLASS_COUNT && c < CLASS_COUNT && Opposed(table, a, c)
    requires StepAt(table, samples, k, a, c) && StepAt(table, samples, back, c, a) && k < back
    requires back + 1 > RuleOf(table, c, a).ageLimit
    ensures back - k >= RuleOf(table, c, a).depth
  {
    LeadAtStep(table, samples, k, a, c);
    if back - k < RuleOf(table, c, a).depth {
      LeadInWindow(table, samples, back, a, c, k);
    }
  }

  /** Under the shipped table every return from the fourth frame on is slow. */
  lemma ShippedNoQuickReturn(samples: seq<Sample>, k: nat, back: nat, a: nat, c: nat)
    requires a < CLASS_COUNT && c < CLASS_COUNT && 3 <= back && k < back
    requires StepAt(SHIPPED, samples, k, a, c) && StepAt(SHIPPED, samples, back, c, a)
    ensures back - k >= RuleOf(SHIPPED, c, a).depth
  {
    ShippedOpposed(a, c);
    ShippedAgeLimits(c, a);
    NoQuickReturn(SHIPPED, samples, k, back, a, c);
  }

  lemma ShippedAgeLimits(a: nat, c: nat)
    requires a <= UNCLASSIFIED && c < CLASS_COUNT
    ensures RuleOf(SHIPPED, a, c).ageLimit <= 3
  {}
}
