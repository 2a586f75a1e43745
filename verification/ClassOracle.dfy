/** BaseClassHistory of the offline tools: real scores, unbounded age, a list
    for the history.  It selects the same classes as the driver. */
module ClassOracle {
  import opened Numbers
  import opened ClassRules

  type RealScores = s: seq<real> | |s| == CLASS_COUNT witness [0.0, 0.0, 0.0, 0.0]

  /** The scores of one frame and the point count, when the caller gives one. */
  datatype Frame = Frame(scores: RealScores, points: Points)

  datatype Points = NotGiven | Given(count: int)

  datatype Gate = CurrentScores | ScoreHistory | PointCount

  /** BaseTransitionDecision, or the error for a negative point count. */
  datatype Decision =
    | Decision(age: nat, previous: nat, candidate: nat, selected: nat, accepted: bool, gate: Gate)
    | NegativeCount

  ghost function RealLeader(s: RealScores, n: nat): (c: nat)
    requires 1 <= n <= CLASS_COUNT
    ensures c < n && forall k | 0 <= k < n :: s[k] <= s[c]
  {
    if n == 1 then 0
    else
      var best := RealLeader(s, n - 1);
      if s[best] < s[n - 1] then n - 1 else best
  }

  ghost predicate RealClears(s: RealScores, c: nat, margins: Scores, floor: int)
    requires c < CLASS_COUNT
  {
    && (forall k | 0 <= k < CLASS_COUNT && k != c :: s[c] - s[k] >= margins[k] as real)
    && s[c] >= floor as real
  }

  ghost predicate RealHistoryClears(h: seq<RealScores>, c: nat, rule: Rule)
    requires c < CLASS_COUNT
  {
    && rule.depth <= HISTORY_CAPACITY && rule.depth <= |h|
    && forall i | 0 <= i < rule.depth :: RealClears(h[i], c, rule.historyMargins, rule.minimum)
  }

  /** Newest first, cut to the capacity. */
  ghost function Recent(frames: seq<Frame>): (h: seq<RealScores>)
    ensures |h| == Min(|frames|, HISTORY_CAPACITY)
  {
    if frames == [] then [] else Trim([frames[|frames| - 1].scores] + Recent(frames[..|frames| - 1]))
  }

  function Trim(h: seq<RealScores>): (r: seq<RealScores>)
    ensures |r| == Min(|h|, HISTORY_CAPACITY)
  {
    if |h| > HISTORY_CAPACITY then h[..HISTORY_CAPACITY] else h
  }

  /** The gates of update, in its order; a rule to the same class always passes. */
  ghost predicate GatePasses(rule: Rule, age: nat, prior: nat, c: nat, f: Frame, h: seq<RealScores>)
    requires c < CLASS_COUNT
  {
    var current := prior == c || RealClears(f.scores, c, rule.currentMargins, rule.minimum);
    var history := prior == c || RealHistoryClears(h, c, rule);
    if age == 1 then current else if age <= rule.ageLimit then current || history else history
  }

  /** A negative count fits no class: the call fails before the class changes. */
  ghost predicate CountFits(c: nat, points: Points)
    requires c < CLASS_COUNT
  {
    points.Given? ==> points.count >= 0 && PointsFit(c, points.count)
  }

  /** The gate that decided: the history only when the current scores were
      not looked at or failed, the point count only when it overrules them. */
  ghost predicate DecidedBy(gate: Gate, rule: Rule, age: nat, prior: nat, c: nat, f: Frame, h: seq<RealScores>)
    requires c < CLASS_COUNT
  {
    var current := prior == c || RealClears(f.scores, c, rule.currentMargins, rule.minimum);
    && (gate.PointCount? <==> GatePasses(rule, age, prior, c, f, h) && !CountFits(c, f.points))
    && (gate.ScoreHistory? <==> age != 1 && (age <= rule.ageLimit ==> !current) && !gate.PointCount?)
  }

  /** The decision record for a frame, or the error, and the class afterwards. */
  ghost predicate Decided(d: Decision, table: Table, age: nat, prior: nat, f: Frame, h: seq<RealScores>, after: nat)
    requires prior <= UNCLASSIFIED
  {
    var c := RealLeader(f.scores, CLASS_COUNT);
    var rule := RuleOf(table, prior, c);
    var accepted := GatePasses(rule, age, prior, c, f, h) && CountFits(c, f.points);
    && after == (if accepted then c else prior)
    && (d.NegativeCount? <==> f.points.Given? && f.points.count < 0)
    && (d.Decision? ==>
          && d.age == age && d.previous == prior && d.candidate == c && d.selected == after
          && (d.accepted <==> accepted) && DecidedBy(d.gate, rule, age, prior, c, f, h))
  }

  ghost function OracleAfter(table: Table, frames: seq<Frame>): (c: nat)
    ensures c <= UNCLASSIFIED
  {
    if frames == [] then UNCLASSIFIED
    else
      var last := |frames| - 1;
      var prior := OracleAfter(table, frames[..last]);
      var c := RealLeader(frames[last].scores, CLASS_COUNT);
      if GatePasses(RuleOf(table, prior, c), |frames|, prior, c, frames[last], Recent(frames)) && CountFits(c, frames[last].points)
      then c else prior
  }

  class BaseClassHistory {
    var age: nat
    var currentClass: nat
    var scoreHistory: seq<RealScores>
    ghost var frames: seq<Frame>

    ghost predicate Valid(table: Table)
      reads this
    {
      age == |frames| && scoreHistory == Recent(frames) && currentClass == OracleAfter(table, frames)
    }

    constructor (table: Table)
      ensures Valid(table) && frames == []
    {
      age, currentClass, scoreHistory, frames := 0, UNCLASSIFIED, [], [];
    }

    method PassesCurrentScores(rule: Rule, c: nat, scores: RealScores) returns (ok: bool)
      requires c < CLASS_COUNT && currentClass <= UNCLASSIFIED
      ensures ok <==> currentClass == c || RealClears(scores, c, rule.currentMargins, rule.minimum)
    {
      if currentClass == c {
        return true;
      }
      ok := VectorPasses(rule.currentMargins, rule.minimum, c, scores);
    }

    method VectorPasses(margins: Scores, minimum: int, c: nat, scores: RealScores) returns (ok: bool)
      requires c < CLASS_COUNT
      ensures ok <==> RealClears(scores, c, margins, minimum)
    {
      for k := 0 to CLASS_COUNT
        invariant forall x | 0 <= x < k && x != c :: scores[c] - scores[x] >= margins[x] as real
      {
        if k != c && scores[c] - scores[k] < margins[k] as real {
          return false;
        }
      }
      return scores[c] >= minimum as real;
    }

    method PassesScoreHistory(rule: Rule, c: nat) returns (ok: bool)
      requires c < CLASS_COUNT && currentClass <= UNCLASSIFIED
      ensures ok <==> currentClass == c || RealHistoryClears(scoreHistory, c, rule)
    {
      if currentClass == c {
        return true;
      }
      if rule.depth > HISTORY_CAPACITY || |scoreHistory| < rule.depth {
        return false;
      }
      for i := 0 to rule.depth
        invariant forall x | 0 <= x < i :: RealClears(scoreHistory[x], c, rule.historyMargins, rule.minimum)
      {
        var cleared := VectorPasses(rule.historyMargins, rule.minimum, c, scoreHistory[i]);
        if !cleared {
          return false;
        }
      }
      return true;
    }

    method CandidateClass(scores: RealScores) returns (candidate: nat)
      ensures candidate == RealLeader(scores, CLASS_COUNT)
    {
      candidate := 0;
      for k := 1 to CLASS_COUNT
        invariant candidate == RealLeader(scores, k)
      {
        if scores[candidate] < scores[k] {
          candidate := k;
        }
      }
    }

    method ScoreGates(rule: Rule, c: nat, scores: RealScores) returns (accepted: bool, gate: Gate)
      requires c < CLASS_COUNT && currentClass <= UNCLASSIFIED
      ensures forall points :: accepted <==> GatePasses(rule, age, currentClass, c, Frame(scores, points), scoreHistory)
      ensures gate == if age == 1 || (age <= rule.ageLimit && (currentClass == c || RealClears(scores, c, rule.currentMargins, rule.minimum)))
                      then CurrentScores else ScoreHistory
    {
      gate := CurrentScores;
      if age == 1 {
        accepted := PassesCurrentScores(rule, c, scores);
      } else if age <= rule.ageLimit {
        accepted := PassesCurrentScores(rule, c, scores);
        if !accepted {
          gate := ScoreHistory;
          accepted := PassesScoreHistory(rule, c);
        }
      } else {
        gate := ScoreHistory;
        accepted := PassesScoreHistory(rule, c);
      }
    }

    /** The decision of update on the history so far. */
    method Decide(table: Table, f: Frame) returns (decision: Decision)
      requires currentClass <= UNCLASSIFIED
      modifies this`currentClass
      ensures Decided(decision, table, age, old(currentClass), f, scoreHistory, currentClass)
    {
      var previous := currentClass;
      var candidate := CandidateClass(f.scores);
      var accepted, gate := ScoreGates(table[previous * CLASS_COUNT + candidate], candidate, f.scores);
      if f.points.Given? {
        if f.points.count < 0 {
          return NegativeCount;
        }
        if accepted && !(POINT_MINIMUMS[candidate] <= f.points.count <= POINT_MAXIMUMS[candidate]) {
          accepted, gate := false, PointCount;
        }
      }
      if accepted {
        currentClass := candidate;
      }
      decision := Decision(age, previous, candidate, currentClass, accepted, gate);
    }

    /** update: one more assigned frame.  A negative point count is an error that
        leaves the frame in the age and the history but never changes the class. */
    method Update(table: Table, f: Frame) returns (decision: Decision)
      requires Valid(table)
      modifies this
      ensures Valid(table) && frames == old(frames) + [f]
      ensures Decided(decision, table, |frames|, old(currentClass), f, Recent(frames), currentClass)
      ensures decision.NegativeCount? ==> currentClass == old(currentClass)
    {
      age := age + 1;
      scoreHistory := Trim([f.scores] + scoreHistory);
      assert (frames + [f])[..|frames|] == frames;
      frames := frames + [f];
      decision := Decide(table, f);
    }
  }

  // ----- agreement

  ghost function ToReal(s: Scores): (r: RealScores)
    ensures forall k | 0 <= k < CLASS_COUNT :: r[k] == s[k] as real / UNIT as real
  {
    seq(CLASS_COUNT, k requires 0 <= k < CLASS_COUNT => s[k] as real / UNIT as real)
  }

  /** The driver's samples as the tools see them. */
  ghost function Frames(samples: seq<Sample>): (r: seq<Frame>)
    ensures |r| == |samples|
  {
    if samples == [] then []
    else Frames(samples[..|samples| - 1]) + [Frame(ToReal(samples[|samples| - 1].scores), Given(samples[|samples| - 1].pixels))]
  }

  lemma {:induction false} LeaderAgrees(s: Scores, n: nat)
    requires 1 <= n <= CLASS_COUNT
    ensures RealLeader(ToReal(s), n) == Leader(s, n)
  {
    if n > 1 {
      LeaderAgrees(s, n - 1);
      var best := Leader(s, n - 1);
      Order(s[best], s[n - 1]);
    }
  }

  lemma Order(a: int, b: int)
    ensures a as real / UNIT as real < b as real / UNIT as real <==> a < b
  {}

  lemma {:induction false} RecentAgrees(samples: seq<Sample>)
    ensures Recent(Frames(samples)) == seq(|Newest(samples)|, i requires 0 <= i < |Newest(samples)| => ToReal(Newest(samples)[i]))
  {
    if samples != [] {
      var rest := samples[..|samples| - 1];
      RecentAgrees(rest);
      assert Frames(samples)[..|samples| - 1] == Frames(rest);
    }
  }

  /** Driver and tools put a track in the same class after every run of frames,
      under every table. */
  lemma {:induction false} ClassesAgree(table: Table, samples: seq<Sample>)
    ensures OracleAfter(table, Frames(samples)) == ClassAfter(table, samples)
  {
    if samples != [] {
      var last := |samples| - 1;
      var rest, s, frames := samples[..last], samples[last], Frames(samples);
      ClassesAgree(table, rest);
      assert frames[..last] == Frames(rest);
      LeaderAgrees(s.scores, CLASS_COUNT);
      RecentAgrees(samples);
      StepAgrees(table, |samples|, ClassAfter(table, rest), s, Newest(samples), Recent(frames));
    }
  }

  lemma StepAgrees(table: Table, age: nat, prior: nat, s: Sample, h: seq<Scores>, r: seq<RealScores>)
    requires prior <= UNCLASSIFIED && age > 0 && |h| == |r| && forall i | 0 <= i < |h| :: r[i] == ToReal(h[i])
    ensures var c := Leader(s.scores, CLASS_COUNT);
            Next(table, Min(age, AGE_MAX), prior, s, h) ==
            if GatePasses(RuleOf(table, prior, c), age, prior, c, Frame(ToReal(s.scores), Given(s.pixels)), r) && PointsFit(c, s.pixels)
            then c else prior
  {}
}
