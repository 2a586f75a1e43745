/** g6ts_windows_update_class as it runs, on a fixed buffer of ten vectors. */
module ClassHistory {
  import opened Numbers
  import opened ClassRules

  class TrackClass {
    const history: array<Scores>
    var count: nat
    var age: nat
    var windowsClass: nat
    var confirmed: bool
    /** Every frame the track was assigned a contact, oldest first. */
    ghost var samples: seq<Sample>

    ghost predicate Valid(table: Table)
      reads this, history
    {
      && history.Length == HISTORY_CAPACITY && count <= HISTORY_CAPACITY
      && history[..count] == Newest(samples)
      && age == Min(|samples|, AGE_MAX)
      && windowsClass == ClassAfter(table, samples)
      && (confirmed <==> Confirmed(windowsClass))
    }

    /** A zeroed track, before its first contact. */
    constructor (table: Table)
      ensures Valid(table) && samples == [] && fresh(history)
    {
      history := new Scores[HISTORY_CAPACITY](_ => [0, 0, 0, 0]);
      count, age, windowsClass, confirmed, samples := 0, 0, UNCLASSIFIED, false, [];
    }

    /** The shift at the head of the update: newest first, oldest dropped. */
    method Push(scores: Scores)
      requires history.Length == HISTORY_CAPACITY && count <= HISTORY_CAPACITY
      modifies history, this`count
      ensures count == Min(old(count) + 1, HISTORY_CAPACITY)
      ensures history[0] == scores
      ensures forall i | 1 <= i < count :: history[i] == old(history[i - 1])
    {
      var sample := Min(count, HISTORY_CAPACITY - 1);
      ghost var top := sample;
      while sample > 0
        invariant 0 <= sample <= top && count == old(count)
        invariant forall i | sample < i <= top :: history[i] == old(history[i - 1])
        invariant forall i | 0 <= i <= sample :: history[i] == old(history[i])
      {
        history[sample] := history[sample - 1];
        sample := sample - 1;
      }
      history[0] := scores;
      if count < HISTORY_CAPACITY {
        count := count + 1;
      }
    }

    /** g6ts_transition_current_passes. */
    method CurrentPasses(rule: Rule, candidate: nat, scores: Scores) returns (ok: bool)
      requires candidate < CLASS_COUNT
      ensures ok <==> Clears(scores, candidate, rule.currentMargins, rule.minimum)
    {
      for k := 0 to CLASS_COUNT
        invariant forall x | 0 <= x < k && x != candidate ::
                    scores[candidate] - scores[x] >= rule.currentMargins[x] * UNIT
      {
        if k != candidate && scores[candidate] - scores[k] < rule.currentMargins[k] * UNIT {
          return false;
        }
      }
      return scores[candidate] >= rule.minimum * UNIT;
    }

    /** g6ts_transition_history_passes. */
    method HistoryPasses(rule: Rule, candidate: nat) returns (ok: bool)
      requires candidate < CLASS_COUNT && history.Length == HISTORY_CAPACITY && count <= HISTORY_CAPACITY
      ensures ok <==> HistoryClears(history[..count], candidate, rule)
    {
      if rule.depth > HISTORY_CAPACITY || count < rule.depth {
        return false;
      }
      for sample := 0 to rule.depth
        invariant forall i | 0 <= i < sample ::
                    Clears(history[..count][i], candidate, rule.historyMargins, rule.minimum)
      {
        var cleared := SampleClears(history[sample], rule, candidate);
        if !cleared {
          assert !Clears(history[..count][sample], candidate, rule.historyMargins, rule.minimum);
          return false;
        }
      }
      return true;
    }

    /** The inner loop of g6ts_transition_history_passes. */
    method SampleClears(scores: Scores, rule: Rule, candidate: nat) returns (ok: bool)
      requires candidate < CLASS_COUNT
      ensures ok <==> Clears(scores, candidate, rule.historyMargins, rule.minimum)
    {
      for k := 0 to CLASS_COUNT
        invariant forall x | 0 <= x < k && x != candidate ::
                    scores[candidate] - scores[x] >= rule.historyMargins[x] * UNIT
      {
        if k != candidate && scores[candidate] - scores[k] < rule.historyMargins[k] * UNIT {
          return false;
        }
      }
      return scores[candidate] >= rule.minimum * UNIT;
    }

    method Candidate(scores: Scores) returns (candidate: nat)
      ensures candidate == Leader(scores, CLASS_COUNT)
    {
      candidate := 0;
      for k := 1 to CLASS_COUNT
        invariant candidate == Leader(scores, k)
      {
        if scores[candidate] < scores[k] {
          candidate := k;
        }
      }
    }

    method Accepts(table: Table, candidate: nat, s: Sample) returns (accepted: bool)
      requires candidate < CLASS_COUNT && windowsClass <= UNCLASSIFIED
      requires history.Length == HISTORY_CAPACITY && count <= HISTORY_CAPACITY
      ensures accepted <==>
                windowsClass == candidate || Moves(table, age, windowsClass, candidate, s, history[..count])
    {
      accepted := false;
      if windowsClass == candidate {
        accepted := true;
      } else {
        var rule := table[windowsClass * CLASS_COUNT + candidate];
        if age == 1 || age <= rule.ageLimit {
          accepted := CurrentPasses(rule, candidate, s.scores);
        }
        if !accepted && age > 1 {
          accepted := HistoryPasses(rule, candidate);
        }
        if accepted && (s.pixels < POINT_MINIMUMS[candidate] || s.pixels > POINT_MAXIMUMS[candidate]) {
          accepted := false;
        }
      }
    }

    /** The decision of g6ts_windows_update_class on the history so far. */
    method Decide(table: Table, s: Sample)
      requires windowsClass <= UNCLASSIFIED
      requires history.Length == HISTORY_CAPACITY && count <= HISTORY_CAPACITY
      modifies this`windowsClass, this`confirmed
      ensures windowsClass == Next(table, age, old(windowsClass), s, history[..count])
      ensures confirmed <==> Confirmed(windowsClass)
    {
      var candidate := Candidate(s.scores);
      var accepted := Accepts(table, candidate, s);
      if accepted {
        windowsClass := candidate;
      }
      confirmed := windowsClass == 0 || windowsClass == 2;
    }

    /** One more assigned contact: the age step of g6ts_update_track (or the
        first age of g6ts_new_track), then g6ts_windows_update_class. */
    method Update(table: Table, s: Sample)
      requires Valid(table)
      modifies this, history
      ensures Valid(table) && samples == old(samples) + [s]
    {
      ghost var before := history[..count];
      if age < AGE_MAX {
        age := age + 1;
      }
      Push(s.scores);
      NewestStep(samples, s, before, history[..count]);
      ClassStep(table, samples, s);
      samples := samples + [s];
      Decide(table, s);
    }
  }

  /** The buffer after a shift holds the newest vectors again. */
  lemma NewestStep(samples: seq<Sample>, s: Sample, before: seq<Scores>, after: seq<Scores>)
    requires before == Newest(samples) && |after| == Min(|before| + 1, HISTORY_CAPACITY)
    requires after[0] == s.scores && forall i | 1 <= i < |after| :: after[i] == before[i - 1]
    ensures after == Newest(samples + [s])
  {
    assert (samples + [s])[..|samples|] == samples;
  }

  lemma ClassStep(table: Table, samples: seq<Sample>, s: Sample)
    ensures ClassAfter(table, samples + [s]) ==
            Next(table, Min(|samples| + 1, AGE_MAX), ClassAfter(table, samples), s, Newest(samples + [s]))
  {
    assert (samples + [s])[..|samples|] == samples;
  }
}
