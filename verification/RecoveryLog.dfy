/** The driver's resets, faults, recovery attempts and output as a log, what
    the driver's flags say about the log, and what every sound log guarantees. */
module RecoveryLog {
  import opened Tracker

  const STORM_WINDOW_MS: nat := 5000
  const STORM_LIMIT: nat := 3
  const RECOVERY_LIMIT: nat := 3

  datatype Path = Software | Hardware

  /** PanelReset carries the milliseconds since the reset before, as the driver
      computes them: zero for the first.  Ended says whether the attempt
      succeeded and whether it opened the input. */
  datatype Act =
    | PanelReset(gap: nat)
    | HostFault
    | Attempt(path: Path)
    | Ended(path: Path, ok: bool, opens: bool)
    | Suspended(ok: bool)
    | Resumed
    | Removed
    | BadFrame
    | Frame(reports: seq<Report>)
    | Press(down: bool)

  // ----- what a log amounts to

  /** open: the last thing that matters was an attempt that opened the input.
      first: it did and no valid frame has come since.  frames: valid frames
      since the tracks were last cleared.  fails: failed attempts in a row.
      nudges: suspends that failed since that row began.  rapid: resets in a
      row, each soon after the one before. */
  datatype Summary = Summary(open: bool, first: bool, frames: nat, fails: nat, nudges: nat, rapid: nat)

  ghost predicate Rapid(gap: nat) {
    0 < gap <= STORM_WINDOW_MS
  }

  ghost function Step(s: Summary, act: Act): Summary {
    match act
    case PanelReset(gap) => s.(open := false, first := false, frames := 0, rapid := if Rapid(gap) then s.rapid + 1 else 1)
    case HostFault => s.(open := false, first := false, frames := 0, rapid := 0)
    case Attempt(_) => s.(open := false, first := false, frames := 0)
    case Ended(path, ok, opens) =>
      Summary(opens, opens, s.frames, if ok then 0 else s.fails + 1, if ok then 0 else s.nudges,
              if ok && path == Hardware then 0 else s.rapid)
    case Suspended(ok) =>
      s.(open := false, first := false, frames := 0, nudges := if ok || s.fails == 0 then s.nudges else s.nudges + 1)
    case Resumed => s.(open := false, first := false, fails := 0, nudges := 0)
    case Removed => s.(open := false, first := false, frames := 0)
    case BadFrame => s.(frames := 0)
    case Frame(_) => s.(first := false, frames := s.frames + 1)
    case Press(_) => s
  }

  ghost function Summarize(log: seq<Act>): Summary {
    if log == [] then Summary(false, false, 0, 0, 0, 0)
    else Step(Summarize(log[..|log| - 1]), log[|log| - 1])
  }

  // ----- sound logs

  /** Output is produced only while the input is open, and only by frames while
      the first valid frame is awaited. */
  ghost predicate Follows(s: Summary, act: Act, wants: bool) {
    && (act.Frame? || act.BadFrame? || act.Press? ==> s.open)
    && (act.Press? ==> !(wants && s.first))
    && (act.Ended? && act.opens ==> act.ok)
  }

  ghost predicate Sound(log: seq<Act>, wants: bool) {
    log == [] || (Sound(log[..|log| - 1], wants) && Follows(Summarize(log[..|log| - 1]), log[|log| - 1], wants))
  }

  lemma Snoc(log: seq<Act>, act: Act, wants: bool)
    ensures Summarize(log + [act]) == Step(Summarize(log), act)
    ensures Sound(log, wants) && Follows(Summarize(log), act, wants) ==> Sound(log + [act], wants)
  {}

  lemma {:induction false} PrefixSound(log: seq<Act>, n: nat, wants: bool)
    requires Sound(log, wants) && n <= |log|
    ensures Sound(log[..n], wants)
    ensures n < |log| ==> Follows(Summarize(log[..n]), log[n], wants)
  {
    if n < |log| {
      PrefixSound(log[..|log| - 1], n, wants);
      assert log[..|log| - 1][..n] == log[..n];
      if n == |log| - 1 {
        assert log[..n] == log[..|log| - 1];
      }
    } else {
      assert log[..n] == log;
    }
  }

  /** Acts that close the input. */
  ghost predicate Closes(act: Act) {
    act.PanelReset? || act.HostFault? || act.Attempt? || act.Suspended? || act.Resumed? || act.Removed?
  }

  /** An open input was opened after everything that closes it. */
  lemma {:induction false} OpenedSince(log: seq<Act>, p: nat) returns (r: nat)
    requires p < |log| && Closes(log[p]) && Summarize(log).open
    ensures p < r < |log| && log[r].Ended? && log[r].opens
  {
    var rest := log[..|log| - 1];
    if log[|log| - 1].Ended? {
      r := |log| - 1;
    } else {
      r := OpenedSince(rest, p);
    }
  }

  /** After a panel reset, a host fault or any other closing there is no output
      before an attempt has succeeded and opened the input again. */
  lemma NoOutputBeforeReopening(log: seq<Act>, p: nat, q: nat, wants: bool) returns (r: nat)
    requires Sound(log, wants) && p < q < |log| && Closes(log[p]) && (log[q].Frame? || log[q].Press?)
    ensures p < r < q && log[r].Ended? && log[r].ok && log[r].opens
  {
    PrefixSound(log, q, wants);
    r := OpenedSince(log[..q], p);
    PrefixSound(log, r, wants);
  }

  ghost predicate KeepsOpen(act: Act) {
    act.Frame? || act.BadFrame? || act.Press?
  }

  /** What opened an open input, with nothing but reports since. */
  lemma {:induction false} Opening(log: seq<Act>) returns (r: nat)
    requires Summarize(log).open
    ensures r < |log| && log[r].Ended? && log[r].opens && forall x | r < x < |log| :: KeepsOpen(log[x])
  {
    if log[|log| - 1].Ended? {
      r := |log| - 1;
    } else {
      r := Opening(log[..|log| - 1]);
    }
  }

  /** Under a policy that awaits a first valid frame, every press comes after
      such a frame, and that after the opening. */
  lemma PressNeedsFrame(log: seq<Act>, q: nat) returns (r: nat, f: nat)
    requires Sound(log, true) && q < |log| && log[q].Press?
    ensures r < f < q && log[r].Ended? && log[r].opens && log[f].Frame?
    ensures forall x | r < x < q :: KeepsOpen(log[x])
  {
    PrefixSound(log, q, true);
    r := Opening(log[..q]);
    f := FirstFrame(log[..q], r);
  }

  lemma {:induction false} FirstFrame(log: seq<Act>, r: nat) returns (f: nat)
    requires r < |log| && log[r].Ended? && log[r].opens && !Summarize(log).first
    requires forall x | r < x < |log| :: KeepsOpen(log[x])
    ensures r < f < |log| && log[f].Frame?
  {
    if log[|log| - 1].Frame? {
      f := |log| - 1;
    } else {
      f := FirstFrame(log[..|log| - 1], r);
    }
  }

  // ----- storms

  /** Acts that leave the run of rapid resets alone. */
  ghost predicate Quiet(act: Act) {
    !act.PanelReset? && !act.HostFault? && !(act.Ended? && act.ok && act.path == Hardware)
  }

  ghost predicate AllQuiet(acts: seq<Act>) {
    forall act | act in acts :: Quiet(act)
  }

  lemma {:induction false} QuietKeepsRun(log: seq<Act>, quiet: seq<Act>)
    requires AllQuiet(quiet)
    ensures Summarize(log + quiet).rapid == Summarize(log).rapid
  {
    if quiet == [] {
      assert log + quiet == log;
    } else {
      var rest, last := quiet[..|quiet| - 1], quiet[|quiet| - 1];
      QuietKeepsRun(log, rest);
      Snoc(log + rest, last, false);
      assert log + quiet == log + rest + [last];
      assert Quiet(last);
    }
  }

  lemma RunAfterReset(log: seq<Act>, quiet: seq<Act>, gap: nat)
    requires AllQuiet(quiet)
    ensures Summarize(log + quiet + [PanelReset(gap)]).rapid == if Rapid(gap) then Summarize(log).rapid + 1 else 1
  {
    QuietKeepsRun(log, quiet);
    Snoc(log + quiet, PanelReset(gap), false);
  }

  /** Three resets with nothing between them that starts over make a storm
      exactly when the second and the third came within the window but not in
      the same millisecond. */
  lemma ThirdReset(log: seq<Act>, one: nat, q1: seq<Act>, two: nat, q2: seq<Act>, three: nat)
    requires AllQuiet(q1) && AllQuiet(q2)
    ensures var all := log + [PanelReset(one)] + q1 + [PanelReset(two)] + q2 + [PanelReset(three)];
            Summarize(all).rapid >= STORM_LIMIT <==> Rapid(two) && Rapid(three)
  {
    var first := log + [PanelReset(one)];
    var second := first + q1 + [PanelReset(two)];
    Snoc(log, PanelReset(one), false);
    RunAfterReset(first, q1, two);
    RunAfterReset(second, q2, three);
  }

  /** Further resets, each with the quiet acts before it and its gap. */
  ghost function WithResets(log: seq<Act>, more: seq<(seq<Act>, nat)>): seq<Act> {
    if more == [] then log
    else
      var last := more[|more| - 1];
      WithResets(log, more[..|more| - 1]) + last.0 + [PanelReset(last.1)]
  }

  ghost predicate RapidStreak(more: seq<(seq<Act>, nat)>) {
    forall i | 0 <= i < |more| :: Rapid(more[i].1) && AllQuiet(more[i].0)
  }

  lemma {:induction false} StreakGrows(log: seq<Act>, more: seq<(seq<Act>, nat)>)
    requires RapidStreak(more)
    ensures Summarize(WithResets(log, more)).rapid == Summarize(log).rapid + |more|
  {
    if more != [] {
      var rest, last := more[..|more| - 1], more[|more| - 1];
      StreakGrows(log, rest);
      RunAfterReset(WithResets(log, rest), last.0, last.1);
    }
  }

  // ----- failures

  /** Failed attempts from position p on. */
  ghost function Fails(log: seq<Act>, p: nat): nat {
    if |log| <= p then 0
    else Fails(log[..|log| - 1], p) + if log[|log| - 1].Ended? && !log[|log| - 1].ok then 1 else 0
  }

  /** Suspends that failed from position p on. */
  ghost function FailedSuspends(log: seq<Act>, p: nat): nat {
    if |log| <= p then 0
    else FailedSuspends(log[..|log| - 1], p) + if log[|log| - 1].Suspended? && !log[|log| - 1].ok then 1 else 0
  }

  ghost predicate Unbroken(log: seq<Act>, p: nat) {
    forall x | p <= x < |log| :: !log[x].Resumed? && !(log[x].Ended? && log[x].ok)
  }

  /** From a streak of zero at p, with no success and no resume since, the row
      of failures and the failed suspends in it are those since p. */
  lemma {:induction false} RowSince(log: seq<Act>, p: nat)
    requires p <= |log| && Unbroken(log, p) && Summarize(log[..p]).fails == 0 == Summarize(log[..p]).nudges
    ensures Summarize(log).fails == Fails(log, p) && Summarize(log).nudges <= FailedSuspends(log, p)
  {
    if p < |log| {
      var rest := log[..|log| - 1];
      assert rest[..p] == log[..p];
      RowSince(rest, p);
    } else {
      assert log[..p] == log;
    }
  }

  /** Failed suspends are counted only inside a row of failures. */
  lemma {:induction false} NoRowNoNudges(log: seq<Act>)
    ensures Summarize(log).fails == 0 ==> Summarize(log).nudges == 0
  {
    if log != [] {
      NoRowNoNudges(log[..|log| - 1]);
    }
  }
}
