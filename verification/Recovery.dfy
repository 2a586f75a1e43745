/** Reset and fault recovery of the touch driver: what panel resets, host
    faults, recovery attempts, suspend, resume and removal do to its flags. */
module Recovery {
  import opened RecoveryLog

  const BYTE: nat := 256

  /** Steps of a full re-initialisation. */
  datatype Stage =
    | PowerCycle | ResetResponse | DeviceDescriptor | ReportDescriptor
    | SetFeature05 | GetFeature70 | SetFeature70 | Output09 | SetFeature56
    | ColdAttach | Unsupported

  /** How the panel answers one of them; Paused is the cold attach stopping at
      an owner it does not have. */
  datatype Reply = Good | Bad | Fatal | SawReset(gap: nat) | Paused

  /** The stages of an attempt in order. */
  function Stages(path: Path, parity: bool): (s: seq<Stage>)
    ensures s != []
  {
    (if path == Hardware then [PowerCycle, ResetResponse] else [])
    + [DeviceDescriptor, ReportDescriptor]
    + if parity then (if path == Hardware then [ColdAttach] else [Unsupported])
      else [SetFeature05, GetFeature70, SetFeature70, Output09, SetFeature56]
  }

  /** Stages whose replies are read through the loops that notice a reset. */
  ghost predicate NoticesReset(stage: Stage) {
    stage != PowerCycle && stage != ResetResponse && stage != Output09 && stage != Unsupported
  }

  /** Module parameters. */
  datatype Config = Config(v2: bool, breaker: bool, faultRecovery: bool, parity: bool, cadence: bool)

  /** A successful attempt leaves the first valid frame to be awaited. */
  ghost predicate Wants(cfg: Config) {
    cfg.v2 || cfg.parity
  }

  /** Failed attempts a row may hold: four, or three when resets never select
      the software path, as often as the byte counter starts at zero, and one
      for every failed suspend, which schedules an attempt of its own. */
  ghost function Allowed(s: Summary, v2: bool): nat {
    (if v2 then 4 else 3) * (1 + s.fails / BYTE) + s.nudges
  }

  /** One more attempt along the path, with the hardware attempt that follows a
      failed software one, is within the budget. */
  ghost predicate Affordable(s: Summary, v2: bool, path: Path) {
    s.fails + (if path == Software then 2 else 1) <= Allowed(s, v2)
  }

  /** The row never outgrows its budget, not even where the counter last
      passed zero, and an attempt is scheduled only when affordable. */
  ghost predicate Budget(s: Summary, v2: bool, scheduled: bool, path: Path) {
    && s.fails <= Allowed(s, v2)
    && s.fails / BYTE * BYTE + (if v2 then 4 else 3) <= Allowed(s, v2)
    && (scheduled ==> Affordable(s, v2, path))
  }

  lemma BudgetAfterFailure(s: Summary, v2: bool, before: Path, path: Path, scheduled: bool, after: Path)
    requires Budget(s, v2, false, before) && Affordable(s, v2, path) && (!v2 ==> path == after == Hardware)
    requires scheduled ==> path == Software || (s.fails + 1) % BYTE < RECOVERY_LIMIT
    requires scheduled && path == Software ==> after == Hardware
    ensures Budget(Step(s, Ended(path, false, false)), v2, scheduled, after)
  {
    var f := s.fails + 1;
    if f % BYTE == 0 {
      assert f / BYTE == s.fails / BYTE + 1;
    } else {
      assert f / BYTE == s.fails / BYTE;
    }
    assert f == f / BYTE * BYTE + f % BYTE;
  }

  /** The driver's flags at one moment. */
  datatype Flags = Flags(modeEnabled: bool, awaiting: bool, stopping: bool, scheduled: bool, path: Path,
                         failStreak: nat, rapidStreak: nat)

  /** The flags say what the log says. */
  ghost predicate Agree(cfg: Config, f: Flags, log: seq<Act>) {
    Sound(log, Wants(cfg)) && Matches(cfg, f, Summarize(log))
  }

  ghost predicate Matches(cfg: Config, f: Flags, s: Summary) {
    && f.modeEnabled == s.open && (f.modeEnabled ==> f.awaiting == (Wants(cfg) && s.first))
    && f.failStreak == s.fails % BYTE
    && (cfg.breaker ==> f.rapidStreak == s.rapid % BYTE)
    && (f.modeEnabled ==> s.fails == 0)
    && (f.stopping ==> !f.modeEnabled && !f.scheduled)
    && (f.scheduled ==> !f.modeEnabled)
    && (!cfg.v2 ==> f.path == Hardware)
    && Budget(s, cfg.v2, f.scheduled, f.path)
  }

  /** The path a panel reset selects. */
  ghost function ResetPath(cfg: Config, log: seq<Act>): Path {
    if !cfg.v2 || (cfg.breaker && Summarize(log).rapid % BYTE >= STORM_LIMIT) then Hardware else Software
  }

  /** A byte counter one up. */
  function NextByte(b: nat): nat {
    if b + 1 == BYTE then 0 else b + 1
  }

  /** The run of rapid resets in a byte, after one more reset. */
  function NextStreak(streak: nat, gap: nat): nat {
    if gap != 0 && gap <= STORM_WINDOW_MS then NextByte(streak) else 1
  }

  /** The reply lets the attempt go on; only a cold attach may pause. */
  ghost predicate Passes(stage: Stage, reply: Reply) {
    stage != Unsupported && (reply.Good? || (stage == ColdAttach && reply.Paused?))
  }

  /** How an attempt ends: every stage passed, or the first that did not. */
  datatype Outcome = AllPassed | NoticedReset(gap: nat) | TransportDied | Refused

  /** The reply kills the transport: it died in an exchange with the panel, or
      the one output that must not fail did. */
  ghost predicate Kills(stage: Stage, reply: Reply) {
    stage == Output09 || (reply.Fatal? && stage != PowerCycle && stage != Unsupported)
  }

  ghost function Verdict(stage: Stage, reply: Reply): Outcome {
    if reply.SawReset? && NoticesReset(stage) then NoticedReset(reply.gap)
    else if Kills(stage, reply) then TransportDied
    else Refused
  }

  /** An answer that does not come counts as a bad one. */
  ghost function ReplyAt(replies: seq<Reply>, k: nat): Reply {
    if k < |replies| then replies[k] else Bad
  }

  ghost function Later(replies: seq<Reply>): seq<Reply> {
    if replies == [] then [] else replies[1..]
  }

  ghost function OutcomeOf(stages: seq<Stage>, replies: seq<Reply>): Outcome {
    if stages == [] then AllPassed
    else if Passes(stages[0], ReplyAt(replies, 0)) then OutcomeOf(stages[1..], Later(replies))
    else Verdict(stages[0], ReplyAt(replies, 0))
  }

  /** The attempt stops at stage k, the first whose reply does not let it go on. */
  ghost predicate StopsAt(stages: seq<Stage>, replies: seq<Reply>, k: nat) {
    && k < |stages| && !Passes(stages[k], ReplyAt(replies, k))
    && forall i: nat | i < k :: Passes(stages[i], ReplyAt(replies, i))
  }

  lemma {:induction false} StopDecides(stages: seq<Stage>, replies: seq<Reply>, k: nat)
    requires StopsAt(stages, replies, k)
    ensures OutcomeOf(stages, replies) == Verdict(stages[k], ReplyAt(replies, k))
  {
    if k > 0 {
      assert Passes(stages[0], ReplyAt(replies, 0));
      forall i: nat | i < k - 1
        ensures Passes(stages[1..][i], ReplyAt(Later(replies), i))
      {
        assert Passes(stages[i + 1], ReplyAt(replies, i + 1));
      }
      assert ReplyAt(Later(replies), k - 1) == ReplyAt(replies, k);
      StopDecides(stages[1..], Later(replies), k - 1);
    }
  }

  /** Every attempt passes all its stages or stops at one of them. */
  lemma {:induction false} StopsSomewhere(stages: seq<Stage>, replies: seq<Reply>) returns (k: nat)
    requires OutcomeOf(stages, replies) != AllPassed
    ensures StopsAt(stages, replies, k)
  {
    k := 0;
    if Passes(stages[0], ReplyAt(replies, 0)) {
      var l := StopsSomewhere(stages[1..], Later(replies));
      k := l + 1;
      forall i: nat | i < k
        ensures Passes(stages[i], ReplyAt(replies, i))
      {
        if i > 0 {
          assert Passes(stages[1..][i - 1], ReplyAt(Later(replies), i - 1));
        }
      }
    }
  }

  /** What an attempt that stops at a stage with a reply leaves: a reset seen by
      a stage that reads input is noted with its gap, a killed transport stops
      all retries, and any other refusal changes neither. */
  ghost predicate Stopped(stage: Stage, reply: Reply, taken: Path, fatal0: bool, log0: seq<Act>, fatal: bool, scheduled: bool, log: seq<Act>) {
    if reply.SawReset? && NoticesReset(stage) then
      log == log0 + [Attempt(taken), PanelReset(reply.gap), Ended(taken, false, false)] && fatal == fatal0
    else
      && log == log0 + [Attempt(taken), Ended(taken, false, false)]
      && if Kills(stage, reply) then fatal && !scheduled else fatal == fatal0
  }

  /** What an attempt leaves: it passed every stage, or stopped at one. */
  ghost predicate Attempted(stages: seq<Stage>, replies: seq<Reply>, taken: Path, fatal0: bool, log0: seq<Act>,
                            fatal: bool, scheduled: bool, opens: bool, log: seq<Act>) {
    && (AllGood(stages, replies) ==>
          && log == log0 + [Attempt(taken), Ended(taken, true, opens)] && fatal == fatal0 && !scheduled
          && (opens <==> forall i | 0 <= i < |stages| :: !replies[i].Paused?))
    && (!AllGood(stages, replies) ==> !opens && exists k: nat :: StopsAt(stages, replies, k))
    && forall k: nat | StopsAt(stages, replies, k) ::
         Stopped(stages[k], ReplyAt(replies, k), taken, fatal0, log0, fatal, scheduled, log)
  }

  ghost predicate AllGood(stages: seq<Stage>, replies: seq<Reply>) {
    |stages| <= |replies| && forall i | 0 <= i < |stages| :: Passes(stages[i], replies[i])
  }

  /** An attempt succeeds exactly when every stage of its path passed. */
  lemma {:induction false} SucceedsWhenAllGood(stages: seq<Stage>, replies: seq<Reply>)
    ensures OutcomeOf(stages, replies) == AllPassed <==> AllGood(stages, replies)
  {
    if stages != [] && replies != [] && Passes(stages[0], replies[0]) {
      assert ReplyAt(replies, 0) == replies[0];
      SucceedsWhenAllGood(stages[1..], replies[1..]);
      assert AllGood(stages[1..], replies[1..]) ==> AllGood(stages, replies) by {
        assert forall i | 0 < i < |stages| && i < |replies| :: stages[i] == stages[1..][i - 1] && replies[i] == replies[1..][i - 1];
      }
    }
  }

  /** A successful attempt opens the input unless a cold attach paused. */
  predicate Opens(cfg: Config, path: Path, replies: seq<Reply>) {
    var last := |Stages(path, cfg.parity)| - 1;
    !cfg.parity || (last < |replies| && replies[last] == Good)
  }

  lemma ByteStep(n: nat)
    ensures NextByte(n % BYTE) == (n + 1) % BYTE
  {}

  lemma AfterReset(cfg: Config, f: Flags, log: seq<Act>, gap: nat, f': Flags)
    requires Agree(cfg, f, log) && !f.scheduled && (f'.scheduled ==> f.modeEnabled && !f.stopping)
    requires f' == f.(modeEnabled := false, awaiting := false, scheduled := f'.scheduled, path := f'.path, rapidStreak := f'.rapidStreak)
    requires cfg.breaker ==> f'.rapidStreak == NextStreak(f.rapidStreak, gap)
    requires f'.path == if !cfg.v2 || (cfg.breaker && f'.rapidStreak >= STORM_LIMIT) then Hardware else Software
    ensures Agree(cfg, f', log + [PanelReset(gap)]) && f'.path == ResetPath(cfg, log + [PanelReset(gap)])
  {
    Snoc(log, PanelReset(gap), Wants(cfg));
    ByteStep(Summarize(log).rapid);
  }

  lemma AfterFault(cfg: Config, f: Flags, log: seq<Act>, f': Flags)
    requires Agree(cfg, f, log) && f.modeEnabled
    requires f' == f.(modeEnabled := false, awaiting := false, path := Hardware, rapidStreak := 0, scheduled := f'.scheduled)
    requires f'.scheduled ==> !f.stopping
    ensures Agree(cfg, f', log + [HostFault])
  {}

  /** Reports change no flag but the wait for a first valid frame. */
  lemma AfterReport(cfg: Config, f: Flags, log: seq<Act>, act: Act, f': Flags)
    requires Agree(cfg, f, log) && f.modeEnabled && (act.Frame? || act.BadFrame? || (act.Press? && !f.awaiting))
    requires f' == f.(awaiting := f.awaiting && !act.Frame?)
    ensures Agree(cfg, f', log + [act])
  {}

  lemma AfterAttempt(cfg: Config, f: Flags, log: seq<Act>, f': Flags)
    requires Agree(cfg, f, log) && f' == f.(modeEnabled := false, awaiting := false, scheduled := false)
    ensures Agree(cfg, f', log + [Attempt(f.path)])
    ensures f.scheduled ==> Affordable(Summarize(log + [Attempt(f.path)]), cfg.v2, f.path)
  {}

  /** A successful attempt along a path. */
  lemma AfterSuccess(cfg: Config, f: Flags, log: seq<Act>, path: Path, f': Flags)
    requires Agree(cfg, f, log) && !f.scheduled && !f.stopping
    requires f' == f.(modeEnabled := f'.modeEnabled, awaiting := f'.modeEnabled && Wants(cfg), path := Hardware,
                      failStreak := 0, rapidStreak := if path == Hardware then 0 else f.rapidStreak)
    ensures Agree(cfg, f', log + [Ended(path, true, f'.modeEnabled)])
  {}

  /** What a failed attempt along a path may do to the flags. */
  ghost predicate FailsTo(cfg: Config, f: Flags, path: Path, f': Flags) {
    && f'.failStreak == NextByte(f.failStreak)
    && (f'.scheduled ==> !f.stopping && (path == Software || f'.failStreak < RECOVERY_LIMIT))
    && f' == f.(failStreak := f'.failStreak, scheduled := f'.scheduled, path := f'.path)
    && (path == Software && f'.scheduled ==> f'.path == Hardware) && (f'.path == f.path || f'.path == Hardware)
  }

  lemma MatchesAfterFailure(cfg: Config, f: Flags, s: Summary, path: Path, f': Flags)
    requires Matches(cfg, f, s) && !f.scheduled && !f.modeEnabled && (!cfg.v2 ==> path == Hardware)
    requires Affordable(s, cfg.v2, path) && FailsTo(cfg, f, path, f')
    ensures Matches(cfg, f', Step(s, Ended(path, false, false)))
  {
    ByteStep(s.fails);
    BudgetAfterFailure(s, cfg.v2, f.path, path, f'.scheduled, f'.path);
  }

  /** A failed attempt along a path the budget allowed. */
  lemma AfterFailure(cfg: Config, f: Flags, log: seq<Act>, path: Path, f': Flags)
    requires Agree(cfg, f, log) && !f.scheduled && !f.modeEnabled && (!cfg.v2 ==> path == Hardware)
    requires Affordable(Summarize(log), cfg.v2, path) && FailsTo(cfg, f, path, f')
    ensures Agree(cfg, f', log + [Ended(path, false, false)])
  {
    MatchesAfterFailure(cfg, f, Summarize(log), path, f');
    Snoc(log, Ended(path, false, false), Wants(cfg));
  }

  lemma AfterSuspend(cfg: Config, f: Flags, log: seq<Act>, ok: bool, f': Flags)
    requires Agree(cfg, f, log) && !f.stopping
    requires f' == f.(modeEnabled := false, scheduled := !ok, path := if ok then f.path else Hardware)
    ensures Agree(cfg, f', log + [Suspended(ok)])
  {}

  lemma AfterResume(cfg: Config, f: Flags, log: seq<Act>, f': Flags)
    requires Agree(cfg, f, log) && !f.stopping && !f.modeEnabled
    requires f' == f.(failStreak := 0, path := Hardware, scheduled := f'.scheduled)
    ensures Agree(cfg, f', log + [Resumed])
  {}

  lemma AfterRemove(cfg: Config, f: Flags, log: seq<Act>, f': Flags)
    requires Agree(cfg, f, log) && f' == f.(stopping := true, modeEnabled := false, scheduled := false)
    ensures Agree(cfg, f', log + [Removed])
  {}

  /** The log after one attempt. */
  ghost function AfterOneAttempt(log: seq<Act>, path: Path, outcome: Outcome, opens: bool): seq<Act> {
    var begun := log + [Attempt(path)];
    (if outcome.NoticedReset? then begun + [PanelReset(outcome.gap)] else begun)
    + [Ended(path, outcome == AllPassed, opens)]
  }

  /** Bounded recovery: from a streak of zero at p, with no success and no
      resume since, the failed attempts are within the budget. */
  lemma BoundedRetry(cfg: Config, f: Flags, log: seq<Act>, p: nat)
    requires Agree(cfg, f, log) && p <= |log| && Unbroken(log, p) && Summarize(log[..p]).fails == 0
    ensures var k, limit := Fails(log, p), if cfg.v2 then 4 else 3;
            && k <= limit * (1 + k / BYTE) + FailedSuspends(log, p)
            && (k < BYTE ==> k <= limit + FailedSuspends(log, p))
  {
    WithinBudget(cfg, f, Summarize(log));
    NoRowNoNudges(log[..p]);
    RowSince(log, p);
  }

  lemma WithinBudget(cfg: Config, f: Flags, s: Summary)
    requires Matches(cfg, f, s)
    ensures s.fails <= (if cfg.v2 then 4 else 3) * (1 + s.fails / BYTE) + s.nudges
    ensures s.fails < BYTE ==> s.fails <= (if cfg.v2 then 4 else 3) + s.nudges
  {}

  /** The third reset in a row, for every length the run had before: it selects
      hardware exactly when it and the one before came soon after their
      predecessors and the count, a byte, has not just gone round. */
  lemma ThirdResetSelects(cfg: Config, log: seq<Act>, one: nat, q1: seq<Act>, two: nat, q2: seq<Act>, three: nat)
    requires cfg.v2 && cfg.breaker
    requires AllQuiet(q1) && AllQuiet(q2)
    ensures var first := log + [PanelReset(one)];
            var all := first + q1 + [PanelReset(two)] + q2 + [PanelReset(three)];
            ResetPath(cfg, all) == Hardware <==>
              Rapid(two) && Rapid(three) && (Summarize(first).rapid + 2) % BYTE >= STORM_LIMIT
  {
    var first := log + [PanelReset(one)];
    RunAfterReset(first, q1, two);
    RunAfterReset(first + q1 + [PanelReset(two)], q2, three);
  }

  /** With the breaker on, the third reset of a rapid streak selects hardware:
      exactly when both later resets came within the window and not in the same
      millisecond as the one before. */
  lemma StormSelectsHardware(cfg: Config, log: seq<Act>, one: nat, q1: seq<Act>, two: nat, q2: seq<Act>, three: nat)
    requires cfg.v2 && cfg.breaker && Summarize(log + [PanelReset(one)]).rapid == 1
    requires AllQuiet(q1) && AllQuiet(q2)
    ensures var all := log + [PanelReset(one)] + q1 + [PanelReset(two)] + q2 + [PanelReset(three)];
            ResetPath(cfg, all) == Hardware <==> Rapid(two) && Rapid(three)
  {
    ThirdResetSelects(cfg, log, one, q1, two, q2, three);
  }

  /** A streak of any length: when a run starts and k more resets follow, each
      soon after the one before, the last one selects hardware exactly when the
      k + 1 resets, counted in a byte, are at least three. */
  lemma StreakSelects(cfg: Config, log: seq<Act>, more: seq<(seq<Act>, nat)>)
    requires cfg.v2 && cfg.breaker && Summarize(log).rapid == 1 && RapidStreak(more)
    ensures Summarize(WithResets(log, more)).rapid == |more| + 1
    ensures more != [] ==> (ResetPath(cfg, WithResets(log, more)) == Hardware <==> (|more| + 1) % BYTE >= STORM_LIMIT)
  {
    StreakGrows(log, more);
  }

  lemma OpensUnlessPaused(cfg: Config, path: Path, replies: seq<Reply>)
    requires AllGood(Stages(path, cfg.parity), replies)
    ensures Opens(cfg, path, replies) <==> forall i | 0 <= i < |Stages(path, cfg.parity)| :: !replies[i].Paused?
  {
    var stages := Stages(path, cfg.parity);
    forall i | 0 <= i < |stages|
      ensures replies[i] == Good || (stages[i] == ColdAttach && replies[i] == Paused)
    {
      assert Passes(stages[i], replies[i]);
    }
  }

  lemma AttemptIs(cfg: Config, taken: Path, replies: seq<Reply>, outcome: Outcome, fatal0: bool, log0: seq<Act>,
                  fatal: bool, scheduled: bool, opens: bool, log: seq<Act>)
    requires outcome == OutcomeOf(Stages(taken, cfg.parity), replies) && log == AfterOneAttempt(log0, taken, outcome, opens)
    requires fatal == (fatal0 || outcome == TransportDied) && (fatal ==> !scheduled) && (outcome == AllPassed ==> !scheduled)
    requires opens == (outcome == AllPassed && Opens(cfg, taken, replies))
    ensures Attempted(Stages(taken, cfg.parity), replies, taken, fatal0, log0, fatal, scheduled, opens, log)
  {
    var stages := Stages(taken, cfg.parity);
    SucceedsWhenAllGood(stages, replies);
    if outcome == AllPassed {
      OpensUnlessPaused(cfg, taken, replies);
    } else {
      var k := StopsSomewhere(stages, replies);
    }
    forall k: nat | StopsAt(stages, replies, k)
      ensures Stopped(stages[k], ReplyAt(replies, k), taken, fatal0, log0, fatal, scheduled, log)
    {
      StopDecides(stages, replies, k);
    }
  }

  class Gate {
    const cfg: Config
    var modeEnabled: bool
    var awaiting: bool
    var fatal: bool
    var stopping: bool
    var scheduled: bool
    var path: Path
    var failStreak: nat
    var rapidStreak: nat
    ghost var log: seq<Act>

    ghost function Now(): Flags
      reads this
    {
      Flags(modeEnabled, awaiting, stopping, scheduled, path, failStreak, rapidStreak)
    }

    ghost predicate Valid()
      reads this
    {
      Agree(cfg, Now(), log)
    }

    /** The state after probe: the first hardware attempt is scheduled. */
    constructor (cfg: Config)
      ensures Valid() && this.cfg == cfg && log == [] && scheduled && path == Hardware && !modeEnabled && !stopping
    {
      this.cfg := cfg;
      modeEnabled, awaiting, fatal, stopping, scheduled := false, false, false, false, true;
      path, failStreak, rapidStreak, log := Hardware, 0, 0, [];
    }

    /** The path a reset selects, with the storm breaker's count. */
    method SelectPath(gap: nat)
      modifies this`path, this`rapidStreak
      ensures rapidStreak == if cfg.breaker then NextStreak(old(rapidStreak), gap) else old(rapidStreak)
      ensures path == if !cfg.v2 || (cfg.breaker && rapidStreak >= STORM_LIMIT) then Hardware else Software
    {
      path := if cfg.v2 then Software else Hardware;
      if cfg.breaker {
        rapidStreak := NextStreak(rapidStreak, gap);
        if rapidStreak >= STORM_LIMIT {
          path := Hardware;
        }
      }
    }

    /** g6ts_note_panel_reset_locked; the caller clears the tracks. */
    method NotePanelReset(gap: nat, schedule: bool)
      requires Valid() && !scheduled && (schedule ==> modeEnabled)
      modifies this
      ensures Valid() && log == old(log) + [PanelReset(gap)] && !modeEnabled
      ensures path == ResetPath(cfg, log) && scheduled == (schedule && !stopping)
      ensures fatal == old(fatal) && stopping == old(stopping)
    {
      ghost var before := Now();
      modeEnabled, awaiting := false, false;
      SelectPath(gap);
      if schedule && !stopping {
        scheduled := true;
      }
      AfterReset(cfg, before, log, gap, Now());
      log := log + [PanelReset(gap)];
    }

    /** g6ts_note_host_fault_locked; the caller clears the tracks if the input closes. */
    method NoteHostFault()
      requires Valid() && modeEnabled
      modifies this
      ensures Valid() && stopping == old(stopping)
      ensures if cfg.faultRecovery then log == old(log) + [HostFault] && !modeEnabled && path == Hardware && !fatal && scheduled
              else log == old(log) && modeEnabled
    {
      if !cfg.faultRecovery {
        return;
      }
      ghost var before := Now();
      fatal, modeEnabled, awaiting, path, rapidStreak := false, false, false, Hardware, 0;
      if !stopping {
        scheduled := true;
      }
      AfterFault(cfg, before, log, Now());
      log := log + [HostFault];
    }

    /** One exchange with the panel, the next of those still to do. */
    method Exchange(stage: Stage, replies: seq<Reply>, ghost todo: seq<Stage>) returns (outcome: Outcome, rest: seq<Reply>)
      requires todo != [] && todo[0] == stage && stage != Unsupported
      ensures outcome == AllPassed ==> OutcomeOf(todo, replies) == OutcomeOf(todo[1..], rest)
      ensures outcome != AllPassed ==> OutcomeOf(todo, replies) == outcome
    {
      var reply := Bad;
      rest := [];
      if replies != [] {
        reply, rest := replies[0], replies[1..];
      }
      match reply
      case Good => outcome := AllPassed;
      case Bad => outcome := if stage == Output09 then TransportDied else Refused;
      case Fatal => outcome := if stage == PowerCycle then Refused else TransportDied;
      case Paused =>
        outcome := if stage == ColdAttach then AllPassed else if stage == Output09 then TransportDied else Refused;
      case SawReset(gap) =>
        if stage == PowerCycle || stage == ResetResponse {
          outcome := Refused;
        } else if stage == Output09 {
          outcome := TransportDied;
        } else {
          outcome := NoticedReset(gap);
        }
    }

    /** The sequence of g6ts_full_reinitialize_locked, exchange by exchange. */
    method RunSequence(taken: Path, replies: seq<Reply>) returns (outcome: Outcome)
      ensures outcome == OutcomeOf(Stages(taken, cfg.parity), replies)
    {
      ghost var todo := Stages(taken, cfg.parity);
      var rest := replies;
      if taken == Hardware {
        outcome, rest := Exchange(PowerCycle, rest, todo);
        if outcome != AllPassed {
          return;
        }
        todo := todo[1..];
        outcome, rest := Exchange(ResetResponse, rest, todo);
        if outcome != AllPassed {
          return;
        }
        todo := todo[1..];
      }
      outcome, rest := Exchange(DeviceDescriptor, rest, todo);
      if outcome != AllPassed {
        return;
      }
      todo := todo[1..];
      outcome, rest := Exchange(ReportDescriptor, rest, todo);
      if outcome != AllPassed {
        return;
      }
      todo := todo[1..];
      if cfg.parity {
        outcome := ColdAttachOnly(taken, rest, todo);
      } else {
        outcome := EnableStreaming(rest, todo);
      }
    }

    /** The Windows ordering knows no software path. */
    method ColdAttachOnly(taken: Path, replies: seq<Reply>, ghost todo: seq<Stage>) returns (outcome: Outcome)
      requires todo == if taken == Hardware then [ColdAttach] else [Unsupported]
      ensures outcome == OutcomeOf(todo, replies)
    {
      if taken != Hardware {
        return Refused;
      }
      var rest;
      outcome, rest := Exchange(ColdAttach, replies, todo);
    }

    /** The features that make the panel stream. */
    method EnableStreaming(replies: seq<Reply>, ghost todo: seq<Stage>) returns (outcome: Outcome)
      requires todo == [SetFeature05, GetFeature70, SetFeature70, Output09, SetFeature56]
      ensures outcome == OutcomeOf(todo, replies)
    {
      var rest;
      outcome, rest := Exchange(SetFeature05, replies, todo);
      if outcome != AllPassed {
        return;
      }
      outcome, rest := Exchange(GetFeature70, rest, todo[1..]);
      if outcome != AllPassed {
        return;
      }
      outcome, rest := Exchange(SetFeature70, rest, todo[2..]);
      if outcome != AllPassed {
        return;
      }
      outcome, rest := Exchange(Output09, rest, todo[3..]);
      if outcome != AllPassed {
        return;
      }
      outcome, rest := Exchange(SetFeature56, rest, todo[4..]);
    }

    /** g6ts_full_reinitialize_locked: every stage of the path in order, as the
        panel answers. */
    method Reinitialize(taken: Path, replies: seq<Reply>) returns (outcome: Outcome)
      requires Valid() && !scheduled && !modeEnabled && !awaiting && (!cfg.v2 ==> taken == Hardware)
      modifies this
      ensures outcome == OutcomeOf(Stages(taken, cfg.parity), replies)
      ensures scheduled == old(scheduled) && stopping == old(stopping) && failStreak == old(failStreak)
      ensures fatal == (old(fatal) || outcome == TransportDied)
      ensures modeEnabled == (outcome == AllPassed && Opens(cfg, taken, replies))
      ensures outcome == AllPassed ==> log == old(log) && Now() == old(Now()).(modeEnabled := modeEnabled, awaiting := modeEnabled && Wants(cfg))
      ensures outcome != AllPassed ==> Valid()
      ensures if outcome.NoticedReset? then log == old(log) + [PanelReset(outcome.gap)] && path == ResetPath(cfg, log)
              else log == old(log) && path == old(path)
    {
      outcome := RunSequence(taken, replies);
      match outcome
      case NoticedReset(gap) =>
        NotePanelReset(gap, false);
      case TransportDied =>
        fatal := true;
      case Refused =>
      case AllPassed =>
        if Opens(cfg, taken, replies) {
          awaiting := cfg.v2 || cfg.parity;
          modeEnabled := true;
        }
    }

    /** The input closes and the delay of the worker is used up. */
    method BeginAttempt()
      requires Valid() && scheduled
      modifies this
      ensures Valid() && log == old(log) + [Attempt(path)] && !scheduled && !modeEnabled && !awaiting
      ensures path == old(path) && fatal == old(fatal) && stopping == old(stopping) && failStreak == old(failStreak)
      ensures Affordable(Summarize(log), cfg.v2, path)
    {
      ghost var before := Now();
      scheduled, modeEnabled, awaiting := false, false, false;
      AfterAttempt(cfg, before, log, Now());
      log := log + [Attempt(path)];
    }

    /** g6ts_recovery_work, when its delay is over; the caller clears the tracks. */
    method Work(replies: seq<Reply>) returns (outcome: Outcome)
      requires Valid() && scheduled
      modifies this
      ensures Valid() && outcome == OutcomeOf(Stages(old(path), cfg.parity), replies)
      ensures Attempted(Stages(old(path), cfg.parity), replies, old(path), old(fatal), old(log), fatal, scheduled, modeEnabled, log)
      ensures log == AfterOneAttempt(old(log), old(path), outcome, modeEnabled)
      ensures modeEnabled == (outcome == AllPassed && Opens(cfg, old(path), replies))
      ensures stopping == old(stopping) && fatal == (old(fatal) || outcome == TransportDied)
      ensures if outcome == AllPassed then !scheduled && path == Hardware && failStreak == 0
              else failStreak == NextByte(old(failStreak))
                   && (scheduled <==> !fatal && (old(path) == Software || failStreak < RECOVERY_LIMIT))
      ensures outcome != AllPassed && old(path) == Software && !fatal ==> path == Hardware
    {
      ghost var taken, fatal0, log0 := path, fatal, log;
      outcome := RunAttempt(replies);
      AttemptIs(cfg, taken, replies, outcome, fatal0, log0, fatal, scheduled, modeEnabled, log);
    }

    /** The attempt and what follows from its outcome. */
    method RunAttempt(replies: seq<Reply>) returns (outcome: Outcome)
      requires Valid() && scheduled
      modifies this
      ensures Valid() && outcome == OutcomeOf(Stages(old(path), cfg.parity), replies)
      ensures log == AfterOneAttempt(old(log), old(path), outcome, modeEnabled)
      ensures modeEnabled == (outcome == AllPassed && Opens(cfg, old(path), replies))
      ensures stopping == old(stopping) && fatal == (old(fatal) || outcome == TransportDied)
      ensures if outcome == AllPassed then !scheduled && path == Hardware && failStreak == 0
              else failStreak == NextByte(old(failStreak))
                   && (scheduled <==> !fatal && (old(path) == Software || failStreak < RECOVERY_LIMIT))
      ensures outcome != AllPassed && old(path) == Software && !fatal ==> path == Hardware
    {
      var taken := path;
      BeginAttempt();
      outcome := Reinitialize(taken, replies);
      if outcome == AllPassed {
        Succeeded(taken);
      } else {
        Failed(taken);
      }
    }

    /** The worker's part after a successful attempt. */
    method Succeeded(taken: Path)
      requires Agree(cfg, Now().(modeEnabled := false, awaiting := false), log) && !scheduled && !stopping
      requires awaiting == (modeEnabled && Wants(cfg))
      modifies this
      ensures Valid() && log == old(log) + [Ended(taken, true, modeEnabled)] && modeEnabled == old(modeEnabled)
      ensures !scheduled && stopping == old(stopping) && fatal == old(fatal) && path == Hardware && failStreak == 0
    {
      ghost var before := Now().(modeEnabled := false, awaiting := false);
      failStreak := 0;
      if taken == Hardware {
        rapidStreak := 0;
      }
      path := Hardware;
      AfterSuccess(cfg, before, log, taken, Now());
      log := log + [Ended(taken, true, modeEnabled)];
    }

    /** Count a failed attempt and decide on another: a software attempt falls
        back to a hardware one, a hardware attempt is repeated while the streak
        is short, and a dead transport stops both. */
    method Fallback(taken: Path) returns (retry: bool)
      modifies this`failStreak, this`path
      ensures failStreak == NextByte(old(failStreak))
      ensures retry <==> !fatal && (taken == Software || failStreak < RECOVERY_LIMIT)
      ensures path == if taken == Software && !fatal then Hardware else old(path)
    {
      failStreak := NextByte(failStreak);
      if taken == Software && !fatal {
        path := Hardware;
        retry := true;
      } else {
        retry := !fatal && failStreak < RECOVERY_LIMIT;
      }
    }

    /** The worker's part after a failed attempt. */
    method Failed(taken: Path)
      requires Valid() && !scheduled && !modeEnabled && !stopping && (!cfg.v2 ==> taken == Hardware)
      requires Affordable(Summarize(log), cfg.v2, taken)
      modifies this
      ensures Valid() && log == old(log) + [Ended(taken, false, false)] && !modeEnabled
      ensures stopping == old(stopping) && fatal == old(fatal) && failStreak == NextByte(old(failStreak))
      ensures scheduled <==> !fatal && (taken == Software || failStreak < RECOVERY_LIMIT)
      ensures path == if taken == Software && !fatal then Hardware else old(path)
    {
      ghost var before := Now();
      var retry := Fallback(taken);
      scheduled := retry && !stopping;
      AfterFailure(cfg, before, log, taken, Now());
      log := log + [Ended(taken, false, false)];
    }

    /** A report handled while the input is open. */
    method Report(ghost act: Act, heat: bool)
      requires heat == act.Frame? && Valid() && modeEnabled && (act.Frame? || act.BadFrame? || (act.Press? && !awaiting))
      modifies this`awaiting, this`log
      ensures Valid() && log == old(log) + [act]
    {
      ghost var before := Now();
      if heat {
        awaiting := false;
      }
      AfterReport(cfg, before, log, act, Now());
      log := log + [act];
    }

    /** A read failed; fatal says whether the transport did. */
    method MarkFatal(transport: bool)
      requires Valid()
      modifies this`fatal
      ensures Valid() && fatal == (old(fatal) || transport)
    {
      fatal := fatal || transport;
    }

    /** g6ts_suspend; ok says whether the panel could be powered off. */
    method Suspend(ok: bool)
      requires Valid() && !stopping
      modifies this
      ensures Valid() && log == old(log) + [Suspended(ok)] && !modeEnabled && scheduled == !ok
      ensures stopping == old(stopping) && fatal == old(fatal) && path == if ok then old(path) else Hardware
    {
      ghost var before := Now();
      modeEnabled, scheduled := false, false;
      if !ok {
        path := Hardware;
        scheduled := true;
      }
      AfterSuspend(cfg, before, log, ok, Now());
      log := log + [Suspended(ok)];
    }

    /** g6ts_resume; ok says whether the panel could be powered on. */
    method Resume(ok: bool)
      requires Valid() && !stopping && !modeEnabled
      modifies this`fatal, this`failStreak, this`path, this`scheduled, this`log
      ensures Valid() && log == old(log) + [Resumed] && failStreak == 0 && path == Hardware
      ensures !fatal && scheduled == (ok || old(scheduled))
    {
      ghost var before := Now();
      fatal, failStreak, path := false, 0, Hardware;
      if ok {
        scheduled := true;
      }
      ghost var after := before.(failStreak := 0, path := Hardware, scheduled := scheduled);
      assert Now() == after;
      AfterResume(cfg, before, log, after);
      log := log + [Resumed];
    }

    /** g6ts_remove. */
    method Remove()
      requires Valid()
      modifies this
      ensures Valid() && log == old(log) + [Removed] && stopping && !modeEnabled && !scheduled
    {
      ghost var before := Now();
      stopping, modeEnabled, scheduled := true, false, false;
      AfterRemove(cfg, before, log, Now());
      log := log + [Removed];
    }
  }
}
