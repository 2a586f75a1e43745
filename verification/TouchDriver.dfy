/** The driver's input path: the interrupt thread and the recovery worker over
    the flags and the track table together. */
module TouchDriver {
  import opened Lifecycle
  import opened TrackAssignment
  import opened Tracker
  import opened RecoveryLog
  import opened Recovery

  const IRQ_DRAIN_LIMIT: nat := 128

  /** A Heat report: malformed, or the contacts found in it. */
  datatype HeatReport = Malformed | Found(contacts: seq<Contact>)

  /** What one read in the interrupt thread returns. */
  datatype Response =
    | NotReady
    | ReadFault(fatal: bool)
    | ResetNotice(gap: nat)
    | Heat(report: HeatReport)
    | Button(down: bool)
    | Other

  ghost predicate OnPanelAll(contacts: seq<Contact>) {
    |contacts| <= MAX_CONTACTS && forall c | c in contacts :: OnPanel(c)
  }

  ghost predicate Readable(r: Response) {
    r.Heat? && r.report.Found? ==> OnPanelAll(r.report.contacts)
  }

  /** Every slot's record covers that many frames. */
  ghost predicate Counted(beats: seq<seq<Beat>>, frames: nat) {
    forall i | 0 <= i < |beats| :: |beats[i]| == frames
  }

  // ----- what the interrupt thread adds to the log

  /** An act without what the tracks make of a frame. */
  ghost function Kind(act: Act): Act {
    if act.Frame? then Frame([]) else act
  }

  ghost function Kinds(acts: seq<Act>): (k: seq<Act>)
    ensures |k| == |acts| && forall i | 0 <= i < |acts| :: k[i] == Kind(acts[i])
  {
    seq(|acts|, i requires 0 <= i < |acts| => Kind(acts[i]))
  }

  /** after is before and acts of those kinds. */
  ghost predicate Adds(before: seq<Act>, after: seq<Act>, kinds: seq<Act>) {
    |before| <= |after| && after[..|before|] == before && Kinds(after[|before|..]) == kinds
  }

  lemma AddsOne(before: seq<Act>, act: Act)
    ensures Adds(before, before + [act], [Kind(act)])
  {}

  lemma AddsMore(before: seq<Act>, now: seq<Act>, after: seq<Act>, kinds: seq<Act>, more: seq<Act>)
    requires Adds(before, now, kinds) && Adds(now, after, more)
    ensures Adds(before, after, kinds + more)
  {}

  /** Reports produce output only as the wait for a first valid frame allows. */
  ghost function ReportKinds(awaiting: bool, r: Response): seq<Act> {
    if r.Heat? then (if r.report.Malformed? then [BadFrame] else [Frame([])])
    else if r.Button? && !awaiting then [Press(r.down)]
    else []
  }

  ghost function StillAwaiting(awaiting: bool, r: Response): bool {
    awaiting && !(r.Heat? && r.report.Found?)
  }

  ghost function FaultKinds(cfg: Config): seq<Act> {
    if cfg.faultRecovery then [HostFault] else []
  }

  /** What one read adds. */
  ghost function ReadKinds(cfg: Config, awaiting: bool, r: Response): seq<Act> {
    match r
    case NotReady => []
    case ReadFault(_) => FaultKinds(cfg)
    case ResetNotice(gap) => [PanelReset(gap)]
    case _ => ReportKinds(awaiting, r)
  }

  /** The drain loop ends after this read. */
  ghost predicate Stops(cfg: Config, r: Response) {
    r.NotReady? || r.ReadFault? || r.ResetNotice? || cfg.cadence
  }

  /** The drain loop over what is still to be read after n reads; at its limit
      something left to read counts as a fault. */
  ghost function DrainKinds(cfg: Config, awaiting: bool, rs: seq<Response>, n: nat): seq<Act>
    decreases |rs|
  {
    if rs == [] then []
    else if n >= IRQ_DRAIN_LIMIT then FaultKinds(cfg)
    else
      ReadKinds(cfg, awaiting, rs[0])
      + if Stops(cfg, rs[0]) then [] else DrainKinds(cfg, StillAwaiting(awaiting, rs[0]), rs[1..], n + 1)
  }

  /** kinds were added by the first i reads of the drain and rest is still to come. */
  ghost predicate Draining(cfg: Config, all: seq<Act>, kinds: seq<Act>, awaiting: bool, rs: seq<Response>, i: nat) {
    i <= |rs| && all == kinds + DrainKinds(cfg, awaiting, rs[i..], i)
  }

  lemma DrainStart(cfg: Config, awaiting: bool, rs: seq<Response>)
    ensures Draining(cfg, DrainKinds(cfg, awaiting, rs, 0), [], awaiting, rs, 0)
  {}

  lemma DrainStep(cfg: Config, all: seq<Act>, kinds: seq<Act>, awaiting: bool, rs: seq<Response>, i: nat)
    requires i < |rs| && i < IRQ_DRAIN_LIMIT && Draining(cfg, all, kinds, awaiting, rs, i)
    ensures var more := kinds + ReadKinds(cfg, awaiting, rs[i]);
            if Stops(cfg, rs[i]) then all == more
            else Draining(cfg, all, more, StillAwaiting(awaiting, rs[i]), rs, i + 1)
  {}

  lemma DrainEnd(cfg: Config, all: seq<Act>, kinds: seq<Act>, awaiting: bool, rs: seq<Response>, i: nat)
    requires Draining(cfg, all, kinds, awaiting, rs, i) && (i == |rs| || i == IRQ_DRAIN_LIMIT)
    ensures all == if i == |rs| then kinds else kinds + FaultKinds(cfg)
  {}

  lemma FramesAfterAttempt(log: seq<Act>, path: Path, outcome: Outcome)
    ensures forall opens :: Summarize(AfterOneAttempt(log, path, outcome, opens)).frames == 0
  {}

  class Driver {
    const gate: Gate
    const table: TrackTable

    /** The flags agree with the log, and the tracks have seen exactly the
        valid frames since they were last cleared. */
    ghost predicate Valid()
      reads gate, table, table.tracks
    {
      gate.Valid() && table.Valid() && Counted(table.beats, Summarize(gate.log).frames)
    }

    constructor (cfg: Config, policy: Policy)
      ensures Valid() && gate.cfg == cfg && table.policy == policy && gate.log == []
    {
      gate := new Gate(cfg);
      table := new TrackTable(policy);
    }

    /** A valid frame: track its contacts and report the earned tracks. */
    method HandleFrame(contacts: seq<Contact>)
      requires Valid() && gate.modeEnabled && |contacts| <= MAX_CONTACTS && forall c | c in contacts :: OnPanel(c)
      modifies gate`awaiting, gate`log, table`beats, table`motions, table.tracks, table.contactSlots
      modifies table.w.cost, table.w.u, table.w.v, table.w.p, table.w.way, table.w.minv, table.w.used
      ensures Valid() && |gate.log| > 0 && gate.log[|gate.log| - 1].Frame?
      ensures gate.log == old(gate.log) + [gate.log[|gate.log| - 1]]
      ensures ReportsEarned(gate.log[|gate.log| - 1].reports, table.tracks[..], table.beats)
    {
      var reports := table.ReportContacts(contacts);
      gate.Report(Frame(reports), true);
    }

    /** A Heat report while the input is open. */
    method HandleHeat(report: HeatReport)
      requires Valid() && gate.modeEnabled && Readable(Heat(report))
      modifies gate`awaiting, gate`log, table`beats, table`motions, table.tracks, table.contactSlots
      modifies table.w.cost, table.w.u, table.w.v, table.w.p, table.w.way, table.w.minv, table.w.used
      ensures Valid() && gate.modeEnabled
      ensures report.Malformed? ==> gate.log == old(gate.log) + [BadFrame]
      ensures report.Found? ==> |gate.log| > 0 && gate.log[|gate.log| - 1].Frame?
                                && gate.log == old(gate.log) + [gate.log[|gate.log| - 1]]
                                && ReportsEarned(gate.log[|gate.log| - 1].reports, table.tracks[..], table.beats)
    {
      if report.Malformed? {
        table.Release();
        gate.Report(BadFrame, false);
      } else {
        HandleFrame(report.contacts);
      }
    }

    /** g6ts_handle_data_report. */
    method HandleReport(r: Response)
      requires Valid() && gate.modeEnabled && Readable(r)
      modifies gate`awaiting, gate`log, table`beats, table`motions, table.tracks, table.contactSlots
      modifies table.w.cost, table.w.u, table.w.v, table.w.p, table.w.way, table.w.minv, table.w.used
      ensures Valid() && gate.modeEnabled
      ensures Adds(old(gate.log), gate.log, ReportKinds(old(gate.awaiting), r))
      ensures gate.awaiting == StillAwaiting(old(gate.awaiting), r)
    {
      ghost var before := gate.log;
      if gate.awaiting && !r.Heat? {
        return;
      }
      if r.Button? {
        gate.Report(Press(r.down), false);
        AddsOne(before, Press(r.down));
      } else if r.Heat? {
        HandleHeat(r.report);
        AddsOne(before, gate.log[|before|]);
      }
    }

    /** g6ts_note_panel_reset_locked from the interrupt thread. */
    method NotePanelReset(gap: nat)
      requires Valid() && gate.modeEnabled
      modifies gate, table, table.tracks
      ensures Valid() && gate.log == old(gate.log) + [PanelReset(gap)] && !gate.modeEnabled && gate.scheduled
      ensures forall i | 0 <= i < MAX_CONTACTS :: table.beats[i] == []
    {
      gate.NotePanelReset(gap, true);
      table.Release();
    }

    /** g6ts_note_host_fault_locked. */
    method NoteHostFault()
      requires Valid() && gate.modeEnabled
      modifies gate, table, table.tracks
      ensures Valid() && Adds(old(gate.log), gate.log, FaultKinds(gate.cfg))
      ensures gate.cfg.faultRecovery ==> !gate.modeEnabled && gate.scheduled && forall i | 0 <= i < MAX_CONTACTS :: table.beats[i] == []
    {
      ghost var before := gate.log;
      gate.NoteHostFault();
      if gate.cfg.faultRecovery {
        table.Release();
        AddsOne(before, HostFault);
      }
    }

    /** One read of the drain loop, and whether it is the last. */
    method HandleRead(r: Response) returns (stop: bool)
      requires Valid() && gate.modeEnabled && Readable(r)
      modifies gate, table, table.tracks, table.contactSlots
      modifies table.w.cost, table.w.u, table.w.v, table.w.p, table.w.way, table.w.minv, table.w.used
      ensures Valid() && Adds(old(gate.log), gate.log, ReadKinds(gate.cfg, old(gate.awaiting), r))
      ensures stop == Stops(gate.cfg, r)
      ensures !stop ==> gate.modeEnabled && gate.awaiting == StillAwaiting(old(gate.awaiting), r)
    {
      match r
      case NotReady =>
        stop := true;
      case ReadFault(fatal) =>
        gate.MarkFatal(fatal);
        NoteHostFault();
        stop := true;
      case ResetNotice(gap) =>
        ghost var before := gate.log;
        NotePanelReset(gap);
        AddsOne(before, PanelReset(gap));
        stop := true;
      case _ =>
        HandleReport(r);
        stop := gate.cfg.cadence;
    }

    /** One turn of the drain loop. */
    method DrainOne(responses: seq<Response>, i: nat, ghost before: seq<Act>, ghost all: seq<Act>, ghost kinds: seq<Act>)
      returns (stop: bool, ghost kinds': seq<Act>)
      requires Valid() && gate.modeEnabled && i < |responses| && i < IRQ_DRAIN_LIMIT && Readable(responses[i])
      requires Adds(before, gate.log, kinds) && Draining(gate.cfg, all, kinds, gate.awaiting, responses, i)
      modifies gate, table, table.tracks, table.contactSlots
      modifies table.w.cost, table.w.u, table.w.v, table.w.p, table.w.way, table.w.minv, table.w.used
      ensures Valid() && Adds(before, gate.log, kinds')
      ensures if stop then all == kinds' else gate.modeEnabled && Draining(gate.cfg, all, kinds', gate.awaiting, responses, i + 1)
    {
      var r := responses[i];
      ghost var now, more := gate.log, ReadKinds(gate.cfg, gate.awaiting, r);
      DrainStep(gate.cfg, all, kinds, gate.awaiting, responses, i);
      stop := HandleRead(r);
      AddsMore(before, now, gate.log, kinds, more);
      kinds' := kinds + more;
    }

    /** The bounded drain loop; overflow says it stopped at its limit with
        something left to read. */
    method Drain(responses: seq<Response>) returns (overflow: bool, ghost kinds: seq<Act>)
      requires Valid() && gate.modeEnabled && forall r | r in responses :: Readable(r)
      modifies gate, table, table.tracks, table.contactSlots
      modifies table.w.cost, table.w.u, table.w.v, table.w.p, table.w.way, table.w.minv, table.w.used
      ensures Valid() && Adds(old(gate.log), gate.log, kinds)
      ensures overflow ==> gate.modeEnabled
      ensures DrainKinds(gate.cfg, old(gate.awaiting), responses, 0) == if overflow then kinds + FaultKinds(gate.cfg) else kinds
    {
      ghost var before, all := gate.log, DrainKinds(gate.cfg, gate.awaiting, responses, 0);
      kinds := [];
      DrainStart(gate.cfg, gate.awaiting, responses);
      var i, stop := 0, false;
      while !stop && i < IRQ_DRAIN_LIMIT && i < |responses|
        invariant i <= IRQ_DRAIN_LIMIT && Valid() && Adds(before, gate.log, kinds)
        invariant if stop then all == kinds else gate.modeEnabled && Draining(gate.cfg, all, kinds, gate.awaiting, responses, i)
        decreases |responses| - i, !stop
      {
        stop, kinds := DrainOne(responses, i, before, all, kinds);
        if !stop {
          i := i + 1;
        }
      }
      if !stop {
        DrainEnd(gate.cfg, all, kinds, gate.awaiting, responses, i);
      }
      overflow := !stop && i < |responses|;
    }

    /** g6ts_interrupt_thread; responses are what reads return while the panel
        has something unread. */
    method Interrupt(responses: seq<Response>)
      requires Valid() && forall r | r in responses :: Readable(r)
      modifies gate, table, table.tracks, table.contactSlots
      modifies table.w.cost, table.w.u, table.w.v, table.w.p, table.w.way, table.w.minv, table.w.used
      ensures Valid()
      ensures if old(gate.modeEnabled) then Adds(old(gate.log), gate.log, DrainKinds(gate.cfg, old(gate.awaiting), responses, 0))
              else gate.log == old(gate.log)
    {
      if !gate.modeEnabled {
        return;
      }
      ghost var before := gate.log;
      var overflow;
      ghost var kinds;
      overflow, kinds := Drain(responses);
      if overflow {
        ghost var now := gate.log;
        NoteHostFault();
        AddsMore(before, now, gate.log, kinds, FaultKinds(gate.cfg));
      }
    }

    /** g6ts_recovery_work. */
    method RecoveryWork(replies: seq<Reply>) returns (outcome: Outcome)
      requires Valid() && gate.scheduled
      modifies gate, table, table.tracks
      ensures Valid() && outcome == OutcomeOf(Stages(old(gate.path), gate.cfg.parity), replies)
      ensures gate.log == AfterOneAttempt(old(gate.log), old(gate.path), outcome, gate.modeEnabled)
      ensures gate.modeEnabled ==> AllGood(Stages(old(gate.path), gate.cfg.parity), replies)
      ensures Attempted(Stages(old(gate.path), gate.cfg.parity), replies, old(gate.path), old(gate.fatal), old(gate.log),
                        gate.fatal, gate.scheduled, gate.modeEnabled, gate.log)
      ensures forall i | 0 <= i < MAX_CONTACTS :: table.beats[i] == []
    {
      table.Release();
      SucceedsWhenAllGood(Stages(gate.path, gate.cfg.parity), replies);
      FramesAfterAttempt(gate.log, gate.path, OutcomeOf(Stages(gate.path, gate.cfg.parity), replies));
      outcome := gate.Work(replies);
      if outcome.NoticedReset? {
        table.Release();
      }
    }

    /** g6ts_suspend, g6ts_resume and g6ts_remove. */
    method Suspend(ok: bool)
      requires Valid() && !gate.stopping
      modifies gate, table, table.tracks
      ensures Valid() && gate.log == old(gate.log) + [Suspended(ok)] && !gate.modeEnabled
    {
      gate.Suspend(ok);
      table.Release();
    }

    method Resume(ok: bool)
      requires Valid() && !gate.stopping && !gate.modeEnabled
      modifies gate
      ensures Valid() && gate.log == old(gate.log) + [Resumed] && !gate.modeEnabled
    {
      gate.Resume(ok);
    }

    method Remove()
      requires Valid()
      modifies gate, table, table.tracks
      ensures Valid() && gate.log == old(gate.log) + [Removed] && !gate.modeEnabled
    {
      gate.Remove();
      table.Release();
    }
  }
}
