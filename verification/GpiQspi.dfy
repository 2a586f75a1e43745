/** The QSPI completion path of the GPI driver: a transmit descriptor whose
    transfer has ended waits in one deferred slot until a notification or a
    grace timer retires it. */
module GpiQspi {
  import opened CompletionLog
  import opened GpiRing
  import opened GpiChannel

  datatype Slot = Empty | Waiting(ticket: nat, residue: nat)

  /** Element of a descriptor's last transfer element, from its doorbell value. */
  function LastElement(n: nat, db: int): int {
    if db == 0 then n - 1 else db - 1
  }

  /** What a transfer has left: with what it moved that is its length, unless it
      has moved more. */
  function Residue(length: nat, moved: nat): (r: nat)
    ensures r == 0 || r + moved == length
    ensures r + moved >= length
  {
    if moved < length then length - moved else 0
  }

  /** The event is dropped without effect: nothing is outstanding, or a transfer
      end does not name the oldest descriptor's last element. */
  predicate Ignored(n: nat, issued: seq<Desc>, code: Code, ptr: nat) {
    issued == [] || (code == Eot && ptr != LastElement(n, issued[0].layout.db))
  }

  /** What an event adds to the log of its channel. */
  ghost function CompletionActs(ticket: nat, residue: nat, transmit: bool, held: bool, code: Code): seq<Act> {
    if code != Eot then [Completed(ticket, ByEvent(code), residue)]
    else if !transmit then [Terminal(ticket, residue), Completed(ticket, ByEvent(Eot), residue)]
    else if held then []
    else [Terminal(ticket, residue)]
  }

  ghost function EventActs(n: nat, issued: seq<Desc>, transmit: bool, held: bool, code: Code, ptr: nat, moved: nat): seq<Act> {
    if Ignored(n, issued, code, ptr) || code == Eob then []
    else CompletionActs(issued[0].ticket, Residue(issued[0].length, moved), transmit, held, code)
  }

  /** The event takes the oldest descriptor off the list. */
  ghost predicate Retires(n: nat, issued: seq<Desc>, transmit: bool, code: Code, ptr: nat) {
    !Ignored(n, issued, code, ptr) && code != Eob && !(transmit && code == Eot)
  }

  ghost function NextRead(n: nat, issued: seq<Desc>, rp: nat, code: Code, ptr: nat): nat
    requires 1 < n && ptr < n
  {
    if Ignored(n, issued, code, ptr) then rp else Advance(n, ptr, 1)
  }

  ghost function NextIssued(n: nat, issued: seq<Desc>, transmit: bool, code: Code, ptr: nat): seq<Desc> {
    if Retires(n, issued, transmit, code, ptr) then issued[1..] else issued
  }

  ghost function NextStart(n: nat, issued: seq<Desc>, start: nat, transmit: bool, code: Code, ptr: nat): nat {
    if Retires(n, issued, transmit, code, ptr) && issued[0].layout.db >= 0 then issued[0].layout.db else start
  }

  /** The slot after an event: only a fresh transfer end of a transmit
      descriptor fills it. */
  ghost function NextSlot(slot: Slot, n: nat, issued: seq<Desc>, transmit: bool, code: Code, ptr: nat, moved: nat): Slot {
    if Ignored(n, issued, code, ptr) || code != Eot || !transmit || slot.Waiting? then slot
    else Waiting(issued[0].ticket, Residue(issued[0].length, moved))
  }

  /** What is unfinished on a ring, and where it starts. */
  ghost function Unfinished(held: bool, ds: seq<Layout>): seq<Layout> {
    if held && ds != [] then ds[1..] else ds
  }

  ghost function Front(held: bool, start: nat, ds: seq<Layout>): int {
    if held && ds != [] then ds[0].db else start
  }

  lemma RepointHeld(n: nat, held: bool, start: nat, ds: seq<Layout>, rp: nat, wp: nat, rp': nat)
    requires AccountedFor(n, held, start, ds, rp, wp) && rp' < n
    ensures AccountedFor(n, held, start, ds, rp', wp) <==> Fits(n, Front(held, start, ds), Unfinished(held, ds), rp')
  {
    Repoint(n, Front(held, start, ds), Unfinished(held, ds), rp, wp, rp');
  }

  /** Retiring the oldest descriptor, kept in the list or not, and moving the
      read pointer. */
  lemma RetireAndRepoint(n: nat, start: nat, ds: seq<Layout>, rp: nat, wp: nat, rp': nat)
    requires ds != [] && AccountedFor(n, false, start, ds, rp, wp) && rp' < n && (|ds| > 1 ==> ds[1].size < n)
    ensures 0 <= ds[0].db < n && Fits(n, ds[0].db, ds[1..], ds[0].db)
    ensures AccountedFor(n, true, start, ds, rp', wp) <==> Fits(n, ds[0].db, ds[1..], rp')
    ensures AccountedFor(n, false, ds[0].db, ds[1..], rp', wp) <==> Fits(n, ds[0].db, ds[1..], rp')
    ensures rp' == ds[0].db ==> Available(n, rp', wp) == n - 1 - Total(ds[1..])
  {
    Retire(n, start, ds, rp, wp);
    Repoint(n, ds[0].db, ds[1..], ds[0].db, wp, ds[0].db);
    Repoint(n, ds[0].db, ds[1..], ds[0].db, wp, rp');
  }

  lemma RepeatFits(n: nat, start: nat, ds: seq<Layout>)
    requires start < n && (ds != [] ==> ds[0].size > 0)
    ensures Fits(n, start, ds, start) <==> Total(ds) < n
  {}

  /** A late transfer end of the descriptor before is dropped, and one element
      beyond it exactly when the oldest descriptor has more than one element. */
  lemma LateEndIgnored(n: nat, start: nat, issued: seq<Desc>, rp: nat, wp: nat)
    requires 1 < n && issued != [] && AccountedFor(n, false, start, Layouts(issued), rp, wp)
    ensures Ignored(n, issued, Eot, Previous(n, start))
    ensures Ignored(n, issued, Eot, start) <==> issued[0].layout.size > 1
  {
    LateEndIsNotTerminal(n, start, Layouts(issued), rp, wp);
  }

  /** On the transmit channel neither is ever taken for an end of the oldest
      descriptor, whether that one waits in the slot or not. */
  lemma TransmitIgnoresLateEnds(c: Channel, held: bool)
    requires c.Valid() && c.transmit && c.issued != [] && c.Accounted(held)
    ensures !held ==> Ignored(c.elements, c.issued, Eot, c.start) && Ignored(c.elements, c.issued, Eot, Previous(c.elements, c.start))
    ensures held ==> Ignored(c.elements, c.issued, Eot, c.issued[0].layout.db)
  {
    if !held {
      LateEndIgnored(c.elements, c.start, c.issued, c.rp, c.wp);
    }
  }

  /** What an event does to the account of its channel: the account is kept
      exactly when the new read pointer fits what is then unfinished.  A fresh
      transfer end always does, and a repeated one exactly when the descriptors
      behind the waiting one fit the ring as a whole. */
  ghost predicate EventDecidesAccount(n: nat, held: bool, start: nat, ds: seq<Layout>, rp: nat, wp: nat, code: Code, ptr: nat,
                                      held': bool, start': nat, ds': seq<Layout>, rp': nat)
  {
    AccountedFor(n, held, start, ds, rp, wp) ==>
      var ends := code == Eot && ds != [] && ptr == LastElement(n, ds[0].db);
      var kept := AccountedFor(n, held', start', ds', rp', wp);
      && 0 <= Front(held', start', ds') < n && rp' < n
      && (kept <==> Fits(n, Front(held', start', ds'), Unfinished(held', ds'), rp'))
      && (ends && !held ==> kept && rp' == ds[0].db && Available(n, rp', wp) == n - 1 - Total(ds[1..]))
      && (ends && held ==> (kept <==> Total(ds[1..]) < n))
  }

  /** Every event that does not stray decides the account of its channel. */
  lemma EventAccount(n: nat, transmit: bool, slot: Slot, start: nat, issued: seq<Desc>, rp: nat, wp: nat, code: Code, ptr: nat, moved: nat)
    requires MAX_TRE < n && ptr < n && rp < n && Sized(issued)
    requires var held := transmit && slot.Waiting?; held ==> issued != [] && (code == Eot || code == Eob)
    ensures EventDecidesAccount(n, transmit && slot.Waiting?, start, Layouts(issued), rp, wp, code, ptr,
                                transmit && NextSlot(slot, n, issued, transmit, code, ptr, moved).Waiting?,
                                NextStart(n, issued, start, transmit, code, ptr),
                                Layouts(NextIssued(n, issued, transmit, code, ptr)), NextRead(n, issued, rp, code, ptr))
  {
    var ds, held, rp' := Layouts(issued), transmit && slot.Waiting?, NextRead(n, issued, rp, code, ptr);
    if AccountedFor(n, held, start, ds, rp, wp) {
      if Ignored(n, issued, code, ptr) || code == Eob || held {
        RepointHeld(n, held, start, ds, rp, wp, rp');
        if held {
          RepeatFits(n, ds[0].db, ds[1..]);
        }
      } else {
        LayoutsTail(issued);
        RetireAndRepoint(n, start, ds, rp, wp, rp');
      }
    }
  }

  class Gpii {
    const tx: Channel
    const rx: Channel
    var deferred: Slot
    var grace: bool
    var timer: bool
    var scheduled: bool

    /** The slot holds the oldest transmit descriptor, after its terminal event,
        and the timer or the scheduled tasklet is on its way to retire it. */
    ghost predicate Valid()
      reads this, tx, rx
    {
      && tx != rx && tx.transmit && !rx.transmit && tx.Valid() && rx.Valid()
      && (deferred.Waiting? ==>
            && tx.issued != [] && tx.issued[0].ticket == deferred.ticket
            && Terminal(deferred.ticket, deferred.residue) in tx.log
            && (timer || grace) && tx.active)
      && (timer ==> deferred.Waiting?)
      && (grace ==> deferred.Waiting? && scheduled && Graced(deferred.ticket) in tx.log)
    }

    ghost predicate Held(c: Channel)
      reads this
    {
      c == tx && deferred.Waiting?
    }

    /** Both rings hold exactly what is outstanding. */
    ghost predicate Accounted()
      reads this, tx, rx
    {
      tx.Accounted(Held(tx)) && rx.Accounted(false)
    }

    constructor (elements: nat)
      requires MAX_TRE < elements
      ensures Valid() && Accounted() && fresh(tx) && fresh(rx) && tx.Unused() && rx.Unused() && tx.active && rx.active
      ensures tx.elements == elements && rx.elements == elements && deferred == Empty
    {
      tx := new Channel(elements, true);
      rx := new Channel(elements, false);
      deferred, grace, timer, scheduled := Empty, false, false, false;
    }

    /** A completion event, other than a block end or a transfer end, for a
        transmit descriptor that already waits in the slot. */
    ghost predicate Strays(c: Channel, code: Code)
      reads this
    {
      Held(c) && code != Eot && code != Eob
    }

    /** gpi_process_xfer_compl_event: an inactive channel's events are skipped. */
    method TransferComplete(c: Channel, code: Code, ptr: nat, moved: nat)
      requires Valid() && (c == tx || c == rx) && ptr < c.elements
      modifies this, c`rp, c`issued, c`completedCookie, c`log, c`start
      ensures !c.active ==> Valid() && unchanged(this) && unchanged(c)
      ensures c.active ==> Processed(c, old(Strays(c, code)), old(deferred), old(c.issued), old(c.rp), old(c.start), old(c.log),
                                     old(c.completedCookie), code, ptr, moved)
    {
      if c.active {
        Process(c, code, ptr, moved);
      }
    }

    /** The channel and the slot after an event on an active channel. */
    ghost predicate Processed(c: Channel, strays: bool, slot: Slot, issued: seq<Desc>, rp: nat, start: nat, log: seq<Act>,
                              completedCookie: nat, code: Code, ptr: nat, moved: nat)
      requires 1 < c.elements && ptr < c.elements
      reads this, tx, rx, c
    {
      && (Valid() <==> !strays)
      && c.log == log + EventActs(c.elements, issued, c.transmit, c == tx && slot.Waiting?, code, ptr, moved)
      && deferred == NextSlot(slot, c.elements, issued, c.transmit, code, ptr, moved)
      && c.rp == NextRead(c.elements, issued, rp, code, ptr)
      && c.issued == NextIssued(c.elements, issued, c.transmit, code, ptr)
      && c.start == NextStart(c.elements, issued, start, c.transmit, code, ptr)
      && c.completedCookie == if Retires(c.elements, issued, c.transmit, code, ptr) then issued[0].cookie else completedCookie
    }

    /** An event on an active channel. */
    method Process(c: Channel, code: Code, ptr: nat, moved: nat)
      requires Valid() && (c == tx || c == rx) && c.active && ptr < c.elements
      modifies this, c`rp, c`issued, c`completedCookie, c`log, c`start
      ensures Processed(c, old(Strays(c, code)), old(deferred), old(c.issued), old(c.rp), old(c.start), old(c.log),
                        old(c.completedCookie), code, ptr, moved)
    {
      if Ignored(c.elements, c.issued, code, ptr) {
        assert c.log == c.log + [];
        return;
      }
      c.MoveReadPointer(ptr);
      if code == Eob {
        return;
      }
      Finish(c, code, Residue(c.issued[0].length, moved));
    }

    /** A completion of the oldest descriptor: a transmit transfer end waits in
        the slot, or is dropped when the slot is taken; all else completes now. */
    method Finish(c: Channel, code: Code, residue: nat)
      requires Valid() && (c == tx || c == rx) && c.active && c.issued != [] && code != Eob
      modifies this, c`issued, c`completedCookie, c`log, c`start
      ensures Valid() <==> !old(Strays(c, code))
      ensures var waits, head := c.transmit && code == Eot, old(c.issued)[0];
              && c.log == old(c.log) + CompletionActs(head.ticket, residue, c.transmit, old(Held(c)), code)
              && deferred == (if waits && old(deferred).Empty? then Waiting(head.ticket, residue) else old(deferred))
              && c.issued == (if waits then old(c.issued) else old(c.issued)[1..])
              && c.start == (if waits || head.layout.db < 0 then old(c.start) else head.layout.db)
              && c.completedCookie == (if waits then old(c.completedCookie) else head.cookie)
    {
      if c == tx && code == Eot {
        if deferred.Empty? {
          Defer(residue);
        }
      } else {
        CompleteNow(c, code, residue);
      }
    }

    /** A transmit descriptor's transfer has ended: put it in the slot. */
    method Defer(residue: nat)
      requires Valid() && deferred.Empty? && tx.active && tx.issued != []
      modifies this, tx`log
      ensures Valid() && deferred == Waiting(tx.issued[0].ticket, residue) && timer && !grace
      ensures tx.log == old(tx.log) + [Terminal(tx.issued[0].ticket, residue)]
    {
      TerminalStep(tx.log, TicketsOf(tx.issued), tx.issueCount, residue);
      tx.log := tx.log + [Terminal(tx.issued[0].ticket, residue)];
      deferred := Waiting(tx.issued[0].ticket, residue);
      grace, timer := false, true;
    }

    /** Complete the oldest descriptor of a channel from the event itself. */
    method CompleteNow(c: Channel, code: Code, residue: nat)
      requires Valid() && (c == tx || c == rx) && c.issued != [] && code != Eob && (code == Eot ==> c == rx)
      modifies c`issued, c`completedCookie, c`log, c`start
      ensures Valid() <==> !Held(c)
      ensures c.issued == old(c.issued)[1..]
      ensures c.completedCookie == old(c.issued)[0].cookie
      ensures c.start == if old(c.issued)[0].layout.db >= 0 then old(c.issued)[0].layout.db else old(c.start)
      ensures Layouts(c.issued) == Layouts(old(c.issued))[1..]
      ensures var ticket := old(c.issued)[0].ticket;
              c.log == old(c.log) + if code == Eot then [Terminal(ticket, residue), Completed(ticket, ByEvent(code), residue)]
                                    else [Completed(ticket, ByEvent(code), residue)]
    {
      NextTicketDiffers(c.log, TicketsOf(c.issued), c.issueCount);
      if code == Eot {
        TerminalStep(c.log, TicketsOf(c.issued), c.issueCount, residue);
        c.log := c.log + [Terminal(c.issued[0].ticket, residue)];
      }
      c.Complete(ByEvent(code), residue);
    }

    /** gpi_qspi_complete_deferred. */
    method CompleteDeferred(ghost how: How)
      requires Valid() && deferred.Waiting? && !how.ByEvent?
      requires Justified(tx.log, deferred.ticket, how, deferred.residue)
      modifies this, tx
      ensures Valid() && deferred == Empty && scheduled == old(scheduled)
      ensures tx.log == old(tx.log) + [Completed(old(deferred.ticket), how, old(deferred.residue))]
      ensures tx.issued == old(tx.issued)[1..] && tx.completedCookie == old(tx.issued)[0].cookie
      ensures old(Accounted()) ==> Accounted()
    {
      ghost var residue := deferred.residue;
      timer, deferred, grace := false, Empty, false;
      assert Layouts(tx.issued[1..]) == Layouts(tx.issued)[1..];
      tx.Complete(how, residue);
    }

    /** A QUP notification event. */
    method Notify()
      requires Valid()
      modifies this, tx
      ensures Valid() && deferred == Empty
      ensures tx.log == old(tx.log) + if old(deferred).Empty? then []
                                      else [Completed(old(deferred.ticket), ByNotification, old(deferred.residue))]
      ensures old(Accounted()) ==> Accounted()
    {
      if tx.active || rx.active {
        if deferred.Waiting? {
          CompleteDeferred(ByNotification);
        }
      }
    }

    /** gpi_qspi_deferred_timer; it can fire only while it is armed. */
    method TimerFires()
      requires Valid() && timer
      modifies this, tx`log
      ensures Valid() && deferred == old(deferred) && grace && scheduled
      ensures tx.log == old(tx.log) + [Graced(deferred.ticket)]
      ensures old(Accounted()) ==> Accounted()
    {
      timer := false;
      if deferred.Waiting? {
        GraceStep(tx.log, TicketsOf(tx.issued), tx.issueCount, deferred.residue);
        tx.log := tx.log + [Graced(deferred.ticket)];
        grace, scheduled := true, true;
      }
    }

    /** The end of gpi_ev_tasklet, after its events. */
    method TaskletEnds()
      requires Valid()
      modifies this, tx
      ensures Valid() && !scheduled
      ensures if old(grace) then deferred == Empty else deferred == old(deferred)
      ensures tx.log == old(tx.log) + if !old(grace) then []
                                      else [Completed(old(deferred.ticket), ByGrace, old(deferred.residue))]
      ensures old(Accounted()) ==> Accounted()
    {
      if grace && deferred.Waiting? {
        CompleteDeferred(ByGrace);
      }
      scheduled := false;
    }

    /** gpi_terminate_all as one step: clear the slot, stop both channels, reset
        and set up each, restart each.  failsAt is the step whose command fails,
        which ends the call there: reset and set-up of the transmit channel, of
        the receive channel, then the two starts. */
    method TerminateAll(failsAt: nat)
      requires Valid()
      modifies this, tx, rx
      ensures Valid() && deferred == Empty && !timer && !grace
      ensures if failsAt == 0 then tx.log == old(tx.log) && tx.issued == old(tx.issued)
              else tx.log == old(tx.log) + [Terminated] && tx.issued == [] && tx.Accounted(false)
      ensures if failsAt <= 2 then rx.log == old(rx.log) && rx.issued == old(rx.issued) && (old(rx.Accounted(false)) ==> rx.Accounted(false))
              else rx.log == old(rx.log) + [Terminated] && rx.issued == [] && rx.Accounted(false)
      ensures tx.active == (failsAt > 4) && rx.active == (failsAt > 5)
      ensures failsAt > 2 ==> Accounted()
    {
      StopBoth();
      if failsAt == 0 {
        return;
      }
      tx.Reset();
      if failsAt <= 2 {
        return;
      }
      rx.Reset();
      StartBoth(failsAt);
    }

    /** Start the transmit channel, then the receive channel. */
    method StartBoth(failsAt: nat)
      requires Valid() && deferred == Empty
      modifies tx`active, rx`active
      ensures Valid() && tx.active == (failsAt > 4) && rx.active == (failsAt > 5)
    {
      tx.active := failsAt > 4;
      rx.active := failsAt > 5;
    }

    /** Clear the slot and stop both channels. */
    method StopBoth()
      requires Valid()
      modifies this`timer, this`deferred, this`grace, tx`active, rx`active
      ensures Valid() && deferred == Empty && !timer && !grace && !tx.active && !rx.active
    {
      if deferred.Waiting? {
        timer, deferred, grace := false, Empty, false;
      }
      tx.active, rx.active := false, false;
    }

    /** gpi_issue_pending on one of the channels. */
    method IssuePending(c: Channel)
      requires Valid() && (c == tx || c == rx)
      modifies c
      ensures Valid() && c.submitted == [] && c.prepared == old(c.prepared) && c.rp == old(c.rp) && c.start == old(c.start)
      ensures Layouts(c.issued) == QueuedLast(Layouts(old(c.issued)) + Layouts(old(c.submitted)), c.wp)
      ensures c.wp == LastQueued(c.elements, Layouts(old(c.issued)) + Layouts(old(c.submitted)), c.rp, old(c.wp))
      ensures c.log == WithIssues(old(c.log), old(c.issueCount), |old(c.submitted)|)
      ensures IssueOutcome(c.elements, Held(c), c.start, c.rp, old(c.issued), old(c.submitted), old(c.wp), c.issued, c.wp)
    {
      StaysInLog(c.log, c.issueCount, |c.submitted|);
      c.IssuePending(Held(c));
    }

    method Prepare(c: Channel, setConfig: bool, interrupt: bool, length: nat) returns (ok: bool)
      requires Valid() && (c == tx || c == rx)
      modifies c`prepared
      ensures Valid() && (old(Accounted()) ==> Accounted())
      ensures ok <==> Elements(c.transmit, setConfig) <= Available(c.elements, c.rp, c.wp)
                      && (interrupt || Available(c.elements, c.rp, c.wp) - Elements(c.transmit, setConfig) >= 2)
      ensures if ok then |c.prepared| == |old(c.prepared)| + 1 && c.prepared[..|old(c.prepared)|] == old(c.prepared)
                         && c.prepared[|old(c.prepared)|].layout == Layout(Elements(c.transmit, setConfig), UNSET)
              else c.prepared == old(c.prepared)
    {
      ok := c.Prepare(setConfig, interrupt, length);
    }

    method Submit(c: Channel, k: nat)
      requires Valid() && (c == tx || c == rx) && k < |c.prepared|
      modifies c`prepared, c`submitted, c`cookie
      ensures Valid() && (old(Accounted()) ==> Accounted())
      ensures c.prepared == old(c.prepared)[..k] + old(c.prepared)[k + 1..]
      ensures c.submitted == old(c.submitted) + [old(c.prepared)[k].(cookie := c.cookie)]
    {
      c.Submit(k);
    }

    /** One transfer of a client that sends one at a time. */
    method Send(c: Channel, setConfig: bool, length: nat) returns (ok: bool)
      requires Valid() && (c == tx || c == rx) && c.prepared == [] && c.submitted == []
      modifies c`prepared, c`submitted, c`cookie, c`issued, c`wp, c`issueCount, c`log
      ensures Valid() && c.prepared == [] && c.submitted == []
      ensures ok <==> Elements(c.transmit, setConfig) <= Available(c.elements, c.rp, old(c.wp))
      ensures if ok then c.wp == Advance(c.elements, old(c.wp), Elements(c.transmit, setConfig))
                         && Layouts(c.issued) == Layouts(old(c.issued)) + [Layout(Elements(c.transmit, setConfig), c.wp)]
              else c.wp == old(c.wp) && c.issued == old(c.issued)
      ensures old(c.Accounted(Held(c))) ==> c.Accounted(Held(c))
    {
      ok := c.Send(setConfig, length, Held(c));
    }
  }

  /** A run that loses the account: a later descriptor has reported a block end,
      a new one is queued into the room it freed, and then the waiting
      descriptor's end is repeated. */
  method RepeatedEndLosesAccount() returns (g: Gpii)
    ensures fresh(g) && g.Valid() && !g.Accounted() && g.deferred.Waiting?
  {
    g := OneWaitsOneStarted();
    var ok := g.Send(g.tx, false, 8);
    g.TransferComplete(g.tx, Eot, 1, 8);
    if g.tx.Accounted(true) {
      var ds := Layouts(g.tx.issued);
      OccupiedLooksOccupied(4, ds[0].db, ds[1..], g.tx.rp, g.tx.wp);
    }
  }

  /** The run up to the later descriptor's block end, on a ring of four. */
  method OneWaitsOneStarted() returns (g: Gpii)
    ensures fresh(g) && fresh(g.tx) && g.Valid() && g.deferred.Waiting? && g.tx.active
    ensures g.tx.elements == 4 && g.tx.rp == 3 && g.tx.wp == 0 && g.tx.prepared == [] && g.tx.submitted == []
    ensures Layouts(g.tx.issued) == [Layout(2, 2), Layout(2, 0)]
  {
    g := OneWaits();
    var ok := g.Send(g.tx, false, 8);
    g.TransferComplete(g.tx, Eob, 2, 0);
  }

  /** The run up to the first descriptor's transfer end. */
  method OneWaits() returns (g: Gpii)
    ensures fresh(g) && fresh(g.tx) && g.Valid() && g.deferred.Waiting? && g.tx.active
    ensures g.tx.elements == 4 && g.tx.rp == 2 && g.tx.wp == 2 && g.tx.prepared == [] && g.tx.submitted == []
    ensures Layouts(g.tx.issued) == [Layout(2, 2)]
  {
    g := new Gpii(4);
    var ok := g.Send(g.tx, false, 8);
    g.TransferComplete(g.tx, Eot, 1, 8);
  }

  lemma {:induction false} StaysInLog(log: seq<Act>, first: nat, count: nat)
    ensures |log| <= |WithIssues(log, first, count)| && WithIssues(log, first, count)[..|log|] == log
    ensures forall act | act in log :: act in WithIssues(log, first, count)
  {
    if count > 0 {
      StaysInLog(log, first, count - 1);
    }
  }

  lemma LayoutsTail(ds: seq<Desc>)
    requires ds != []
    ensures Layouts(ds[1..]) == Layouts(ds)[1..]
  {}

  lemma NextTicketDiffers(log: seq<Act>, pending: seq<nat>, count: nat)
    requires Leaves(log, pending, count)
    ensures |pending| > 1 ==> pending[0] != pending[1]
  {
    PendingIsLatest(log);
  }
}
