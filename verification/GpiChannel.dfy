/** One DMA channel: its descriptor lists, its cookies and its transfer ring. */
module GpiChannel {
  import opened CompletionLog
  import opened GpiRing

  const MIN_COOKIE: nat := 1
  const COOKIE_MAX: nat := 0x7fff_ffff
  const MAX_TRE: nat := 3

  /** A descriptor; ticket is its place in the issue order. */
  datatype Desc = Desc(layout: Layout, length: nat, cookie: nat, ticket: nat)

  ghost function TicketsOf(ds: seq<Desc>): (ts: seq<nat>)
    ensures |ts| == |ds| && forall i | 0 <= i < |ds| :: ts[i] == ds[i].ticket
  {
    seq(|ds|, i requires 0 <= i < |ds| => ds[i].ticket)
  }

  ghost function Layouts(ds: seq<Desc>): (ls: seq<Layout>)
    ensures |ls| == |ds| && forall i | 0 <= i < |ds| :: ls[i] == ds[i].layout
  {
    seq(|ds|, i requires 0 <= i < |ds| => ds[i].layout)
  }

  /** Descriptors not yet issued. */
  ghost predicate Fresh(ds: seq<Desc>) {
    forall i | 0 <= i < |ds| :: 1 <= ds[i].layout.size <= MAX_TRE && ds[i].layout.db == UNSET
  }

  ghost predicate Sized(ds: seq<Desc>) {
    forall i | 0 <= i < |ds| :: 1 <= ds[i].layout.size <= MAX_TRE
  }

  /** Transmit descriptors begin with a configuration or command element, so
      they have at least two. */
  ghost predicate Headed(ds: seq<Desc>) {
    forall i | 0 <= i < |ds| :: ds[i].layout.size >= 2
  }

  ghost predicate Numbered(ds: seq<Desc>) {
    forall i | 0 <= i < |ds| :: MIN_COOKIE <= ds[i].cookie <= COOKIE_MAX
  }

  /** The descriptors with tickets from first on. */
  function Ticketed(ds: seq<Desc>, first: nat): (r: seq<Desc>)
    ensures |r| == |ds| && Layouts(r) == Layouts(ds)
    ensures forall i | 0 <= i < |ds| :: r[i] == ds[i].(ticket := first + i)
  {
    seq(|ds|, i requires 0 <= i < |ds| => ds[i].(ticket := first + i))
  }

  /** The log after count more descriptors are issued. */
  ghost function WithIssues(log: seq<Act>, first: nat, count: nat): seq<Act> {
    if count == 0 then log else WithIssues(log, first, count - 1) + [Issued(first + count - 1)]
  }

  /** The tickets first .. first + count - 1. */
  ghost function TicketRun(first: nat, count: nat): (ts: seq<nat>)
    ensures |ts| == count && forall i | 0 <= i < count :: ts[i] == first + i
  {
    if count == 0 then [] else TicketRun(first, count - 1) + [first + count - 1]
  }

  lemma AppendRun(pending: seq<nat>, first: nat, count: nat)
    requires count > 0
    ensures pending + TicketRun(first, count - 1) + [first + count - 1] == pending + TicketRun(first, count)
  {}

  /** The log is sound, leaves these descriptors outstanding, and count were issued. */
  ghost predicate Leaves(log: seq<Act>, pending: seq<nat>, count: nat) {
    Sound(log) && Pending(log) == pending && Tickets(log) == count
  }

  lemma IssueStep(log: seq<Act>, pending: seq<nat>, ticket: nat)
    requires Leaves(log, pending, ticket)
    ensures Leaves(log + [Issued(ticket)], pending + [ticket], ticket + 1)
  {}

  lemma {:induction false} IssueAll(log: seq<Act>, pending: seq<nat>, first: nat, count: nat)
    requires Leaves(log, pending, first)
    ensures Leaves(WithIssues(log, first, count), pending + TicketRun(first, count), first + count)
  {
    if count == 0 {
      assert pending + TicketRun(first, count) == pending;
    } else {
      var ticket := first + count - 1;
      var fewer, before := WithIssues(log, first, count - 1), pending + TicketRun(first, count - 1);
      AppendRun(pending, first, count);
      assert before + [ticket] == pending + TicketRun(first, count);
      assert fewer + [Issued(ticket)] == WithIssues(log, first, count);
      IssueAll(log, pending, first, count - 1);
      IssueStep(fewer, before, ticket);
    }
  }

  /** The list after the doorbell value of its last descriptor is set. */
  function Doorbell(ds: seq<Desc>, wp: nat): (r: seq<Desc>)
    requires ds != []
    ensures |r| == |ds| && TicketsOf(r) == TicketsOf(ds) && Layouts(r) == Rung(Layouts(ds), wp)
  {
    var last := |ds| - 1;
    ds[last := ds[last].(layout := ds[last].layout.(db := wp))]
  }

  // ----- issuing

  /** The ring holds exactly the descriptors ds, the first of them being
      finished already when its completion is held back. */
  ghost predicate AccountedFor(n: nat, held: bool, start: nat, ds: seq<Layout>, rp: nat, wp: nat) {
    if held then ds != [] && 0 <= ds[0].db && Occupied(n, ds[0].db, ds[1..], rp, wp)
    else Occupied(n, start, ds, rp, wp)
  }

  /** Elements that fit. */
  ghost function Added(size: nat, room: nat): (k: nat)
    ensures k <= size && k <= room
  {
    if size <= room then size else room
  }

  /** The descriptors after the doorbell value of the last one is set. */
  ghost function Rung(ds: seq<Layout>, wp: nat): (r: seq<Layout>)
    requires ds != []
    ensures |r| == |ds|
  {
    var last := |ds| - 1;
    ds[last := ds[last].(db := wp)]
  }

  ghost function QueuedLast(ds: seq<Layout>, wp: nat): seq<Layout> {
    if ds == [] then ds else Rung(ds, wp)
  }

  /** The write pointer after the elements of the last descriptor are queued. */
  ghost function LastQueued(n: nat, ds: seq<Layout>, rp: nat, wp: nat): nat
    requires rp < n && wp < n
  {
    if ds == [] then wp else Advance(n, wp, Added(ds[|ds| - 1].size, Available(n, rp, wp)))
  }

  lemma IssueAgain(n: nat, held: bool, start: nat, ds: seq<Layout>, rp: nat, wp: nat, wp': nat)
    requires AccountedFor(n, held, start, ds, rp, wp) && ds != [] && 1 < n && 0 < ds[|ds| - 1].size
    requires wp' == Advance(n, wp, Added(ds[|ds| - 1].size, Available(n, rp, wp)))
    ensures AccountedFor(n, held, start, Rung(ds, wp'), rp, wp') <==> Available(n, rp, wp) == 0
  {
    var added := Added(ds[|ds| - 1].size, Available(n, rp, wp));
    if !held {
      QueueAgain(n, start, ds, rp, wp, added);
    } else if |ds| == 1 {
      assert ds[1..] == [] && Rung(ds, wp')[1..] == [];
    } else {
      QueueAgain(n, ds[0].db, ds[1..], rp, wp, added);
      assert Rung(ds, wp')[1..] == Rung(ds[1..], wp');
    }
  }

  lemma IssueOne(n: nat, held: bool, start: nat, ds: seq<Layout>, d: Layout, rp: nat, wp: nat, wp': nat)
    requires AccountedFor(n, held, start, ds, rp, wp) && 0 < d.size < n
    requires wp' == Advance(n, wp, Added(d.size, Available(n, rp, wp)))
    ensures AccountedFor(n, held, start, Rung(ds + [d], wp'), rp, wp') <==> d.size <= Available(n, rp, wp)
  {
    var added := Added(d.size, Available(n, rp, wp));
    var rung := Layout(d.size, wp');
    assert Rung(ds + [d], wp') == ds + [rung];
    if held {
      QueueOne(n, ds[0].db, ds[1..], rp, wp, d.size, added, wp');
      assert (ds + [rung])[1..] == ds[1..] + [rung];
    } else {
      QueueOne(n, start, ds, rp, wp, d.size, added, wp');
    }
  }

  /** A descriptor before the last that was never queued cannot be accounted for. */
  lemma AccountedAreSet(n: nat, held: bool, start: nat, ds: seq<Layout>, rp: nat, wp: nat)
    requires AccountedFor(n, held, start, ds, rp, wp)
    ensures forall i | 0 <= i < |ds| :: 0 <= ds[i].db
  {
    if held {
      OccupiedIsSet(n, ds[0].db, ds[1..], rp, wp);
      assert forall i | 0 < i < |ds| :: ds[i] == ds[1..][i - 1];
    } else {
      OccupiedIsSet(n, start, ds, rp, wp);
    }
  }

  /** Which pending calls keep the account: those that queue one new
      descriptor with room for it, or have nothing to queue. */
  ghost predicate MayIssue(before: seq<Layout>, moved: seq<Layout>, room: nat) {
    if moved == [] then before == [] || room == 0
    else |moved| == 1 && moved[0].size <= room
  }

  lemma IssueAccount(n: nat, held: bool, start: nat, before: seq<Layout>, moved: seq<Layout>, rp: nat, wp: nat, wp': nat)
    requires AccountedFor(n, held, start, before, rp, wp) && before + moved != [] && MAX_TRE < n
    requires forall i | 0 <= i < |moved| :: moved[i].db == UNSET && 1 <= moved[i].size <= MAX_TRE
    requires forall i | 0 <= i < |before| :: 1 <= before[i].size <= MAX_TRE
    requires wp' == Advance(n, wp, Added((before + moved)[|before + moved| - 1].size, Available(n, rp, wp)))
    ensures AccountedFor(n, held, start, Rung(before + moved, wp'), rp, wp') <==>
              MayIssue(before, moved, Available(n, rp, wp))
  {
    if moved == [] {
      assert before + moved == before;
      IssueAgain(n, held, start, before, rp, wp, wp');
    } else if |moved| == 1 {
      assert moved == [moved[0]];
      assert (before + moved)[|before|] == moved[0];
      IssueOne(n, held, start, before, moved[0], rp, wp, wp');
    } else if AccountedFor(n, held, start, Rung(before + moved, wp'), rp, wp') {
      assert Rung(before + moved, wp')[|before|] == moved[0];
      AccountedAreSet(n, held, start, Rung(before + moved, wp'), rp, wp');
    }
  }

  /** The account is kept exactly when the call was one that may be made. */
  ghost predicate IssueOutcome(n: nat, held: bool, start: nat, rp: nat, before: seq<Desc>, moved: seq<Desc>, wp: nat,
                               after: seq<Desc>, wp': nat)
  {
    rp < n && wp < n && AccountedFor(n, held, start, Layouts(before), rp, wp) ==>
      (AccountedFor(n, held, start, Layouts(after), rp, wp') <==>
       MayIssue(Layouts(before), Layouts(moved), Available(n, rp, wp)))
  }

  lemma IssueAccountOfLists(n: nat, held: bool, start: nat, before: seq<Desc>, moved: seq<Desc>, all: seq<Desc>,
                            rp: nat, wp: nat, after: seq<Desc>, wp': nat)
    requires MAX_TRE < n && rp < n && wp < n
    requires Fresh(moved) && Sized(before) && Layouts(all) == Layouts(before) + Layouts(moved)
    requires if all == [] then after == [] && wp' == wp
             else after == Doorbell(all, wp')
                  && wp' == Advance(n, wp, Added(all[|all| - 1].layout.size, Available(n, rp, wp)))
    ensures IssueOutcome(n, held, start, rp, before, moved, wp, after, wp')
  {
    var b, m := Layouts(before), Layouts(moved);
    if AccountedFor(n, held, start, b, rp, wp) {
      if all == [] {
        assert b == [] && m == [] && Layouts(after) == b;
      } else {
        assert Layouts(all)[|all| - 1] == all[|all| - 1].layout;
        assert Layouts(after) == Rung(b + m, wp');
        IssueAccount(n, held, start, b, m, rp, wp, wp');
      }
    }
  }

  class Channel {
    const elements: nat
    const transmit: bool
    /** The channel state is the active one, in which events are processed. */
    var active: bool
    var rp: nat
    var wp: nat
    var prepared: seq<Desc>
    var submitted: seq<Desc>
    var issued: seq<Desc>
    var cookie: nat
    var completedCookie: nat
    /** Descriptors issued so far, which names them. */
    var issueCount: nat
    /** Where the oldest issued descriptor's elements start. */
    ghost var start: nat
    ghost var log: seq<Act>

    /** The lists agree with the log and no cookie in use is zero. */
    ghost predicate Valid()
      reads this
    {
      && MAX_TRE < elements && rp < elements && wp < elements
      && Fresh(prepared) && Fresh(submitted) && Sized(issued) && Numbered(submitted) && Numbered(issued)
      && (transmit ==> Headed(prepared) && Headed(submitted) && Headed(issued))
      && MIN_COOKIE <= cookie <= COOKIE_MAX
      && Leaves(log, TicketsOf(issued), issueCount)
    }

    /** The ring holds exactly the issued descriptors, the first of them being
        finished already when its completion is held back. */
    ghost predicate Accounted(held: bool)
      reads this
    {
      AccountedFor(elements, held, start, Layouts(issued), rp, wp)
    }

    ghost predicate Unused()
      reads this
    {
      log == [] && prepared == [] && submitted == [] && issued == [] && rp == wp == start == 0
    }

    constructor (elements: nat, transmit: bool)
      requires MAX_TRE < elements
      ensures Valid() && Accounted(false) && this.elements == elements && this.transmit == transmit
      ensures Unused() && active
    {
      this.elements, this.transmit, active := elements, transmit, true;
      rp, wp, start := 0, 0, 0;
      prepared, submitted, issued, log := [], [], [], [];
      cookie, completedCookie, issueCount := MIN_COOKIE, MIN_COOKIE, 0;
      new;
      assert TicketsOf(issued) == [];
    }

    /** gpi_prep_slave_sg for one scatter-gather entry. */
    method Prepare(setConfig: bool, interrupt: bool, length: nat) returns (ok: bool)
      requires Valid()
      modifies this`prepared
      ensures Valid()
      ensures ok ==> exists d :: prepared == old(prepared) + [d] && d.length == length
                                 && d.layout == Layout(Elements(transmit, setConfig), UNSET)
                                 && d.layout.size <= Available(elements, rp, wp)
      ensures !ok ==> prepared == old(prepared)
      ensures var size, room := Elements(transmit, setConfig), Available(elements, rp, wp);
              ok <==> size <= room && (interrupt || room - size >= 2)
    {
      var nrTre := 3;
      if !setConfig {
        nrTre := 2;
      }
      if !transmit {
        nrTre := 1;
      }
      var nr := Available(elements, rp, wp);
      if nr < nrTre {
        return false;
      }
      if !interrupt && nr - nrTre < 2 {
        return false;
      }
      var d := Desc(Layout(nrTre, UNSET), length, 0, 0);
      prepared := prepared + [d];
      return true;
    }

    /** vchan_tx_submit of the k-th prepared descriptor. */
    method Submit(k: nat)
      requires Valid() && k < |prepared|
      modifies this`prepared, this`submitted, this`cookie
      ensures Valid()
      ensures prepared == old(prepared)[..k] + old(prepared)[k + 1..]
      ensures submitted == old(submitted) + [old(prepared)[k].(cookie := cookie)]
    {
      cookie := if cookie + 1 > COOKIE_MAX then MIN_COOKIE else cookie + 1;
      submitted := submitted + [prepared[k].(cookie := cookie)];
      prepared := prepared[..k] + prepared[k + 1..];
    }

    /** gpi_queue_xfer for the elements of one descriptor: an element that
        finds the ring full is dropped. */
    method Queue(size: nat)
      requires rp < elements && wp < elements
      modifies this`wp
      ensures wp < elements && wp == Advance(elements, old(wp), Added(size, Available(elements, rp, old(wp))))
    {
      for i := 0 to size
        invariant wp < elements && wp == Advance(elements, old(wp), Added(i, Available(elements, rp, old(wp))))
      {
        if Available(elements, rp, wp) > 0 {
          wp := wp + 1;
          if wp >= elements {
            wp := 0;
          }
        }
      }
    }

    /** vchan_issue_pending: all submitted descriptors become issued. */
    method MoveSubmitted()
      requires Valid()
      modifies this`submitted, this`issued, this`issueCount, this`log
      ensures Valid() && submitted == []
      ensures issued == old(issued) + Ticketed(old(submitted), old(issueCount))
      ensures Layouts(issued) == Layouts(old(issued)) + Layouts(old(submitted))
      ensures log == WithIssues(old(log), old(issueCount), |old(submitted)|)
    {
      var first, moved := issueCount, Ticketed(submitted, issueCount);
      IssueAll(log, TicketsOf(issued), first, |submitted|);
      assert TicketsOf(issued + moved) == TicketsOf(issued) + TicketRun(first, |submitted|);
      assert Layouts(issued + moved) == Layouts(issued) + Layouts(submitted);
      log := WithIssues(log, issueCount, |submitted|);
      issueCount := issueCount + |submitted|;
      issued := issued + moved;
      submitted := [];
    }

    /** Queue the elements of the last issued descriptor and set its doorbell value. */
    method RingLast()
      requires Valid() && issued != []
      modifies this`issued, this`wp
      ensures Valid() && issued == Doorbell(old(issued), wp)
      ensures var last := old(issued)[|old(issued)| - 1].layout;
              wp == Advance(elements, old(wp), Added(last.size, Available(elements, rp, old(wp))))
    {
      Queue(issued[|issued| - 1].layout.size);
      DoorbellKeeps(issued, wp);
      issued := Doorbell(issued, wp);
    }

    /** gpi_issue_pending: only the elements of the last issued descriptor are queued. */
    method IssuePending(ghost held: bool)
      requires Valid() && (held ==> issued != [])
      modifies this`submitted, this`issued, this`wp, this`issueCount, this`log
      ensures Valid() && submitted == []
      ensures log == WithIssues(old(log), old(issueCount), |old(submitted)|)
      ensures |issued| == |old(issued)| + |old(submitted)|
      ensures forall i | 0 <= i < |old(issued)| :: issued[i].ticket == old(issued)[i].ticket
      ensures Layouts(issued) == QueuedLast(Layouts(old(issued)) + Layouts(old(submitted)), wp)
      ensures wp == LastQueued(elements, Layouts(old(issued)) + Layouts(old(submitted)), rp, old(wp))
      ensures IssueOutcome(elements, held, start, rp, old(issued), old(submitted), old(wp), issued, wp)
    {
      ghost var before, moved, end := issued, submitted, wp;
      MoveSubmitted();
      ghost var all := issued;
      if issued != [] {
        RingLast();
        TicketsKept(before, moved, old(issueCount), wp);
      }
      IssueAccountOfLists(elements, held, start, before, moved, all, rp, end, issued, wp);
    }

    /** A client that prepares, submits and issues one transfer at a time: it
        is refused when the elements do not fit, and keeps the account. */
    method Send(setConfig: bool, length: nat, ghost held: bool) returns (ok: bool)
      requires Valid() && prepared == [] && submitted == [] && (held ==> issued != [])
      modifies this`prepared, this`submitted, this`cookie, this`issued, this`wp, this`issueCount, this`log
      ensures Valid() && prepared == [] && submitted == []
      ensures ok <==> Elements(transmit, setConfig) <= Available(elements, rp, old(wp))
      ensures if ok then wp == Advance(elements, old(wp), Elements(transmit, setConfig))
                         && Layouts(issued) == Layouts(old(issued)) + [Layout(Elements(transmit, setConfig), wp)]
                         && log == old(log) + [Issued(old(issueCount))]
              else wp == old(wp) && issued == old(issued) && log == old(log)
      ensures forall i | 0 <= i < |old(issued)| :: issued[i].ticket == old(issued)[i].ticket
      ensures old(Accounted(held)) ==> Accounted(held)
    {
      ok := PrepareAndSubmit(setConfig, length);
      if ok {
        IssueOne(Elements(transmit, setConfig), held);
      }
    }

    /** Issue the one descriptor that is submitted, whose elements fit. */
    method IssueOne(ghost size: nat, ghost held: bool)
      requires Valid() && (held ==> issued != [])
      requires Layouts(submitted) == [Layout(size, UNSET)] && size <= Available(elements, rp, wp)
      modifies this`submitted, this`issued, this`wp, this`issueCount, this`log
      ensures Valid() && submitted == [] && wp == Advance(elements, old(wp), size)
      ensures Layouts(issued) == Layouts(old(issued)) + [Layout(size, wp)]
      ensures log == old(log) + [Issued(old(issueCount))]
      ensures forall i | 0 <= i < |old(issued)| :: issued[i].ticket == old(issued)[i].ticket
      ensures old(Accounted(held)) ==> Accounted(held)
    {
      QueuedOne(Layouts(issued), Layout(size, UNSET));
      OneIssue(log, issueCount);
      IssuePending(held);
    }

    method PrepareAndSubmit(setConfig: bool, length: nat) returns (ok: bool)
      requires Valid() && prepared == [] && submitted == []
      modifies this`prepared, this`submitted, this`cookie
      ensures Valid() && prepared == []
      ensures ok <==> Elements(transmit, setConfig) <= Available(elements, rp, wp)
      ensures Layouts(submitted) == if ok then [Layout(Elements(transmit, setConfig), UNSET)] else []
    {
      ok := Prepare(setConfig, true, length);
      if ok {
        Submit(0);
      }
    }

    /** dma_cookie_complete, the client's callback and list_del, for the oldest
        issued descriptor.  The assertion is the driver's own. */
    method Complete(ghost how: How, ghost residue: nat)
      requires Valid() && issued != [] && Justified(log, issued[0].ticket, how, residue)
      modifies this`issued, this`completedCookie, this`log, this`start
      ensures Valid() && issued == old(issued)[1..] && completedCookie == old(issued)[0].cookie
      ensures log == old(log) + [Completed(old(issued)[0].ticket, how, residue)]
      ensures start == if old(issued)[0].layout.db >= 0 then old(issued)[0].layout.db else old(start)
    {
      assert issued[0].cookie >= MIN_COOKIE;
      completedCookie := issued[0].cookie;
      if issued[0].layout.db >= 0 {
        start := issued[0].layout.db;
      }
      CompleteStep(log, TicketsOf(issued), issueCount, how, residue);
      assert TicketsOf(issued[1..]) == TicketsOf(issued)[1..];
      log := log + [Completed(issued[0].ticket, how, residue)];
      issued := issued[1..];
    }

    /** The read pointer goes one past the element an event names. */
    method MoveReadPointer(ptr: nat)
      requires ptr < elements
      modifies this`rp
      ensures rp == Advance(elements, ptr, if elements > 1 then 1 else 0)
    {
      rp := ptr + 1;
      if rp >= elements {
        rp := 0;
      }
    }

    /** gpi_reset_chan after its command has succeeded. */
    method Reset()
      requires Valid()
      modifies this
      ensures Valid() && Accounted(false) && issued == [] && submitted == [] && prepared == [] && active == old(active)
      ensures rp == 0 && wp == 0 && log == old(log) + [Terminated]
    {
      rp, wp, start := 0, 0, 0;
      Snoc(log, Terminated);
      log := log + [Terminated];
      prepared, submitted, issued := [], [], [];
      assert TicketsOf(issued) == [];
    }
  }

  /** Ring elements of a transfer. */
  ghost function Elements(transmit: bool, setConfig: bool): nat {
    if !transmit then 1 else if setConfig then 3 else 2
  }

  lemma OneIssue(log: seq<Act>, first: nat)
    ensures WithIssues(log, first, 1) == log + [Issued(first)]
  {
    assert WithIssues(log, first, 0) == log;
  }

  lemma QueuedOne(ds: seq<Layout>, d: Layout)
    ensures forall wp: nat :: QueuedLast(ds + [d], wp) == ds + [d.(db := wp)]
  {}

  lemma CompleteStep(log: seq<Act>, pending: seq<nat>, count: nat, how: How, residue: nat)
    requires Leaves(log, pending, count) && pending != [] && Justified(log, pending[0], how, residue)
    ensures Leaves(log + [Completed(pending[0], how, residue)], pending[1..], count)
  {}

  lemma TerminalStep(log: seq<Act>, pending: seq<nat>, count: nat, residue: nat)
    requires Leaves(log, pending, count) && pending != []
    ensures Leaves(log + [Terminal(pending[0], residue)], pending, count)
    ensures Terminal(pending[0], residue) in log + [Terminal(pending[0], residue)]
  {}

  lemma GraceStep(log: seq<Act>, pending: seq<nat>, count: nat, residue: nat)
    requires Leaves(log, pending, count) && pending != [] && Terminal(pending[0], residue) in log
    ensures Leaves(log + [Graced(pending[0])], pending, count)
  {}

  lemma TicketsKept(before: seq<Desc>, moved: seq<Desc>, first: nat, wp: nat)
    requires before + Ticketed(moved, first) != []
    ensures forall i | 0 <= i < |before| :: Doorbell(before + Ticketed(moved, first), wp)[i].ticket == before[i].ticket
  {}

  lemma DoorbellKeeps(ds: seq<Desc>, wp: nat)
    requires ds != [] && Sized(ds) && Numbered(ds)
    ensures Sized(Doorbell(ds, wp)) && Numbered(Doorbell(ds, wp)) && (Headed(ds) ==> Headed(Doorbell(ds, wp)))
  {}
}
