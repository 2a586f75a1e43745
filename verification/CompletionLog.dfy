/** What may happen to the descriptors of one DMA channel, as a log of
    acts, and what every sound log guarantees. */
module CompletionLog {
  datatype Code = Success | Eot | Eob | UnexpectedError

  /** Who reports a completion to the client. */
  datatype How = ByNotification | ByGrace | ByEvent(code: Code)

  /** Descriptors are known by the order in which they were issued. */
  datatype Act =
    | Issued(ticket: nat)
    | Terminal(ticket: nat, residue: nat)
    | Graced(ticket: nat)
    | Completed(ticket: nat, how: How, residue: nat)
    | Terminated

  /** Tickets issued so far; the next descriptor gets this number. */
  ghost function Tickets(log: seq<Act>): nat {
    if log == [] then 0
    else Tickets(log[..|log| - 1]) + if log[|log| - 1].Issued? then 1 else 0
  }

  /** Descriptors issued, not completed and not thrown away, oldest first. */
  ghost function Pending(log: seq<Act>): seq<nat> {
    if log == [] then [] else PendingAfter(Pending(log[..|log| - 1]), log[|log| - 1])
  }

  ghost function PendingAfter(before: seq<nat>, act: Act): seq<nat> {
    match act
    case Issued(ticket) => before + [ticket]
    case Completed(_, _, _) => if before == [] then [] else before[1..]
    case Terminated => []
    case _ => before
  }

  /** The act is allowed after the log. */
  ghost predicate Follows(log: seq<Act>, act: Act) {
    && (act.Issued? ==> act.ticket == Tickets(log))
    && (act.Terminal? || act.Graced? || act.Completed? ==> Oldest(log, act.ticket))
    && (act.Graced? ==> Ended(log, act.ticket))
    && (act.Completed? ==> Justified(log, act.ticket, act.how, act.residue))
  }

  /** A completion needs the terminal event unless it reports a failure, and a
      grace completion needs the grace period to have passed. */
  ghost predicate Justified(log: seq<Act>, ticket: nat, how: How, residue: nat) {
    && (how.ByEvent? ==> how.code == Eot ==> Terminal(ticket, residue) in log)
    && (!how.ByEvent? ==> Terminal(ticket, residue) in log)
    && (how.ByGrace? ==> Graced(ticket) in log)
  }

  /** The descriptor's terminal event has arrived. */
  ghost predicate Ended(log: seq<Act>, ticket: nat) {
    exists i :: 0 <= i < |log| && log[i].Terminal? && log[i].ticket == ticket
  }

  ghost predicate Oldest(log: seq<Act>, ticket: nat) {
    Pending(log) != [] && Pending(log)[0] == ticket
  }

  ghost predicate Sound(log: seq<Act>) {
    log == [] || (Sound(log[..|log| - 1]) && Follows(log[..|log| - 1], log[|log| - 1]))
  }

  lemma Snoc(log: seq<Act>, act: Act)
    requires Sound(log) && Follows(log, act)
    ensures Sound(log + [act])
    ensures Tickets(log + [act]) == Tickets(log) + if act.Issued? then 1 else 0
    ensures Pending(log + [act]) == PendingAfter(Pending(log), act)
  {}

  // ----- what soundness means for a client

  lemma {:induction false} PrefixSound(log: seq<Act>, n: nat)
    requires Sound(log) && n <= |log|
    ensures Sound(log[..n])
    ensures n < |log| ==> Follows(log[..n], log[n])
  {
    if n < |log| {
      PrefixSound(log[..|log| - 1], n);
      assert log[..|log| - 1][..n] == log[..n];
      if n == |log| - 1 {
        assert log[..n] == log[..|log| - 1];
      }
    } else {
      assert log[..n] == log;
    }
  }

  /** The outstanding descriptors are the latest ones issued, in issue order. */
  lemma {:induction false} PendingIsLatest(log: seq<Act>)
    requires Sound(log)
    ensures |Pending(log)| <= Tickets(log)
    ensures forall i | 0 <= i < |Pending(log)| :: Pending(log)[i] == Tickets(log) - |Pending(log)| + i
  {
    if log != [] {
      PendingIsLatest(log[..|log| - 1]);
    }
  }

  /** Every descriptor completed before is older than all outstanding ones. */
  lemma {:induction false} CompletedAreOlder(log: seq<Act>, p: nat)
    requires Sound(log) && p < |log| && log[p].Completed?
    ensures log[p].ticket + |Pending(log)| < Tickets(log)
  {
    var rest := log[..|log| - 1];
    PendingIsLatest(rest);
    if p < |rest| {
      CompletedAreOlder(rest, p);
    }
  }

  /** Completions happen in issue order; in particular no descriptor completes twice. */
  lemma {:induction false} CompletedInOrder(log: seq<Act>, p: nat, q: nat)
    requires Sound(log) && p < q < |log| && log[p].Completed? && log[q].Completed?
    ensures log[p].ticket < log[q].ticket
  {
    PrefixSound(log, q);
    PendingIsLatest(log[..q]);
    assert log[..q][p] == log[p];
    CompletedAreOlder(log[..q], p);
  }

  /** Completing a descriptor a second time is never sound. */
  lemma NoSecondCompletion(log: seq<Act>, p: nat, how: How, residue: nat)
    requires Sound(log) && p < |log| && log[p].Completed?
    ensures !Follows(log, Completed(log[p].ticket, how, residue))
  {
    PendingIsLatest(log);
    CompletedAreOlder(log, p);
  }

  /** A completion is preceded by the issue of its descriptor. */
  lemma CompletedWasIssued(log: seq<Act>, q: nat)
    requires Sound(log) && q < |log| && log[q].Completed?
    ensures Issued(log[q].ticket) in log[..q]
  {
    PrefixSound(log, q);
    PendingWereIssued(log[..q]);
  }

  lemma {:induction false} PendingWereIssued(log: seq<Act>)
    requires Sound(log)
    ensures forall t | t in Pending(log) :: Issued(t) in log
  {
    if log != [] {
      PendingWereIssued(log[..|log| - 1]);
    }
  }

  /** A completion by notification or grace period, or by a transfer end, comes
      after the descriptor's terminal event and reports that event's residue. */
  lemma {:induction false} CompletedAfterTerminal(log: seq<Act>, q: nat)
    requires Sound(log) && q < |log| && log[q].Completed?
    requires log[q].how.ByEvent? ==> log[q].how.code == Eot
    ensures Terminal(log[q].ticket, log[q].residue) in log[..q]
    ensures log[q].how.ByGrace? ==> Graced(log[q].ticket) in log[..q]
  {
    PrefixSound(log, q);
  }

  /** Nothing issued before a termination completes after it. */
  lemma TerminationIsFinal(log: seq<Act>, p: nat, q: nat)
    requires Sound(log) && p < q < |log| && log[p].Terminated? && log[q].Completed?
    ensures Issued(log[q].ticket) !in log[..p]
  {
    PrefixSound(log, q);
    PendingIsLater(log[..q], p);
    PendingIsLatest(log[..q]);
    PrefixSound(log, p);
    assert log[..q][..p] == log[..p];
    if Issued(log[q].ticket) in log[..p] {
      IssuedIsNumbered(log[..p], log[q].ticket);
    }
  }

  lemma {:induction false} IssuedIsNumbered(log: seq<Act>, t: nat)
    requires Sound(log) && Issued(t) in log
    ensures t < Tickets(log)
  {
    var rest := log[..|log| - 1];
    if log[|log| - 1] != Issued(t) {
      assert Issued(t) in rest;
      IssuedIsNumbered(rest, t);
    }
  }

  lemma {:induction false} PendingIsLater(log: seq<Act>, p: nat)
    requires Sound(log) && p < |log| && log[p].Terminated?
    ensures Tickets(log[..p]) + |Pending(log)| <= Tickets(log)
  {
    var rest := log[..|log| - 1];
    assert rest[..|log| - 1] == rest;
    if p < |rest| {
      assert rest[..p] == log[..p];
      PendingIsLater(rest, p);
    }
  }
}
