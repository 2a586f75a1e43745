/** The output merge pass: records near each other are put into one group by
    relabelling, and the ones that were paired change type. */
module OutputMerge {
  datatype OutputContact = OutputContact(x: real, y: real, recordType: int, groupId: int, trackIndex: int)

  datatype Result<T> = Ok(value: T) | NegativeLimit

  const SINGLE: int := 1
  const CONTINUED: int := 3
  const MERGED: int := 7

  ghost predicate Takes(c: OutputContact) {
    c.recordType == SINGLE || c.recordType == CONTINUED
  }

  ghost predicate Near(a: OutputContact, b: OutputContact, limit: real) {
    var dx, dy := a.x - b.x, a.y - b.y;
    Takes(a) && Takes(b) && a.groupId != b.groupId && dx * dx + dy * dy < limit
  }

  type Pair = (nat, nat)

  ghost predicate NearPair(cs: seq<OutputContact>, limit: real, p: Pair) {
    p.0 < p.1 < |cs| && Near(cs[p.0], cs[p.1], limit)
  }

  /** Position i belongs to some near pair. */
  ghost predicate Paired(cs: seq<OutputContact>, limit: real, i: nat) {
    exists p: Pair :: NearPair(cs, limit, p) && (p.0 == i || p.1 == i)
  }

  // ----- equivalences, each given by a label for every position

  /** Positions with equal labels in g have equal labels in lab. */
  ghost predicate Respects(lab: seq<int>, g: seq<int>) {
    |lab| == |g| && forall i, j | 0 <= i < |g| && 0 <= j < |g| && g[i] == g[j] :: lab[i] == lab[j]
  }

  ghost predicate JoinsAll(lab: seq<int>, pairs: seq<Pair>) {
    forall k | 0 <= k < |pairs| :: pairs[k].0 < |lab| && pairs[k].1 < |lab| && lab[pairs[k].0] == lab[pairs[k].1]
  }

  /** g is the least equivalence that contains g0 and the pairs. */
  ghost predicate LeastJoin(g0: seq<int>, pairs: seq<Pair>, g: seq<int>) {
    && Respects(g, g0) && JoinsAll(g, pairs)
    && forall lab: seq<int> | Respects(lab, g0) && JoinsAll(lab, pairs) :: Respects(lab, g)
  }

  /** Every label was some position's label to begin with, and still is. */
  ghost predicate LabelsKept(g0: seq<int>, g: seq<int>) {
    |g| == |g0| && forall i | 0 <= i < |g| :: KeptBy(g0, g, g[i])
  }

  ghost predicate KeptBy(g0: seq<int>, g: seq<int>, id: int)
    requires |g| == |g0|
  {
    exists j :: 0 <= j < |g| && g0[j] == id && g[j] == id
  }

  ghost function Groups(cs: seq<OutputContact>): (g: seq<int>)
    ensures |g| == |cs| && forall i | 0 <= i < |cs| :: g[i] == cs[i].groupId
  {
    seq(|cs|, i requires 0 <= i < |cs| => cs[i].groupId)
  }

  /** Every position labelled gone is labelled kept instead. */
  ghost function Relabelled(g: seq<int>, gone: int, kept: int): (r: seq<int>)
    ensures |r| == |g| && forall i | 0 <= i < |g| :: r[i] == if g[i] == gone then kept else g[i]
  {
    seq(|g|, i requires 0 <= i < |g| => if g[i] == gone then kept else g[i])
  }

  /** Relabelling the second group of a pair as the first adds exactly that pair. */
  lemma JoinStep(g0: seq<int>, pairs: seq<Pair>, g: seq<int>, p: Pair)
    requires LeastJoin(g0, pairs, g) && p.0 < |g| && p.1 < |g|
    ensures LeastJoin(g0, pairs + [p], Relabelled(g, g[p.1], g[p.0]))
  {
    var r, more := Relabelled(g, g[p.1], g[p.0]), pairs + [p];
    assert Respects(r, g);
    assert JoinsAll(r, more);
    forall lab: seq<int> | Respects(lab, g0) && JoinsAll(lab, more)
      ensures Respects(lab, r)
    {
      PairsPrefix(lab, pairs, p);
      assert Respects(lab, g);
      assert more[|pairs|] == p;
    }
  }

  lemma PairsPrefix(lab: seq<int>, pairs: seq<Pair>, p: Pair)
    requires JoinsAll(lab, pairs + [p])
    ensures JoinsAll(lab, pairs)
  {
    assert forall k | 0 <= k < |pairs| :: (pairs + [p])[k] == pairs[k];
  }

  lemma LabelsStep(g0: seq<int>, g: seq<int>, p: Pair)
    requires LabelsKept(g0, g) && p.0 < |g| && p.1 < |g|
    ensures LabelsKept(g0, Relabelled(g, g[p.1], g[p.0]))
  {}

  // ----- the pass

  /** The pairs are the near ones, each once. */
  ghost predicate PairsUpTo(cs: seq<OutputContact>, limit: real, pairs: seq<Pair>, first: nat, second: nat) {
    && (forall k | 0 <= k < |pairs| :: NearPair(cs, limit, pairs[k]))
    && forall p: Pair | NearPair(cs, limit, p) && (p.0 < first || (p.0 == first && p.1 < second)) :: p in pairs
  }

  /** What the pass makes of the records: least joined groups, type seven for
      the paired type-one records, nothing else changed. */
  ghost predicate MergedRecords(before: seq<OutputContact>, pairs: seq<Pair>, after: seq<OutputContact>) {
    && |after| == |before|
    && LeastJoin(Groups(before), pairs, Groups(after)) && LabelsKept(Groups(before), Groups(after))
    && forall i: nat | i < |before| :: SameBut(before[i], after[i], before[i].recordType == SINGLE && InPairs(pairs, i))
  }

  ghost predicate InPairs(pairs: seq<Pair>, i: nat) {
    exists k :: 0 <= k < |pairs| && (pairs[k].0 == i || pairs[k].1 == i)
  }

  ghost predicate SameBut(b: OutputContact, a: OutputContact, merged: bool) {
    && a.x == b.x && a.y == b.y && a.trackIndex == b.trackIndex
    && a.recordType == if merged then MERGED else b.recordType
  }

  /** The nested loops that collect the pairs, and the tracks they mark. */
  method CollectPairs(contacts: array<OutputContact>, limit: real) returns (pairs: seq<Pair>, tracks: set<int>)
    ensures PairsUpTo(contacts[..], limit, pairs, contacts.Length, 0)
    ensures tracks == TracksOf(contacts[..], pairs)
  {
    pairs, tracks := [], {};
    ghost var cs := contacts[..];
    for i := 0 to contacts.Length
      invariant PairsUpTo(cs, limit, pairs, i, 0) && tracks == TracksOf(cs, pairs)
    {
      var first := contacts[i];
      if first.recordType != 1 && first.recordType != 3 {
        continue;
      }
      for j := i + 1 to contacts.Length
        invariant PairsUpTo(cs, limit, pairs, i, j) && tracks == TracksOf(cs, pairs)
      {
        var second := contacts[j];
        if (second.recordType != 1 && second.recordType != 3) || first.groupId == second.groupId {
          continue;
        }
        var dx, dy := first.x - second.x, first.y - second.y;
        if dx * dx + dy * dy < limit {
          assert (pairs + [(i, j)])[..|pairs|] == pairs;
          pairs := pairs + [(i, j)];
          tracks := tracks + {contacts[i].trackIndex, contacts[j].trackIndex};
        }
      }
    }
  }

  ghost function TracksOf(cs: seq<OutputContact>, pairs: seq<Pair>): set<int> {
    if pairs == [] then {}
    else
      var p := pairs[|pairs| - 1];
      var rest := TracksOf(cs, pairs[..|pairs| - 1]);
      if p.0 < |cs| && p.1 < |cs| then rest + {cs[p.0].trackIndex, cs[p.1].trackIndex} else rest
  }

  /** The inner loop of the second pass. */
  method Relabel(contacts: array<OutputContact>, gone: int, kept: int)
    modifies contacts
    ensures forall i | 0 <= i < contacts.Length ::
              contacts[i] == old(contacts[i]).(groupId := if old(contacts[i]).groupId == gone then kept else old(contacts[i]).groupId)
  {
    for i := 0 to contacts.Length
      invariant forall k | 0 <= k < contacts.Length ::
                  contacts[k] == if k < i && old(contacts[k]).groupId == gone then old(contacts[k]).(groupId := kept)
                                 else old(contacts[k])
    {
      if contacts[i].groupId == gone {
        contacts[i] := contacts[i].(groupId := kept);
      }
    }
  }

  /** One pair of the second pass. */
  method MergePair(contacts: array<OutputContact>, p: Pair, ghost before: seq<OutputContact>, ghost pairs: seq<Pair>)
    requires p.0 < p.1 < contacts.Length && MergedRecords(before, pairs, contacts[..])
    modifies contacts
    ensures MergedRecords(before, pairs + [p], contacts[..])
  {
    ghost var cs := contacts[..];
    JoinStep(Groups(before), pairs, Groups(cs), p);
    LabelsStep(Groups(before), Groups(cs), p);
    Relabel(contacts, contacts[p.1].groupId, contacts[p.0].groupId);
    if contacts[p.0].recordType == SINGLE {
      contacts[p.0] := contacts[p.0].(recordType := MERGED);
    }
    if contacts[p.1].recordType == SINGLE {
      contacts[p.1] := contacts[p.1].(recordType := MERGED);
    }
    InPairsNext(pairs, p);
    assert Groups(contacts[..]) == Relabelled(Groups(cs), cs[p.1].groupId, cs[p.0].groupId);
  }

  lemma InPairsNext(pairs: seq<Pair>, p: Pair)
    ensures forall i: nat :: InPairs(pairs + [p], i) <==> InPairs(pairs, i) || i == p.0 || i == p.1
  {
    var more := pairs + [p];
    assert more[|pairs|] == p;
    assert forall k | 0 <= k < |pairs| :: more[k] == pairs[k];
  }

  /** merge_nearby_output_contacts. */
  method Merge(contacts: array<OutputContact>, limit: real) returns (r: Result<set<int>>)
    modifies contacts
    ensures limit < 0.0 ==> r == NegativeLimit && contacts[..] == old(contacts[..])
    ensures limit >= 0.0 ==> r.Ok? && Outcome(old(contacts[..]), limit, contacts[..], r.value)
  {
    if limit < 0.0 {
      return NegativeLimit;
    }
    ghost var before := contacts[..];
    var pairs, tracks := CollectPairs(contacts, limit);
    StartMerge(before);
    for k := 0 to |pairs|
      invariant MergedRecords(before, pairs[..k], contacts[..])
    {
      assert NearPair(before, limit, pairs[k]);
      MergePair(contacts, pairs[k], before, pairs[..k]);
      assert pairs[..k + 1] == pairs[..k] + [pairs[k]];
    }
    assert pairs[..|pairs|] == pairs;
    Concludes(before, limit, pairs, contacts[..]);
    r := Ok(tracks);
  }

  lemma StartMerge(before: seq<OutputContact>)
    ensures MergedRecords(before, [], before)
  {}

  // ----- the pass without its list of pairs

  ghost predicate JoinsNear(lab: seq<int>, cs: seq<OutputContact>, limit: real)
    requires |lab| == |cs|
  {
    forall p: Pair | NearPair(cs, limit, p) :: lab[p.0] == lab[p.1]
  }

  /** after's groups are the least equivalence that contains before's groups and
      all near pairs; every identifier left was there before; exactly the paired
      records of type one become type seven; tracks are those of paired records. */
  ghost predicate Outcome(before: seq<OutputContact>, limit: real, after: seq<OutputContact>, tracks: set<int>) {
    && |after| == |before|
    && Respects(Groups(after), Groups(before)) && JoinsNear(Groups(after), before, limit)
    && (forall lab: seq<int> | Respects(lab, Groups(before)) && JoinsNear(lab, before, limit) :: Respects(lab, Groups(after)))
    && LabelsKept(Groups(before), Groups(after))
    && (forall i: nat | i < |before| ::
          SameBut(before[i], after[i], before[i].recordType == SINGLE && Paired(before, limit, i)))
    && (forall t :: t in tracks <==> TrackPaired(before, limit, t))
  }

  ghost predicate TrackPaired(cs: seq<OutputContact>, limit: real, t: int) {
    exists i: nat :: i < |cs| && cs[i].trackIndex == t && Paired(cs, limit, i)
  }

  lemma InPairsIsPaired(cs: seq<OutputContact>, limit: real, pairs: seq<Pair>, i: nat)
    requires PairsUpTo(cs, limit, pairs, |cs|, 0)
    ensures InPairs(pairs, i) <==> Paired(cs, limit, i)
  {}

  lemma JoinsAllIsJoinsNear(cs: seq<OutputContact>, limit: real, pairs: seq<Pair>, lab: seq<int>)
    requires PairsUpTo(cs, limit, pairs, |cs|, 0) && |lab| == |cs|
    ensures JoinsAll(lab, pairs) <==> JoinsNear(lab, cs, limit)
  {}

  lemma {:induction false} TracksOfPairs(cs: seq<OutputContact>, pairs: seq<Pair>, t: int)
    requires forall k | 0 <= k < |pairs| :: pairs[k].0 < |cs| && pairs[k].1 < |cs|
    ensures t in TracksOf(cs, pairs) <==> exists i: nat :: i < |cs| && cs[i].trackIndex == t && InPairs(pairs, i)
  {
    if pairs != [] {
      var rest, p := pairs[..|pairs| - 1], pairs[|pairs| - 1];
      TracksOfPairs(cs, rest, t);
      InPairsNext(rest, p);
      assert rest + [p] == pairs;
    }
  }

  lemma Concludes(before: seq<OutputContact>, limit: real, pairs: seq<Pair>, after: seq<OutputContact>)
    requires PairsUpTo(before, limit, pairs, |before|, 0) && MergedRecords(before, pairs, after)
    ensures Outcome(before, limit, after, TracksOf(before, pairs))
  {
    var g0, g := Groups(before), Groups(after);
    JoinsAllIsJoinsNear(before, limit, pairs, g);
    forall lab: seq<int> | Respects(lab, g0) && JoinsNear(lab, before, limit)
      ensures Respects(lab, g)
    {
      JoinsAllIsJoinsNear(before, limit, pairs, lab);
    }
    forall i: nat | i < |before|
      ensures InPairs(pairs, i) <==> Paired(before, limit, i)
    {
      InPairsIsPaired(before, limit, pairs, i);
    }
    forall t
      ensures t in TracksOf(before, pairs) <==> TrackPaired(before, limit, t)
    {
      assert forall k | 0 <= k < |pairs| :: NearPair(before, limit, pairs[k]);
      TracksOfPairs(before, pairs, t);
    }
  }

  /** The outcome groups the same positions whatever order the pairs are taken in. */
  lemma SamePartition(before: seq<OutputContact>, limit: real, after: seq<OutputContact>, tracks: set<int>,
                      other: seq<OutputContact>, otherTracks: set<int>, i: nat, j: nat)
    requires Outcome(before, limit, after, tracks) && Outcome(before, limit, other, otherTracks)
    requires i < |before| && j < |before|
    ensures after[i].groupId == after[j].groupId <==> other[i].groupId == other[j].groupId
  {}
}
