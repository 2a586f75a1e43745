/** The offline oracle: minimum_cost_matches of the reference tracker, a
    search over tracks and sets of used contacts. */
module AssignmentOracle {
  import opened Numbers
  import opened HungarianSpec
  import opened Matchings
  import opened Padding

  /** Gated matchings of the tracks from k on that avoid the used contacts. */
  ghost predicate Open(d: Distances, tracks: nat, contacts: nat, gate: int, k: nat, used: set<nat>, ps: set<(nat, nat)>) {
    && Gated(d, tracks, contacts, gate, ps)
    && forall x | x in ps :: k <= x.0 && x.1 !in used
  }

  /** ps is no worse than any open matching whose pair for track k, if any,
      has a contact below upto. */
  ghost predicate BestUpTo(d: Distances, tracks: nat, contacts: nat, gate: int, k: nat, used: set<nat>, upto: nat, ps: set<(nat, nat)>) {
    && Open(d, tracks, contacts, gate, k, used, ps)
    && forall qs | Open(d, tracks, contacts, gate, k, used, qs) && (forall m0 | (k, m0) in qs :: m0 < upto) ::
         NoBetter(d, ps, qs)
  }

  ghost predicate Best(d: Distances, tracks: nat, contacts: nat, gate: int, k: nat, used: set<nat>, ps: set<(nat, nat)>) {
    && Open(d, tracks, contacts, gate, k, used, ps)
    && forall qs | Open(d, tracks, contacts, gate, k, used, qs) :: NoBetter(d, ps, qs)
  }

  ghost function AsSet(pairs: seq<(nat, nat)>): set<(nat, nat)> {
    set x | x in pairs
  }

  /** What the search returns: the key it compares and the pairs themselves. */
  datatype Answer = Answer(matched: nat, total: int, pairs: seq<(nat, nat)>)

  ghost predicate Describes(d: Distances, a: Answer)
    requires forall x | x in a.pairs :: x.0 < |d| && x.1 < |d[x.0]|
  {
    a.matched == |AsSet(a.pairs)| && a.total == TotalDistance(d, AsSet(a.pairs)) && Ascending(a.pairs)
  }

  /** One pair a track, in the order of the tracks. */
  ghost predicate Ascending(pairs: seq<(nat, nat)>) {
    forall i, j | 0 <= i < j < |pairs| :: pairs[i].0 < pairs[j].0
  }

  /** Putting the pair x in front of an open matching of the later tracks. */
  lemma AddPair(d: Distances, tracks: nat, contacts: nat, gate: int, k: nat, used: set<nat>, m: nat, ps: set<(nat, nat)>)
    requires k < tracks && m < contacts && m !in used && Shape(d, tracks, contacts) && d[k][m] <= gate
    requires Open(d, tracks, contacts, gate, k + 1, used + {m}, ps)
    ensures Open(d, tracks, contacts, gate, k, used, ps + {(k, m)})
    ensures |ps + {(k, m)}| == |ps| + 1
    ensures TotalDistance(d, ps + {(k, m)}) == d[k][m] + TotalDistance(d, ps)
  {
    var qs := ps + {(k, m)};
    assert forall x | x in ps :: x.0 != k && x.1 != m && x.1 !in used;
    assert Gated(d, tracks, contacts, gate, qs);
    assert qs - {(k, m)} == ps;
    TotalDistanceRemove(d, qs, (k, m));
  }

  /** Taking the pair of track k away again. */
  lemma DropPair(d: Distances, tracks: nat, contacts: nat, gate: int, k: nat, used: set<nat>, m: nat, qs: set<(nat, nat)>)
    requires Open(d, tracks, contacts, gate, k, used, qs) && (k, m) in qs
    ensures Open(d, tracks, contacts, gate, k + 1, used + {m}, qs - {(k, m)})
    ensures |qs| == |qs - {(k, m)}| + 1
    ensures TotalDistance(d, qs) == d[k][m] + TotalDistance(d, qs - {(k, m)})
  {
    TotalDistanceRemove(d, qs, (k, m));
  }

  function Prepend(d: Distances, k: nat, m: nat, rest: Answer): Answer
    requires k < |d| && m < |d[k]|
  {
    Answer(rest.matched + 1, rest.total + d[k][m], [(k, m)] + rest.pairs)
  }

  lemma Prepended(d: Distances, tracks: nat, contacts: nat, gate: int, k: nat, used: set<nat>, m: nat, rest: Answer)
    requires k < tracks && m < contacts && m !in used && Shape(d, tracks, contacts) && d[k][m] <= gate
    requires Open(d, tracks, contacts, gate, k + 1, used + {m}, AsSet(rest.pairs)) && Describes(d, rest)
    ensures var candidate := Prepend(d, k, m, rest);
            && AsSet(candidate.pairs) == AsSet(rest.pairs) + {(k, m)}
            && Open(d, tracks, contacts, gate, k, used, AsSet(candidate.pairs))
            && Describes(d, candidate)
  {
    PrependedPairs(rest.pairs, k, m);
    AddPair(d, tracks, contacts, gate, k, used, m, AsSet(rest.pairs));
  }

  lemma PrependedPairs(pairs: seq<(nat, nat)>, k: nat, m: nat)
    requires Ascending(pairs) && forall x | x in AsSet(pairs) :: k < x.0
    ensures AsSet([(k, m)] + pairs) == AsSet(pairs) + {(k, m)} && Ascending([(k, m)] + pairs)
  {}

  lemma CandidateIsBest(d: Distances, tracks: nat, contacts: nat, gate: int, k: nat, used: set<nat>, m: nat,
                        rest: set<(nat, nat)>, qs: set<(nat, nat)>)
    requires k < tracks && m < contacts && m !in used && Shape(d, tracks, contacts) && d[k][m] <= gate
    requires Best(d, tracks, contacts, gate, k + 1, used + {m}, rest)
    requires Open(d, tracks, contacts, gate, k, used, qs) && (k, m) in qs
    ensures Open(d, tracks, contacts, gate, k, used, rest + {(k, m)})
    ensures NoBetter(d, rest + {(k, m)}, qs)
  {
    AddPair(d, tracks, contacts, gate, k, used, m, rest);
    DropPair(d, tracks, contacts, gate, k, used, m, qs);
    assert NoBetter(d, rest, qs - {(k, m)});
  }

  /** The candidate through contact m is best among the matchings with (k, m),
      so the preferred answer covers one contact more. */
  lemma Extended(d: Distances, tracks: nat, contacts: nat, gate: int, k: nat, used: set<nat>, m: nat,
                 best: set<(nat, nat)>, rest: set<(nat, nat)>, chosen: set<(nat, nat)>)
    requires k < tracks && m < contacts && m !in used && Shape(d, tracks, contacts) && d[k][m] <= gate
    requires BestUpTo(d, tracks, contacts, gate, k, used, m, best)
    requires Best(d, tracks, contacts, gate, k + 1, used + {m}, rest)
    requires Open(d, tracks, contacts, gate, k, used, rest + {(k, m)})
    requires chosen == best || chosen == rest + {(k, m)}
    requires NoBetter(d, chosen, best) && NoBetter(d, chosen, rest + {(k, m)})
    ensures BestUpTo(d, tracks, contacts, gate, k, used, m + 1, chosen)
  {
    forall qs | Open(d, tracks, contacts, gate, k, used, qs) && (forall m0 | (k, m0) in qs :: m0 < m + 1)
      ensures NoBetter(d, chosen, qs)
    {
      if (k, m) in qs {
        CandidateIsBest(d, tracks, contacts, gate, k, used, m, rest, qs);
      } else {
        assert NoBetter(d, best, qs);
      }
    }
  }

  lemma Skipped(d: Distances, tracks: nat, contacts: nat, gate: int, k: nat, used: set<nat>, m: nat, best: set<(nat, nat)>)
    requires k < tracks && m < contacts && Shape(d, tracks, contacts) && (d[k][m] > gate || m in used)
    requires BestUpTo(d, tracks, contacts, gate, k, used, m, best)
    ensures BestUpTo(d, tracks, contacts, gate, k, used, m + 1, best)
  {}

  /** solve(track_index, used_mask). */
  method Solve(d: Distances, tracks: nat, contacts: nat, gate: int, k: nat, used: set<nat>) returns (best: Answer)
    requires Shape(d, tracks, contacts) && k <= tracks
    ensures Best(d, tracks, contacts, gate, k, used, AsSet(best.pairs)) && Describes(d, best)
    decreases tracks - k
  {
    if k == tracks {
      NothingOpen(d, tracks, contacts, gate, used);
      return Answer(0, 0, []);
    }
    best := Solve(d, tracks, contacts, gate, k + 1, used);
    WithoutTrack(d, tracks, contacts, gate, k, used, AsSet(best.pairs));
    for m := 0 to contacts
      invariant BestUpTo(d, tracks, contacts, gate, k, used, m, AsSet(best.pairs)) && Describes(d, best)
    {
      if d[k][m] > gate || m in used {
        Skipped(d, tracks, contacts, gate, k, used, m, AsSet(best.pairs));
        continue;
      }
      var rest := Solve(d, tracks, contacts, gate, k + 1, used + {m});
      var candidate := Prepend(d, k, m, rest);
      Prepended(d, tracks, contacts, gate, k, used, m, rest);
      ghost var before := AsSet(best.pairs);
      if candidate.matched > best.matched || (candidate.matched == best.matched && candidate.total < best.total) {
        best := candidate;
      }
      Extended(d, tracks, contacts, gate, k, used, m, before, AsSet(rest.pairs), AsSet(best.pairs));
    }
    AllContacts(d, tracks, contacts, gate, k, used, AsSet(best.pairs));
  }

  lemma AllContacts(d: Distances, tracks: nat, contacts: nat, gate: int, k: nat, used: set<nat>, ps: set<(nat, nat)>)
    requires BestUpTo(d, tracks, contacts, gate, k, used, contacts, ps)
    ensures Best(d, tracks, contacts, gate, k, used, ps)
  {}

  lemma NothingOpen(d: Distances, tracks: nat, contacts: nat, gate: int, used: set<nat>)
    requires Shape(d, tracks, contacts)
    ensures Best(d, tracks, contacts, gate, tracks, used, {})
  {}

  lemma WithoutTrack(d: Distances, tracks: nat, contacts: nat, gate: int, k: nat, used: set<nat>, ps: set<(nat, nat)>)
    requires k < tracks && Best(d, tracks, contacts, gate, k + 1, used, ps)
    ensures BestUpTo(d, tracks, contacts, gate, k, used, 0, ps)
  {}

  /** minimum_cost_matches: the answer is a lexicographic optimum, with the
      early return for an empty side. */
  method MinimumCostMatches(d: Distances, tracks: nat, contacts: nat, gate: int) returns (pairs: seq<(nat, nat)>)
    requires Shape(d, tracks, contacts)
    ensures LexOptimal(d, tracks, contacts, gate, AsSet(pairs)) && Ascending(pairs)
  {
    if tracks == 0 || contacts == 0 {
      pairs := [];
      forall qs | Gated(d, tracks, contacts, gate, qs)
        ensures NoBetter(d, AsSet(pairs), qs)
      {
        assert forall x :: x !in qs;
        assert qs == {};
      }
      return;
    }
    var best := Solve(d, tracks, contacts, gate, 0, {});
    pairs := best.pairs;
    forall qs | Gated(d, tracks, contacts, gate, qs)
      ensures NoBetter(d, AsSet(pairs), qs)
    {
      assert Open(d, tracks, contacts, gate, 0, {}, qs);
    }
  }

  /** The solver on the padded matrix and the oracle agree in number of pairs
      and in total distance, on problems of every size. */
  lemma SolversAgree(d: Distances, tracks: nat, contacts: nat, gate: nat, s: seq<int>, pairs: seq<(nat, nat)>)
    requires GatedDistances(d, tracks, contacts, gate) && gate * Min(tracks, contacts) < 2 * UNMATCHED_COST
    requires MinimumAssignment(Padded(d, tracks, contacts), tracks + contacts, s)
    requires LexOptimal(d, tracks, contacts, gate, AsSet(pairs))
    ensures var ps := PairsOf(RealPart(s, tracks, contacts), contacts);
            LexOptimal(d, tracks, contacts, gate, ps)
            && |ps| == |AsSet(pairs)| && TotalDistance(d, ps) == TotalDistance(d, AsSet(pairs))
  {
    PaddedOptimumIsLexOptimal(d, tracks, contacts, gate, s);
    OptimaAgree(d, tracks, contacts, gate, PairsOf(RealPart(s, tracks, contacts), contacts), AsSet(pairs));
  }
}
