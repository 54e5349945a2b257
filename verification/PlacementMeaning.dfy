/** Where saved versions go, told by the mapped lines alone (batch/realized_file_content.py:40-98). */
module PlacementMeaning {
  import opened Wrappers
  import opened LineRanges
  import opened Realized
  import opened RealizedFileContent

  /**
   No line between two source offsets is mapped, and the lines mapped before and behind them lie on either
   side of a target boundary with no target line in between.
   */
  ghost predicate Separates(pairs: seq<MappedPair>, targetCount: nat, start: nat, end: nat, boundary: nat) {
    && (forall p :: 0 <= p < |pairs| ==>
          if pairs[p].source <= start then pairs[p].target <= boundary else pairs[p].source > end && pairs[p].target > boundary)
    && (boundary == 0 || exists p :: 0 <= p < |pairs| && pairs[p].target == boundary)
    && (boundary == targetCount || exists p :: 0 <= p < |pairs| && pairs[p].target == boundary + 1)
  }

  /** The saved lines of one alternative, at one boundary. */
  predicate Puts(alternative: Alternative, boundary: nat, placement: Placement) {
    && placement.lines.first == alternative.saved.start + 1 && placement.lines.last == alternative.saved.end
    && placement.boundary == boundary
  }

  /** The gap that the sweeps agree on is the boundary that separates the lines mapped before and behind. */
  lemma GapSeparates(pairs: seq<MappedPair>, targetCount: nat, chain: Chain, end: nat, before: Option<nat>, after: Option<nat>)
    requires Increasing(pairs, targetCount) && chain.Valid() && chain.End() <= end
    requires IsBefore(pairs, chain, before) && IsAfter(pairs, end, after)
    requires BeforeGap(before) == AfterGap(after, targetCount)
    ensures Separates(pairs, targetCount, chain.Start(), end, BeforeGap(before))
  {
    PlacedMeansUnmapped(pairs, targetCount, chain, end, before, after);
    var a: nat :| CountsUpTo(pairs, chain.Start(), a) && before == LastTarget(pairs, a);
    var b: nat :| CountsUpTo(pairs, end, b) && after == NextTarget(pairs, b);
    assert a > 0 ==> pairs[a - 1].target == BeforeGap(before);
    assert b < |pairs| ==> pairs[b].target == BeforeGap(before) + 1;
  }

  lemma SeparatorIsGap(pairs: seq<MappedPair>, targetCount: nat, chain: Chain, end: nat, before: Option<nat>, after: Option<nat>, boundary: nat)
    requires Increasing(pairs, targetCount) && chain.Valid() && chain.End() <= end
    requires IsBefore(pairs, chain, before) && IsAfter(pairs, end, after)
    requires Separates(pairs, targetCount, chain.Start(), end, boundary)
    ensures BeforeGap(before) == AfterGap(after, targetCount) == boundary
  {
    var a: nat :| CountsUpTo(pairs, chain.Start(), a) && before == LastTarget(pairs, a);
    var b: nat :| CountsUpTo(pairs, end, b) && after == NextTarget(pairs, b);
    StartBeforeEnd(chain);
    assert a <= b;
    LastBelow(pairs, targetCount, chain.Start(), a, boundary);
    FirstAbove(pairs, targetCount, end, b, boundary);
  }

  lemma StartBeforeEnd(chain: Chain)
    requires chain.Valid()
    ensures chain.Start() < chain.End()
  {
    ChainRuns(chain, |chain.members|);
  }

  lemma LastBelow(pairs: seq<MappedPair>, targetCount: nat, offset: nat, a: nat, boundary: nat)
    requires Increasing(pairs, targetCount) && CountsUpTo(pairs, offset, a)
    requires forall p :: 0 <= p < |pairs| ==> if pairs[p].source <= offset then pairs[p].target <= boundary else pairs[p].target > boundary
    requires boundary == 0 || exists p :: 0 <= p < |pairs| && pairs[p].target == boundary
    ensures BeforeGap(LastTarget(pairs, a)) == boundary
  {
    if boundary > 0 {
      var p :| 0 <= p < |pairs| && pairs[p].target == boundary;
      assert p <= a - 1;
      assert pairs[p].target <= pairs[a - 1].target;
    }
  }

  lemma FirstAbove(pairs: seq<MappedPair>, targetCount: nat, offset: nat, b: nat, boundary: nat)
    requires Increasing(pairs, targetCount) && CountsUpTo(pairs, offset, b)
    requires forall p :: 0 <= p < |pairs| ==> (pairs[p].source > offset <==> pairs[p].target > boundary)
    requires boundary == targetCount || exists p :: 0 <= p < |pairs| && pairs[p].target == boundary + 1
    ensures AfterGap(NextTarget(pairs, b), targetCount) == boundary
  {
    if b < |pairs| {
      assert pairs[b].target > boundary;
      var p :| 0 <= p < |pairs| && pairs[p].target == boundary + 1;
      assert b <= p;
      assert pairs[b].target <= pairs[p].target;
    }
  }

  // ------------------------------------------------------------- all placements

  lemma {:induction false} MembersArePut(members: seq<Alternative>, boundary: nat, placement: Placement)
    requires forall i :: 0 <= i < |members| ==> members[i].Valid()
    ensures placement in PlacedAt(members, boundary) <==> exists i :: 0 <= i < |members| && Puts(members[i], boundary, placement)
  {
    if members != [] {
      MembersArePut(members[..|members| - 1], boundary, placement);
      var last := |members| - 1;
      assert placement in PlacedAt(members, boundary) <==>
        placement in PlacedAt(members[..last], boundary) || Puts(members[last], boundary, placement);
      hide PlacedAt, Puts;
    }
  }

  /** The first chains place this. */
  ghost predicate ChainPuts(chains: seq<Chain>, pairs: seq<MappedPair>, targetCount: nat, c: nat, i: nat, placement: Placement)
    requires AllValid(chains)
  {
    && c < |chains| && i < |chains[c].members| && Puts(chains[c].members[i], placement.boundary, placement)
    && chains[c].Valid() && Separates(pairs, targetCount, chains[c].Start(), EndSoFar(chains, c + 1), placement.boundary)
  }

  lemma ChainIsPut(chains: seq<Chain>, before: seq<Option<nat>>, after: seq<Option<nat>>, pairs: seq<MappedPair>, targetCount: nat,
                   c: nat, placement: Placement)
    requires Increasing(pairs, targetCount) && AllValid(chains) && c < |chains| == |before| == |after|
    requires IsBefore(pairs, chains[c], before[c]) && IsAfter(pairs, EndSoFar(chains, c + 1), after[c])
    ensures (exists i: nat :: ChainPuts(chains, pairs, targetCount, c, i, placement)) <==>
      BeforeGap(before[c]) == AfterGap(after[c], targetCount) && placement in PlacedAt(chains[c].members, BeforeGap(before[c]))
  {
    var end := EndSoFar(chains, c + 1);
    EndSoFarNext(chains, c);
    hide IsBefore, IsAfter, Separates, EndSoFar, Increasing;
    if BeforeGap(before[c]) == AfterGap(after[c], targetCount) {
      GapSeparates(pairs, targetCount, chains[c], end, before[c], after[c]);
      MembersArePut(chains[c].members, BeforeGap(before[c]), placement);
      hide PlacedAt;
      if placement in PlacedAt(chains[c].members, BeforeGap(before[c])) {
        var i :| 0 <= i < |chains[c].members| && Puts(chains[c].members[i], BeforeGap(before[c]), placement);
        assert ChainPuts(chains, pairs, targetCount, c, i, placement);
      }
    }
    hide PlacedAt;
    if i: nat :| ChainPuts(chains, pairs, targetCount, c, i, placement) {
      SeparatorIsGap(pairs, targetCount, chains[c], end, before[c], after[c], placement.boundary);
      assert Puts(chains[c].members[i], BeforeGap(before[c]), placement);
    }
  }

  lemma NextChainPuts(chains: seq<Chain>, before: seq<Option<nat>>, after: seq<Option<nat>>, targetCount: nat, count: nat, placement: Placement)
    requires 0 < count <= |chains| == |before| == |after|
    ensures placement in PlacedUpTo(chains, before, after, targetCount, count) <==>
      || placement in PlacedUpTo(chains, before, after, targetCount, count - 1)
      || (BeforeGap(before[count - 1]) == AfterGap(after[count - 1], targetCount)
          && placement in PlacedAt(chains[count - 1].members, BeforeGap(before[count - 1])))
  {
    hide PlacedAt;
  }

  lemma {:induction false} FirstChainsPut(chains: seq<Chain>, before: seq<Option<nat>>, after: seq<Option<nat>>, pairs: seq<MappedPair>,
                                          targetCount: nat, count: nat, placement: Placement)
    requires Increasing(pairs, targetCount) && AllValid(chains) && count <= |chains| == |before| == |after|
    requires forall c :: 0 <= c < |chains| ==> IsBefore(pairs, chains[c], before[c]) && IsAfter(pairs, EndSoFar(chains, c + 1), after[c])
    ensures placement in PlacedUpTo(chains, before, after, targetCount, count) <==>
      exists c: nat, i: nat :: c < count && ChainPuts(chains, pairs, targetCount, c, i, placement)
  {
    hide ChainPuts, PlacedAt, IsBefore, IsAfter, Increasing, EndSoFar, BeforeGap, AfterGap;
    if count > 0 {
      NextChainPuts(chains, before, after, targetCount, count, placement);
      FirstChainsPut(chains, before, after, pairs, targetCount, count - 1, placement);
      ChainIsPut(chains, before, after, pairs, targetCount, count - 1, placement);
      hide PlacedUpTo, AllValid;
    }
  }

  /**
   Placed are just the saved lines of the alternatives in those chains around which no line is mapped up to
   the furthest end so far, each at the one boundary between the lines mapped before and behind.
   */
  lemma PlacementsAre(alternatives: seq<Alternative>, pairs: seq<MappedPair>, targetCount: nat, chains: seq<Chain>,
                      before: seq<Option<nat>>, after: seq<Option<nat>>, placement: Placement)
    requires Increasing(pairs, targetCount) && forall i :: 0 <= i < |Ordered(alternatives)| ==> Ordered(alternatives)[i].Valid()
    requires chains == Chains(Ordered(alternatives)) && |chains| == |before| == |after|
    requires forall c :: 0 <= c < |chains| ==> IsBefore(pairs, chains[c], before[c]) && IsAfter(pairs, EndSoFar(chains, c + 1), after[c])
    ensures placement in PlacedUpTo(chains, before, after, targetCount, |chains|) <==>
      exists c: nat, i: nat :: ChainPuts(chains, pairs, targetCount, c, i, placement)
  {
    hide ChainPuts, PlacedUpTo, IsBefore, IsAfter, Increasing, Ordered;
    FirstChainsPut(chains, before, after, pairs, targetCount, |chains|, placement);
    forall c: nat, i: nat | ChainPuts(chains, pairs, targetCount, c, i, placement) ensures c < |chains| {
      PutByChain(chains, pairs, targetCount, c, i, placement);
    }
  }

  lemma PutByChain(chains: seq<Chain>, pairs: seq<MappedPair>, targetCount: nat, c: nat, i: nat, placement: Placement)
    requires AllValid(chains) && ChainPuts(chains, pairs, targetCount, c, i, placement)
    ensures c < |chains|
  {
  }
}
