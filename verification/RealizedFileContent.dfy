/**
 Placing saved and live versions in the gaps of a mapping, and the ownership that realization
 starts from (batch/realized_file_content.py:40-134).
 */
module RealizedFileContent {
  import opened Wrappers
  import opened LineRanges
  import opened Ownership

  /** A saved version and the live envelope right behind it. */
  datatype Alternative = Alternative(saved: Stretch, live: Stretch, unit: nat)
  {
    predicate Valid() {
      saved.start < saved.end == live.start < live.end
    }
  }

  /** Alternatives that follow each other without a line between them. */
  datatype Chain = Chain(members: seq<Alternative>)
  {
    predicate Valid() {
      && members != []
      && (forall i :: 0 <= i < |members| ==> members[i].Valid())
      && (forall i :: 0 < i < |members| ==> members[i].saved.start == members[i - 1].live.end)
    }

    function Start(): nat
      requires Valid()
    {
      members[0].saved.start
    }

    function End(): nat
      requires Valid()
    {
      members[|members| - 1].live.end
    }
  }

  /** Mapped source and target lines, in source order. */
  datatype MappedPair = MappedPair(source: nat, target: nat)

  /** A strictly increasing mapping into a target of so many lines. */
  ghost predicate Increasing(pairs: seq<MappedPair>, targetCount: nat) {
    && (forall p :: 0 <= p < |pairs| ==> 1 <= pairs[p].source && 1 <= pairs[p].target <= targetCount)
    && (forall p, q :: 0 <= p < q < |pairs| ==> pairs[p].source < pairs[q].source && pairs[p].target < pairs[q].target)
  }

  // ------------------------------------------------------------------- chains

  ghost predicate AllValid(chains: seq<Chain>) {
    forall c :: 0 <= c < |chains| ==> chains[c].Valid()
  }

  /** An alternative goes on the last chain when it begins where that chain ends. */
  function Extend(chains: seq<Chain>, next: Alternative): (longer: seq<Chain>)
    requires AllValid(chains) && next.Valid()
    ensures AllValid(longer) && longer != [] && longer[|longer| - 1].End() == next.live.end
  {
    if chains != [] && next.saved.start == chains[|chains| - 1].End() then
      chains[|chains| - 1 := Chain(chains[|chains| - 1].members + [next])]
    else chains + [Chain([next])]
  }

  /** Sorted alternatives cut into chains. */
  function Chains(ordered: seq<Alternative>): (chains: seq<Chain>)
    requires forall i :: 0 <= i < |ordered| ==> ordered[i].Valid()
    ensures AllValid(chains) && (chains == [] <==> ordered == [])
    ensures ordered != [] ==> chains[|chains| - 1].End() == ordered[|ordered| - 1].live.end
  {
    if ordered == [] then [] else Extend(Chains(ordered[..|ordered| - 1]), ordered[|ordered| - 1])
  }

  function Flattened(chains: seq<Chain>): seq<Alternative> {
    if chains == [] then [] else Flattened(chains[..|chains| - 1]) + chains[|chains| - 1].members
  }

  /** No chain goes on into the next one. */
  ghost predicate Apart(chains: seq<Chain>)
    requires AllValid(chains)
  {
    forall c :: 0 < c < |chains| ==> chains[c].Start() != chains[c - 1].End()
  }

  lemma ExtendFlattened(chains: seq<Chain>, next: Alternative)
    requires AllValid(chains) && next.Valid()
    ensures Flattened(Extend(chains, next)) == Flattened(chains) + [next]
  {
    var longer, last := Extend(chains, next), |chains| - 1;
    if |longer| == |chains| {
      assert longer[..last] == chains[..last];
      assert Flattened(chains[..last]) + (chains[last].members + [next]) == (Flattened(chains[..last]) + chains[last].members) + [next];
    } else {
      assert longer[..|chains|] == chains;
    }
  }

  lemma ExtendApart(chains: seq<Chain>, next: Alternative)
    requires AllValid(chains) && next.Valid() && Apart(chains)
    ensures Apart(Extend(chains, next))
  {
    var longer := Extend(chains, next);
    forall c | 0 < c < |longer| ensures longer[c].Start() != longer[c - 1].End() {
      assert c < |chains| ==> longer[c].Start() == chains[c].Start();
    }
  }

  /** Chains hold exactly the sorted alternatives, and none goes on into the next. */
  lemma {:induction false} ChainsAreMaximal(ordered: seq<Alternative>)
    requires forall i :: 0 <= i < |ordered| ==> ordered[i].Valid()
    ensures Flattened(Chains(ordered)) == ordered && Apart(Chains(ordered))
  {
    hide Extend, Flattened, Apart;
    if ordered == [] {
      NoChains();
    } else {
      var init, next := ordered[..|ordered| - 1], ordered[|ordered| - 1];
      ChainsAreMaximal(init);
      ExtendFlattened(Chains(init), next);
      ExtendApart(Chains(init), next);
      assert init + [next] == ordered;
    }
  }

  lemma NoChains()
    ensures Flattened([]) == [] && Apart([])
  {
  }

  /** Extending changes at most the end of the last chain, or adds one chain. */
  lemma ExtendKeeps(chains: seq<Chain>, next: Alternative)
    requires AllValid(chains) && next.Valid()
    ensures var longer := Extend(chains, next);
      && AllValid(longer) && |chains| <= |longer| <= |chains| + 1
      && (forall c :: 0 <= c < |chains| ==> longer[c].Start() == chains[c].Start())
      && (forall c :: 0 <= c < |longer| - 1 ==> c < |chains| && longer[c].End() == chains[c].End())
      && longer != [] && (|longer| > |chains| ==> longer[|chains|].Start() == next.saved.start)
  {
  }

  /** Sorted alternatives begin in order, and so do their chains. */
  lemma {:induction false} ChainsInOrder(ordered: seq<Alternative>)
    requires forall i :: 0 <= i < |ordered| ==> ordered[i].Valid()
    requires forall i, j :: 0 <= i < j < |ordered| ==> ordered[i].saved.start <= ordered[j].saved.start
    ensures forall c, d :: 0 <= c < d < |Chains(ordered)| ==> Chains(ordered)[c].Start() <= Chains(ordered)[d].Start()
    ensures ordered != [] ==> forall c :: 0 <= c < |Chains(ordered)| ==> Chains(ordered)[c].Start() <= ordered[|ordered| - 1].saved.start
  {
    hide Extend, AllValid;
    if ordered != [] {
      var init, next := ordered[..|ordered| - 1], ordered[|ordered| - 1];
      ChainsInOrder(init);
      ChainsSplit(ordered);
      ExtendKeeps(Chains(init), next);
      StartsStayInOrder(Chains(init), Chains(ordered), next.saved.start);
    }
  }

  lemma ChainsSplit(ordered: seq<Alternative>)
    requires ordered != [] && forall i :: 0 <= i < |ordered| ==> ordered[i].Valid()
    ensures var init, next := ordered[..|ordered| - 1], ordered[|ordered| - 1];
      && Chains(ordered) == Extend(Chains(init), next) && next.Valid()
      && (init == [] <==> Chains(init) == [])
      && (init != [] ==> init[|init| - 1] == ordered[|ordered| - 2])
  {
  }

  lemma StartsStayInOrder(before: seq<Chain>, after: seq<Chain>, start: nat)
    requires AllValid(before) && AllValid(after) && |before| <= |after| <= |before| + 1
    requires forall c :: 0 <= c < |before| ==> after[c].Start() == before[c].Start() <= start
    requires |after| > |before| ==> after[|before|].Start() == start
    requires forall c, d :: 0 <= c < d < |before| ==> before[c].Start() <= before[d].Start()
    ensures forall c, d :: 0 <= c < d < |after| ==> after[c].Start() <= after[d].Start()
    ensures forall c :: 0 <= c < |after| ==> after[c].Start() <= start
  {
  }

  /** Disjoint alternatives make chains that end in order. */
  lemma {:induction false} DisjointChainsEndInOrder(ordered: seq<Alternative>)
    requires forall i :: 0 <= i < |ordered| ==> ordered[i].Valid()
    requires forall i, j :: 0 <= i < j < |ordered| ==> ordered[i].live.end <= ordered[j].saved.start
    ensures forall c, d :: 0 <= c < d < |Chains(ordered)| ==> Chains(ordered)[c].End() <= Chains(ordered)[d].End()
    ensures ordered != [] ==> forall c :: 0 <= c < |Chains(ordered)| ==> Chains(ordered)[c].End() <= ordered[|ordered| - 1].live.end
  {
    hide Extend, AllValid;
    if ordered != [] {
      var init, next := ordered[..|ordered| - 1], ordered[|ordered| - 1];
      DisjointChainsEndInOrder(init);
      ChainsSplit(ordered);
      ExtendKeeps(Chains(init), next);
      assert next.saved.start < next.live.end;
      EndsStayInOrder(Chains(init), Chains(ordered), next.live.end);
    }
  }

  lemma EndsStayInOrder(before: seq<Chain>, after: seq<Chain>, end: nat)
    requires AllValid(before) && AllValid(after) && 0 < |after| <= |before| + 1
    requires forall c :: 0 <= c < |after| - 1 ==> after[c].End() == before[c].End() <= end
    requires after[|after| - 1].End() == end
    requires forall c, d :: 0 <= c < d < |before| ==> before[c].End() <= before[d].End()
    ensures forall c, d :: 0 <= c < d < |after| ==> after[c].End() <= after[d].End()
    ensures forall c :: 0 <= c < |after| ==> after[c].End() <= end
  {
  }

  // ------------------------------------------------------------------- the gaps

  /** How many pairs map source lines up to an offset. */
  ghost predicate CountsUpTo(pairs: seq<MappedPair>, offset: nat, p: nat) {
    && p <= |pairs|
    && (forall q :: 0 <= q < p ==> pairs[q].source <= offset)
    && (forall q :: p <= q < |pairs| ==> offset < pairs[q].source)
  }

  /** The target of the last pair counted, if any. */
  function LastTarget(pairs: seq<MappedPair>, p: nat): Option<nat>
    requires p <= |pairs|
  {
    if p == 0 then None else Some(pairs[p - 1].target)
  }

  function NextTarget(pairs: seq<MappedPair>, p: nat): Option<nat> {
    if p < |pairs| then Some(pairs[p].target) else None
  }

  /** The furthest end of the first `count` chains. */
  function EndSoFar(chains: seq<Chain>, count: nat): nat
    requires count <= |chains| && AllValid(chains)
  {
    if count == 0 then 0
    else
      var before := EndSoFar(chains, count - 1);
      if chains[count - 1].End() > before then chains[count - 1].End() else before
  }

  lemma NoEndYet(chains: seq<Chain>)
    requires AllValid(chains)
    ensures EndSoFar(chains, 0) == 0
  {
  }

  lemma EndSoFarNext(chains: seq<Chain>, c: nat)
    requires c < |chains| && AllValid(chains)
    ensures chains[c].Valid()
    ensures EndSoFar(chains, c + 1) == if chains[c].End() > EndSoFar(chains, c) then chains[c].End() else EndSoFar(chains, c)
  {
  }

  lemma {:induction false} EndSoFarIsOwn(chains: seq<Chain>, count: nat)
    requires 0 < count <= |chains| && AllValid(chains)
    requires forall c, d :: 0 <= c < d < |chains| ==> chains[c].End() <= chains[d].End()
    ensures EndSoFar(chains, count) == chains[count - 1].End()
  {
    if count > 1 {
      EndSoFarIsOwn(chains, count - 1);
    }
  }

  /** `before` is the target of the last line mapped up to the chain's start. */
  ghost predicate IsBefore(pairs: seq<MappedPair>, chain: Chain, before: Option<nat>)
    requires chain.Valid()
  {
    exists p: nat :: CountsUpTo(pairs, chain.Start(), p) && before == LastTarget(pairs, p)
  }

  /** `after` is the target of the first line mapped after an offset. */
  ghost predicate IsAfter(pairs: seq<MappedPair>, offset: nat, after: Option<nat>) {
    exists p: nat :: CountsUpTo(pairs, offset, p) && after == NextTarget(pairs, p)
  }

  /** One sweep over the pairs finds the last target before every chain. */
  method SweepBefore(chains: seq<Chain>, pairs: seq<MappedPair>, targetCount: nat) returns (before: seq<Option<nat>>)
    requires Increasing(pairs, targetCount) && AllValid(chains)
    requires forall c, d :: 0 <= c < d < |chains| ==> chains[c].Start() <= chains[d].Start()
    ensures |before| == |chains|
    ensures forall c :: 0 <= c < |chains| ==> IsBefore(pairs, chains[c], before[c])
  {
    hide IsBefore;
    before := [];
    var last: Option<nat>, p := None, 0;
    var c := 0;
    while c < |chains|
      invariant 0 <= c == |before| <= |chains| && 0 <= p <= |pairs| && last == LastTarget(pairs, p)
      invariant forall q :: 0 <= q < p && c < |chains| ==> pairs[q].source <= chains[c].Start()
      invariant forall d :: 0 <= d < c ==> IsBefore(pairs, chains[d], before[d])
    {
      while p < |pairs| && pairs[p].source <= chains[c].Start()
        invariant 0 <= p <= |pairs| && last == LastTarget(pairs, p)
        invariant forall q :: 0 <= q < p ==> pairs[q].source <= chains[c].Start()
      {
        last := Some(pairs[p].target);
        p := p + 1;
      }
      BeforeFound(pairs, targetCount, chains[c], p);
      before := before + [last];
      c := c + 1;
    }
  }

  lemma BeforeFound(pairs: seq<MappedPair>, targetCount: nat, chain: Chain, p: nat)
    requires Increasing(pairs, targetCount) && chain.Valid() && p <= |pairs|
    requires (forall q :: 0 <= q < p ==> pairs[q].source <= chain.Start()) && (p < |pairs| ==> chain.Start() < pairs[p].source)
    ensures IsBefore(pairs, chain, LastTarget(pairs, p))
  {
    assert CountsUpTo(pairs, chain.Start(), p);
  }

  /** A second sweep finds the first target behind every chain and all chains before it. */
  method SweepAfter(chains: seq<Chain>, pairs: seq<MappedPair>, targetCount: nat) returns (after: seq<Option<nat>>)
    requires Increasing(pairs, targetCount) && AllValid(chains)
    ensures |after| == |chains|
    ensures forall c :: 0 <= c < |chains| ==> IsAfter(pairs, EndSoFar(chains, c + 1), after[c])
  {
    hide IsAfter, EndSoFar, Increasing, AllValid;
    after := [];
    var p, c := 0, 0;
    NoEndYet(chains);
    while c < |chains|
      invariant 0 <= c == |after| <= |chains| && 0 <= p <= |pairs|
      invariant forall q :: 0 <= q < p ==> pairs[q].source <= EndSoFar(chains, c)
      invariant p < |pairs| && c > 0 ==> EndSoFar(chains, c) < pairs[p].source
      invariant c == 0 ==> p == 0
      invariant forall d :: 0 <= d < c ==> IsAfter(pairs, EndSoFar(chains, d + 1), after[d])
    {
      EndSoFarNext(chains, c);
      while p < |pairs| && pairs[p].source <= chains[c].End()
        invariant 0 <= p <= |pairs|
        invariant forall q :: 0 <= q < p ==> pairs[q].source <= EndSoFar(chains, c + 1)
        invariant p < |pairs| && c > 0 ==> EndSoFar(chains, c) < pairs[p].source
      {
        AfterStep(pairs, targetCount, p);
        p := p + 1;
      }
      AfterFound(pairs, targetCount, EndSoFar(chains, c + 1), p);
      after := after + [NextTarget(pairs, p)];
      c := c + 1;
    }
  }

  lemma AfterStep(pairs: seq<MappedPair>, targetCount: nat, p: nat)
    requires Increasing(pairs, targetCount) && p < |pairs|
    ensures p + 1 < |pairs| ==> pairs[p].source < pairs[p + 1].source
  {
  }

  lemma AfterFound(pairs: seq<MappedPair>, targetCount: nat, end: nat, p: nat)
    requires Increasing(pairs, targetCount) && p <= |pairs|
    requires (forall q :: 0 <= q < p ==> pairs[q].source <= end) && (p < |pairs| ==> end < pairs[p].source)
    ensures IsAfter(pairs, end, NextTarget(pairs, p))
  {
    assert CountsUpTo(pairs, end, p);
  }

  // ------------------------------------------------------------- the placements

  datatype Placement = Placement(lines: Span, boundary: nat)

  function BeforeGap(before: Option<nat>): nat {
    if before.None? then 0 else before.value
  }

  function AfterGap(after: Option<nat>, targetCount: nat): int {
    if after.None? then targetCount else after.value - 1
  }

  function PlacedAt(members: seq<Alternative>, boundary: nat): seq<Placement> {
    if members == [] then []
    else
      var last := members[|members| - 1];
      PlacedAt(members[..|members| - 1], boundary) + [Placement(Span(last.saved.start + 1, last.saved.end), boundary)]
  }

  /** What the first chains contribute: all their members at the gap, or nothing. */
  function PlacedUpTo(chains: seq<Chain>, before: seq<Option<nat>>, after: seq<Option<nat>>, targetCount: nat, count: nat): seq<Placement>
    requires count <= |chains| == |before| == |after|
  {
    if count == 0 then []
    else
      var gap := BeforeGap(before[count - 1]);
      PlacedUpTo(chains, before, after, targetCount, count - 1)
        + (if gap == AfterGap(after[count - 1], targetCount) then PlacedAt(chains[count - 1].members, gap) else [])
  }

  /** Put an alternative in front of those that do not begin before it. */
  function PutIn(next: Alternative, ordered: seq<Alternative>): seq<Alternative> {
    if ordered == [] || next.saved.start <= ordered[0].saved.start then [next] + ordered
    else [ordered[0]] + PutIn(next, ordered[1..])
  }

  /** The alternatives in the order of their saved versions; equal starts keep their order. */
  function Ordered(alternatives: seq<Alternative>): seq<Alternative> {
    if alternatives == [] then [] else PutIn(alternatives[0], Ordered(alternatives[1..]))
  }

  /** The alternatives whose saved version begins at one place, in their order. */
  function StartingAt(alternatives: seq<Alternative>, start: nat): seq<Alternative> {
    if alternatives == [] then []
    else IfStartingAt(alternatives[0], start) + StartingAt(alternatives[1..], start)
  }

  ghost predicate StartsInOrder(ordered: seq<Alternative>) {
    forall i, j :: 0 <= i < j < |ordered| ==> ordered[i].saved.start <= ordered[j].saved.start
  }

  lemma {:induction false} PutInOrder(next: Alternative, ordered: seq<Alternative>)
    requires StartsInOrder(ordered)
    ensures StartsInOrder(PutIn(next, ordered))
    ensures PutIn(next, ordered) != [] && PutIn(next, ordered)[0].saved.start
         == if ordered == [] || next.saved.start <= ordered[0].saved.start then next.saved.start else ordered[0].saved.start
  {
    if ordered != [] && next.saved.start > ordered[0].saved.start {
      PutInOrder(next, ordered[1..]);
      var tail := PutIn(next, ordered[1..]);
      assert ordered[1..] != [] ==> ordered[0].saved.start <= ordered[1..][0].saved.start;
      assert ordered[0].saved.start <= tail[0].saved.start;
      forall i | 0 <= i < |tail| ensures ordered[0].saved.start <= tail[i].saved.start {
        assert i == 0 || tail[0].saved.start <= tail[i].saved.start;
      }
    }
  }

  lemma {:induction false} PutInPermutes(next: Alternative, ordered: seq<Alternative>)
    ensures multiset(PutIn(next, ordered)) == multiset(ordered) + multiset{next}
  {
    if ordered != [] && next.saved.start > ordered[0].saved.start {
      PutInPermutes(next, ordered[1..]);
      assert ordered == [ordered[0]] + ordered[1..];
    }
  }

  function IfStartingAt(alternative: Alternative, start: nat): seq<Alternative> {
    if alternative.saved.start == start then [alternative] else []
  }

  lemma StartingAtFirst(first: Alternative, rest: seq<Alternative>, start: nat)
    ensures StartingAt([first] + rest, start) == IfStartingAt(first, start) + StartingAt(rest, start)
  {
    assert ([first] + rest)[1..] == rest;
  }

  lemma {:induction false} PutInIsStable(next: Alternative, ordered: seq<Alternative>, start: nat)
    ensures StartingAt(PutIn(next, ordered), start) == IfStartingAt(next, start) + StartingAt(ordered, start)
  {
    hide StartingAt;
    if ordered == [] || next.saved.start <= ordered[0].saved.start {
      StartingAtFirst(next, ordered, start);
    } else {
      var first, rest := ordered[0], ordered[1..];
      PutInIsStable(next, rest, start);
      StartingAtFirst(first, PutIn(next, rest), start);
      StartingAtFirst(first, rest, start);
      assert ordered == [first] + rest;
      assert IfStartingAt(first, start) == [] || IfStartingAt(next, start) == [];
    }
  }

  /** Sorting by the saved start is stable, and neither drops nor invents an alternative. */
  lemma {:induction false} OrderedIsStable(alternatives: seq<Alternative>, start: nat)
    ensures StartsInOrder(Ordered(alternatives)) && multiset(Ordered(alternatives)) == multiset(alternatives)
    ensures StartingAt(Ordered(alternatives), start) == StartingAt(alternatives, start)
  {
    hide StartingAt, StartsInOrder, PutIn;
    if alternatives == [] {
      NothingInOrder();
    } else {
      var first, rest := alternatives[0], alternatives[1..];
      OrderedIsStable(rest, start);
      PutInOrder(first, Ordered(rest));
      PutInPermutes(first, Ordered(rest));
      PutInIsStable(first, Ordered(rest), start);
      StartingAtFirst(first, rest, start);
      assert alternatives == [first] + rest;
    }
  }

  lemma NothingInOrder()
    ensures StartsInOrder([])
  {
  }

  lemma OrderedAlternatives(alternatives: seq<Alternative>)
    requires forall i :: 0 <= i < |alternatives| ==> alternatives[i].Valid()
    ensures forall i :: 0 <= i < |Ordered(alternatives)| ==> Ordered(alternatives)[i].Valid()
    ensures forall i, j :: 0 <= i < j < |Ordered(alternatives)| ==>
      Ordered(alternatives)[i].saved.start <= Ordered(alternatives)[j].saved.start
  {
    OrderedIsStable(alternatives, 0);
    hide Ordered;
    var ordered := Ordered(alternatives);
    forall i | 0 <= i < |ordered| ensures ordered[i].Valid() {
      assert ordered[i] in multiset(ordered);
      assert ordered[i] in alternatives;
    }
  }

  /** Place adjacent saved and live versions in their shared gap. */
  method ReplacementAlternativePlacements(alternatives: seq<Alternative>, pairs: seq<MappedPair>, targetCount: nat)
    returns (placements: seq<Placement>, ghost chains: seq<Chain>, ghost before: seq<Option<nat>>, ghost after: seq<Option<nat>>)
    requires Increasing(pairs, targetCount) && forall i :: 0 <= i < |alternatives| ==> alternatives[i].Valid()
    ensures forall i :: 0 <= i < |Ordered(alternatives)| ==> Ordered(alternatives)[i].Valid()
    ensures chains == Chains(Ordered(alternatives)) && |chains| == |before| == |after|
    ensures forall c :: 0 <= c < |chains| ==> IsBefore(pairs, chains[c], before[c]) && IsAfter(pairs, EndSoFar(chains, c + 1), after[c])
    ensures placements == PlacedUpTo(chains, before, after, targetCount, |chains|)
  {
    hide IsBefore, IsAfter, Ordered, EndSoFar, Increasing;
    OrderedAlternatives(alternatives);
    var ordered := Ordered(alternatives);
    var grouped := CollectChains(ordered);
    ChainsInOrder(ordered);
    hide Chains;
    chains := grouped;
    var befores := SweepBefore(grouped, pairs, targetCount);
    var afters := SweepAfter(grouped, pairs, targetCount);
    before, after := befores, afters;
    placements := PlaceChains(grouped, befores, afters, targetCount);
  }

  method PlaceChains(chains: seq<Chain>, before: seq<Option<nat>>, after: seq<Option<nat>>, targetCount: nat)
    returns (placements: seq<Placement>)
    requires |chains| == |before| == |after|
    ensures placements == PlacedUpTo(chains, before, after, targetCount, |chains|)
  {
    placements := [];
    var c := 0;
    while c < |chains|
      invariant 0 <= c <= |chains| && placements == PlacedUpTo(chains, before, after, targetCount, c)
    {
      var beforeGap, afterGap := BeforeGap(before[c]), AfterGap(after[c], targetCount);
      if beforeGap == afterGap {
        placements := placements + PlacedAt(chains[c].members, beforeGap);
      } else {
        assert placements + [] == placements;
      }
      c := c + 1;
    }
  }

  lemma ChainsNext(ordered: seq<Alternative>, i: nat)
    requires i < |ordered| && forall j :: 0 <= j < |ordered| ==> ordered[j].Valid()
    ensures Chains(ordered[..i + 1]) == Extend(Chains(ordered[..i]), ordered[i])
  {
    assert ordered[..i + 1][..i] == ordered[..i];
  }

  /** Put each alternative into the last chain when it goes on there. */
  method CollectChains(ordered: seq<Alternative>) returns (chains: seq<Chain>)
    requires forall i :: 0 <= i < |ordered| ==> ordered[i].Valid()
    ensures chains == Chains(ordered)
  {
    hide Chains, AllValid;
    chains := [];
    ChainsStart(ordered);
    var i := 0;
    while i < |ordered|
      invariant 0 <= i <= |ordered| && chains == Chains(ordered[..i])
    {
      ChainsNext(ordered, i);
      chains := AppendToChains(chains, ordered[i]);
      i := i + 1;
    }
    assert ordered[..i] == ordered;
  }

  method AppendToChains(chains: seq<Chain>, next: Alternative) returns (longer: seq<Chain>)
    requires AllValid(chains) && next.Valid()
    ensures longer == Extend(chains, next)
  {
    if chains != [] && next.saved.start == chains[|chains| - 1].End() {
      longer := chains[|chains| - 1 := Chain(chains[|chains| - 1].members + [next])];
    } else {
      longer := chains + [Chain([next])];
    }
  }

  lemma ChainsStart(ordered: seq<Alternative>)
    ensures Chains(ordered[..0]) == []
  {
  }

  // --------------------------------------------------------- what a placement means

  /** Some line behind an offset, up to another one, is mapped. */
  ghost predicate MappedWithin(pairs: seq<MappedPair>, from: nat, upto: nat) {
    exists p :: 0 <= p < |pairs| && from < pairs[p].source <= upto
  }

  lemma {:induction false} ChainRuns(chain: Chain, count: nat)
    requires chain.Valid() && 0 < count <= |chain.members|
    ensures chain.Start() < chain.members[count - 1].live.end
  {
    if count > 1 {
      ChainRuns(chain, count - 1);
    }
  }

  lemma {:induction false} EndSoFarGrows(chains: seq<Chain>, count: nat, c: nat)
    requires c < count <= |chains| && AllValid(chains)
    ensures chains[c].End() <= EndSoFar(chains, count)
    decreases count
  {
    if c + 1 < count {
      EndSoFarGrows(chains, count - 1, c);
    }
  }

  /** Between two targets lie at least as many target lines as pairs. */
  lemma TargetsApart(pairs: seq<MappedPair>, targetCount: nat, a: nat, b: nat)
    requires Increasing(pairs, targetCount) && a < b <= |pairs|
    ensures BeforeGap(LastTarget(pairs, a)) < AfterGap(NextTarget(pairs, b), targetCount)
  {
    assert 1 <= pairs[a].target <= targetCount;
    assert a == 0 || pairs[a - 1].target < pairs[a].target;
    assert b == |pairs| || pairs[a].target < pairs[b].target;
  }

  /**
   A chain is placed only when no line from its start to the end that the sweep has reached is mapped;
   then every line mapped before it lies before the gap and every line mapped after it behind the gap.
   */
  lemma PlacedMeansUnmapped(pairs: seq<MappedPair>, targetCount: nat, chain: Chain, end: nat, before: Option<nat>, after: Option<nat>)
    requires Increasing(pairs, targetCount) && chain.Valid() && chain.End() <= end
    requires IsBefore(pairs, chain, before) && IsAfter(pairs, end, after)
    requires BeforeGap(before) == AfterGap(after, targetCount)
    ensures !MappedWithin(pairs, chain.Start(), end)
    ensures forall p :: 0 <= p < |pairs| ==>
      if pairs[p].source <= chain.Start() then pairs[p].target <= BeforeGap(before)
      else pairs[p].source > end && pairs[p].target > BeforeGap(before)
  {
    ChainRuns(chain, |chain.members|);
    var a: nat :| CountsUpTo(pairs, chain.Start(), a) && before == LastTarget(pairs, a);
    var b: nat :| CountsUpTo(pairs, end, b) && after == NextTarget(pairs, b);
    if a < b {
      TargetsApart(pairs, targetCount, a, b);
    }
    forall p | 0 <= p < |pairs| ensures
      if pairs[p].source <= chain.Start() then pairs[p].target <= BeforeGap(before)
      else pairs[p].source > end && pairs[p].target > BeforeGap(before)
    {
      if pairs[p].source <= chain.Start() {
        assert p <= a - 1;
        assert p == a - 1 || pairs[p].target < pairs[a - 1].target;
      } else {
        assert a <= p;
        assert a == 0 || pairs[a - 1].target < pairs[p].target;
      }
    }
  }

  /** A target line does not stand between the targets around a chain. */
  predicate Aside(before: Option<nat>, after: Option<nat>, t: int) {
    t <= BeforeGap(before) || (after.Some? && after.value <= t)
  }

  /**
   A chain is placed exactly when no line from its start to the end that the sweep has reached is
   mapped, and the targets around them are adjacent: every target line lies before or behind them.
   */
  lemma PlacedExactly(pairs: seq<MappedPair>, targetCount: nat, chain: Chain, end: nat, before: Option<nat>, after: Option<nat>)
    requires Increasing(pairs, targetCount) && chain.Valid() && chain.End() <= end
    requires IsBefore(pairs, chain, before) && IsAfter(pairs, end, after)
    ensures BeforeGap(before) == AfterGap(after, targetCount) <==>
      && !MappedWithin(pairs, chain.Start(), end)
      && forall t :: 1 <= t <= targetCount ==> Aside(before, after, t)
  {
    ChainRuns(chain, |chain.members|);
    if BeforeGap(before) == AfterGap(after, targetCount) {
      PlacedMeansUnmapped(pairs, targetCount, chain, end, before, after);
    } else {
      GapNeverNegative(pairs, targetCount, chain, end, before, after);
      assert BeforeGap(before) < AfterGap(after, targetCount) ==> !Aside(before, after, BeforeGap(before) + 1);
    }
  }

  lemma GapNeverNegative(pairs: seq<MappedPair>, targetCount: nat, chain: Chain, end: nat, before: Option<nat>, after: Option<nat>)
    requires Increasing(pairs, targetCount) && chain.Valid() && chain.End() <= end
    requires IsBefore(pairs, chain, before) && IsAfter(pairs, end, after)
    ensures BeforeGap(before) <= AfterGap(after, targetCount) <= targetCount
  {
    ChainRuns(chain, |chain.members|);
    var a: nat :| CountsUpTo(pairs, chain.Start(), a) && before == LastTarget(pairs, a);
    var b: nat :| CountsUpTo(pairs, end, b) && after == NextTarget(pairs, b);
    assert a > 0 && b < |pairs| ==> pairs[a - 1].target < pairs[b].target;
  }

  /**
   The shared sweeps place a chain exactly when no line from its start to the furthest end so far
   is mapped and the targets around them are adjacent, whether alternatives nest or not.
   */
  lemma ChainsPlacedExactly(ordered: seq<Alternative>, pairs: seq<MappedPair>, targetCount: nat, c: nat,
                            before: Option<nat>, after: Option<nat>)
    requires Increasing(pairs, targetCount) && forall i :: 0 <= i < |ordered| ==> ordered[i].Valid()
    requires c < |Chains(ordered)|
    requires IsBefore(pairs, Chains(ordered)[c], before) && IsAfter(pairs, EndSoFar(Chains(ordered), c + 1), after)
    ensures BeforeGap(before) == AfterGap(after, targetCount) <==>
      && !MappedWithin(pairs, Chains(ordered)[c].Start(), EndSoFar(Chains(ordered), c + 1))
      && forall t :: 1 <= t <= targetCount ==> Aside(before, after, t)
  {
    hide IsBefore, IsAfter, MappedWithin, Increasing, Chains;
    EndSoFarGrows(Chains(ordered), c + 1, c);
    PlacedExactly(pairs, targetCount, Chains(ordered)[c], EndSoFar(Chains(ordered), c + 1), before, after);
  }

  /** Disjoint alternatives: the furthest end so far is the chain's own, so only its own lines matter. */
  lemma DisjointChainsPlacedExactly(ordered: seq<Alternative>, pairs: seq<MappedPair>, targetCount: nat, c: nat,
                                    before: Option<nat>, after: Option<nat>)
    requires Increasing(pairs, targetCount) && forall i :: 0 <= i < |ordered| ==> ordered[i].Valid()
    requires forall i, j :: 0 <= i < j < |ordered| ==> ordered[i].live.end <= ordered[j].saved.start
    requires c < |Chains(ordered)|
    requires IsBefore(pairs, Chains(ordered)[c], before) && IsAfter(pairs, EndSoFar(Chains(ordered), c + 1), after)
    ensures IsAfter(pairs, Chains(ordered)[c].End(), after)
    ensures BeforeGap(before) == AfterGap(after, targetCount) <==>
      && !MappedWithin(pairs, Chains(ordered)[c].Start(), Chains(ordered)[c].End())
      && forall t :: 1 <= t <= targetCount ==> Aside(before, after, t)
  {
    hide IsBefore, IsAfter, MappedWithin, Increasing, Chains;
    DisjointChainsEndInOrder(ordered);
    EndSoFarIsOwn(Chains(ordered), c + 1);
    ChainsPlacedExactly(ordered, pairs, targetCount, c, before, after);
  }

  /**
   The target found behind the furthest end so far is the one behind a chain's own end exactly when
   no line between the two ends is mapped.
   */
  lemma AfterIsOwn(pairs: seq<MappedPair>, targetCount: nat, end: nat, furthest: nat, after: Option<nat>)
    requires Increasing(pairs, targetCount) && end <= furthest && IsAfter(pairs, furthest, after)
    ensures IsAfter(pairs, end, after) <==> !MappedWithin(pairs, end, furthest)
  {
    var b: nat :| CountsUpTo(pairs, furthest, b) && after == NextTarget(pairs, b);
    if MappedWithin(pairs, end, furthest) {
      var q :| 0 <= q < |pairs| && end < pairs[q].source <= furthest;
      forall a: nat | CountsUpTo(pairs, end, a) ensures after != NextTarget(pairs, a) {
        assert a <= q < b;
        assert b == |pairs| || pairs[a].target < pairs[b].target;
      }
    } else {
      assert CountsUpTo(pairs, end, b);
    }
  }

  /** Behind a nested chain the second sweep can report a target too far. */
  lemma NestedSweepMisreports()
    ensures exists ordered: seq<Alternative>, pairs: seq<MappedPair>, after: Option<nat> ::
      && Increasing(pairs, 2) && (forall i :: 0 <= i < |ordered| ==> ordered[i].Valid()) && |Chains(ordered)| == 2
      && IsAfter(pairs, EndSoFar(Chains(ordered), 2), after) && !IsAfter(pairs, Chains(ordered)[1].End(), after)
  {
    var outer, inner := Alternative(Stretch(0, 1), Stretch(1, 9), 0), Alternative(Stretch(2, 3), Stretch(3, 4), 1);
    TwoChains(outer, inner);
    hide Chains, IsAfter, EndSoFar, Increasing;
    TwoPairs([MappedPair(6, 1), MappedPair(11, 2)]);
    assert forall i :: 0 <= i < 2 ==> [outer, inner][i].Valid();
  }

  lemma TwoPairs(pairs: seq<MappedPair>)
    requires pairs == [MappedPair(6, 1), MappedPair(11, 2)]
    ensures Increasing(pairs, 2) && IsAfter(pairs, 9, Some(2)) && !IsAfter(pairs, 4, Some(2))
  {
    assert CountsUpTo(pairs, 9, 1) && NextTarget(pairs, 1) == Some(2);
    assert pairs[0].source == 6;
    assert MappedWithin(pairs, 4, 9);
    AfterIsOwn(pairs, 2, 4, 9, Some(2));
  }

  lemma TwoChains(outer: Alternative, inner: Alternative)
    requires outer.Valid() && inner.Valid() && inner.saved.start != outer.live.end && inner.live.end <= outer.live.end
    ensures Chains([outer, inner]) == [Chain([outer]), Chain([inner])]
    ensures Chains([outer, inner])[1].End() == inner.live.end && EndSoFar(Chains([outer, inner]), 2) == outer.live.end
  {
    assert [outer, inner][..1] == [outer] && [outer][..0] == [];
    assert Chains([outer]) == [Chain([outer])];
    var chains := Chains([outer, inner]);
    assert EndSoFar(chains, 1) == outer.live.end;
  }

  // ----------------------------------------------- ownership without live versions

  /** The claims among the first `count` that are not stored live versions. */
  function KeptClaims(deletions: seq<AbsenceClaim>, count: nat): seq<AbsenceClaim>
    requires count <= |deletions|
  {
    if count == 0 then []
    else KeptClaims(deletions, count - 1) + (if deletions[count - 1].sourceAlternative then [] else [deletions[count - 1]])
  }

  /** A deletion index that survives. */
  predicate Survives(deletions: seq<AbsenceClaim>, index: int) {
    0 <= index < |deletions| && !deletions[index].sourceAlternative
  }

  /** The new indices of the surviving ones among the first `count` indices of a unit. */
  function Remapped(deletions: seq<AbsenceClaim>, indices: seq<int>, count: nat): seq<int>
    requires count <= |indices|
  {
    if count == 0 then []
    else
      var index := indices[count - 1];
      Remapped(deletions, indices, count - 1)
        + (if Survives(deletions, index) then [|KeptClaims(deletions, index)|] else [])
  }

  function RemappedUnits(ownership: BatchOwnership, count: nat): seq<ReplacementUnit>
    requires count <= |ownership.units|
  {
    if count == 0 then []
    else
      var unit := ownership.units[count - 1];
      var indices := Remapped(ownership.deletions, unit.deletionIndices, |unit.deletionIndices|);
      RemappedUnits(ownership, count - 1) + (if indices == [] then [] else [unit.(deletionIndices := indices)])
  }

  predicate HasLiveVersions(ownership: BatchOwnership) {
    exists d :: 0 <= d < |ownership.deletions| && ownership.deletions[d].sourceAlternative
  }

  /** Ownership without the stored live versions; without any, ownership as it is. */
  function ForRealization(ownership: BatchOwnership): BatchOwnership {
    if !HasLiveVersions(ownership) then ownership
    else BatchOwnership(ownership.presence, KeptClaims(ownership.deletions, |ownership.deletions|), RemappedUnits(ownership, |ownership.units|))
  }

  lemma {:induction false} KeptClaimsPrefix(deletions: seq<AbsenceClaim>, from: nat, count: nat)
    requires from <= count <= |deletions|
    ensures var before, all := KeptClaims(deletions, from), KeptClaims(deletions, count);
      |before| <= |all| && all[..|before|] == before
    decreases count
  {
    if from < count {
      KeptClaimsPrefix(deletions, from, count - 1);
      var before, short := KeptClaims(deletions, from), KeptClaims(deletions, count - 1);
      assert KeptClaims(deletions, count)[..|before|] == short[..|before|];
    } else {
      var all := KeptClaims(deletions, count);
      assert all[..|all|] == all;
    }
  }

  /** A surviving claim is found under its new index. */
  lemma KeptClaimAt(deletions: seq<AbsenceClaim>, d: nat)
    requires Survives(deletions, d)
    ensures |KeptClaims(deletions, d)| < |KeptClaims(deletions, |deletions|)|
    ensures KeptClaims(deletions, |deletions|)[|KeptClaims(deletions, d)|] == deletions[d]
  {
    KeptClaimsPrefix(deletions, d + 1, |deletions|);
    var next, all := KeptClaims(deletions, d + 1), KeptClaims(deletions, |deletions|);
    assert all[..|next|][|next| - 1] == all[|next| - 1];
  }

  lemma {:induction false} KeptClaimsSurvive(deletions: seq<AbsenceClaim>, count: nat)
    requires count <= |deletions|
    ensures forall k :: 0 <= k < |KeptClaims(deletions, count)| ==> !KeptClaims(deletions, count)[k].sourceAlternative
  {
    if count > 0 {
      KeptClaimsSurvive(deletions, count - 1);
    }
  }

  /** The new index names the claim that the old one named. */
  ghost predicate SameClaim(deletions: seq<AbsenceClaim>, index: int, newIndex: int) {
    && Survives(deletions, index)
    && 0 <= newIndex < |KeptClaims(deletions, |deletions|)|
    && KeptClaims(deletions, |deletions|)[newIndex] == deletions[index]
  }

  /** The new indices name, in order, the claims that the surviving ones among the first old indices named. */
  ghost predicate NamesSameClaims(deletions: seq<AbsenceClaim>, indices: seq<int>, count: nat, from: seq<nat>, remapped: seq<int>)
    requires count <= |indices|
  {
    && |from| == |remapped|
    && (forall k :: 0 <= k < |from| ==> from[k] < count && SameClaim(deletions, indices[from[k]], remapped[k]))
    && (forall j, k :: 0 <= j < k < |from| ==> from[j] < from[k])
    && (forall i :: 0 <= i < count && Survives(deletions, indices[i]) ==> i in from)
  }

  /** New indices name the claims that the surviving old indices named, in the same order. */
  lemma {:induction false} RemappedNamesSameClaims(deletions: seq<AbsenceClaim>, indices: seq<int>, count: nat) returns (from: seq<nat>)
    requires count <= |indices|
    ensures NamesSameClaims(deletions, indices, count, from, Remapped(deletions, indices, count))
  {
    hide KeptClaims, NamesSameClaims;
    if count == 0 {
      from := [];
      NamesNothing(deletions, indices);
    } else {
      from := RemappedNamesSameClaims(deletions, indices, count - 1);
      var before := Remapped(deletions, indices, count - 1);
      if Survives(deletions, indices[count - 1]) {
        NamesOneMore(deletions, indices, count - 1, from, before);
        from := from + [count - 1];
      } else {
        NamesNoMore(deletions, indices, count - 1, from, before);
        assert before + [] == before;
      }
    }
  }

  lemma NamesNothing(deletions: seq<AbsenceClaim>, indices: seq<int>)
    ensures NamesSameClaims(deletions, indices, 0, [], [])
  {
  }

  lemma NamesOneMore(deletions: seq<AbsenceClaim>, indices: seq<int>, count: nat, from: seq<nat>, remapped: seq<int>)
    requires count < |indices| && NamesSameClaims(deletions, indices, count, from, remapped) && Survives(deletions, indices[count])
    ensures NamesSameClaims(deletions, indices, count + 1, from + [count], remapped + [|KeptClaims(deletions, indices[count])|])
  {
    hide KeptClaims, SameClaim;
    SurvivorKeepsItsName(deletions, indices[count]);
  }

  lemma NamesNoMore(deletions: seq<AbsenceClaim>, indices: seq<int>, count: nat, from: seq<nat>, remapped: seq<int>)
    requires count < |indices| && NamesSameClaims(deletions, indices, count, from, remapped) && !Survives(deletions, indices[count])
    ensures NamesSameClaims(deletions, indices, count + 1, from, remapped)
  {
    hide KeptClaims, SameClaim, Survives;
  }

  lemma SurvivorKeepsItsName(deletions: seq<AbsenceClaim>, d: nat)
    requires Survives(deletions, d)
    ensures SameClaim(deletions, d, |KeptClaims(deletions, d)|)
  {
    KeptClaimAt(deletions, d);
  }

  /** Different surviving claims keep different indices. */
  lemma RemappingIsInjective(deletions: seq<AbsenceClaim>, d: nat, e: nat)
    requires d < e && Survives(deletions, d) && Survives(deletions, e)
    ensures |KeptClaims(deletions, d)| < |KeptClaims(deletions, e)|
  {
    KeptClaimsPrefix(deletions, d + 1, e);
  }

  /** Some deletion that the unit names survives. */
  ghost predicate NamesSurvivor(ownership: BatchOwnership, u: nat)
    requires u < |ownership.units|
  {
    exists p :: 0 <= p < |ownership.units[u].deletionIndices| && Survives(ownership.deletions, ownership.units[u].deletionIndices[p])
  }

  /** The unit is another one whose deletions go by their new indices. */
  ghost predicate IsRemapped(ownership: BatchOwnership, u: nat, unit: ReplacementUnit)
    requires u < |ownership.units|
  {
    && unit.presence == ownership.units[u].presence && unit.origin == ownership.units[u].origin
    && exists from :: NamesSameClaims(ownership.deletions, ownership.units[u].deletionIndices, |ownership.units[u].deletionIndices|,
         from, unit.deletionIndices)
  }

  /** The units are those of the first `count` that still name a deletion, in order. */
  ghost predicate KeepsUnits(ownership: BatchOwnership, count: nat, from: seq<nat>, units: seq<ReplacementUnit>)
    requires count <= |ownership.units|
  {
    && |from| == |units|
    && (forall k :: 0 <= k < |from| ==> from[k] < count && NamesSurvivor(ownership, from[k]) && IsRemapped(ownership, from[k], units[k]))
    && (forall j, k :: 0 <= j < k < |from| ==> from[j] < from[k])
    && forall u :: 0 <= u < count && NamesSurvivor(ownership, u) ==> u in from
  }

  lemma {:induction false} RemappedUnitsAre(ownership: BatchOwnership, count: nat) returns (from: seq<nat>)
    requires count <= |ownership.units|
    ensures KeepsUnits(ownership, count, from, RemappedUnits(ownership, count))
  {
    hide *;
    if count == 0 {
      from := [];
      NothingRemapped(ownership);
    } else {
      from := RemappedUnitsAre(ownership, count - 1);
      var indices := UnitIsRemapped(ownership, count - 1);
      RemappedNext(ownership, count);
      KeepsNextUnit(ownership, count - 1, from, RemappedUnits(ownership, count - 1), ownership.units[count - 1].(deletionIndices := indices));
      if indices != [] {
        from := from + [count - 1];
      }
    }
  }

  lemma NothingRemapped(ownership: BatchOwnership)
    ensures KeepsUnits(ownership, 0, [], RemappedUnits(ownership, 0))
  {
  }

  lemma RemappedNext(ownership: BatchOwnership, count: nat)
    requires 0 < count <= |ownership.units|
    ensures var unit, units := ownership.units[count - 1], RemappedUnits(ownership, count - 1);
      var indices := Remapped(ownership.deletions, unit.deletionIndices, |unit.deletionIndices|);
      RemappedUnits(ownership, count) == if indices == [] then units else units + [unit.(deletionIndices := indices)]
  {
    hide Remapped;
  }

  lemma UnitIsRemapped(ownership: BatchOwnership, u: nat) returns (indices: seq<int>)
    requires u < |ownership.units|
    ensures indices == Remapped(ownership.deletions, ownership.units[u].deletionIndices, |ownership.units[u].deletionIndices|)
    ensures IsRemapped(ownership, u, ownership.units[u].(deletionIndices := indices)) && (indices != [] <==> NamesSurvivor(ownership, u))
  {
    var unit := ownership.units[u];
    var from := RemappedNamesSameClaims(ownership.deletions, unit.deletionIndices, |unit.deletionIndices|);
    indices := Remapped(ownership.deletions, unit.deletionIndices, |unit.deletionIndices|);
    SomeAreNamed(ownership, u, from, indices);
    hide NamesSameClaims, NamesSurvivor;
    assert IsRemapped(ownership, u, unit.(deletionIndices := indices));
  }

  lemma KeepsNextUnit(ownership: BatchOwnership, count: nat, from: seq<nat>, units: seq<ReplacementUnit>, unit: ReplacementUnit)
    requires count < |ownership.units| && KeepsUnits(ownership, count, from, units) && IsRemapped(ownership, count, unit)
    ensures NamesSurvivor(ownership, count) ==> KeepsUnits(ownership, count + 1, from + [count], units + [unit])
    ensures !NamesSurvivor(ownership, count) ==> KeepsUnits(ownership, count + 1, from, units)
  {
    hide NamesSurvivor, IsRemapped;
  }

  lemma SomeAreNamed(ownership: BatchOwnership, u: nat, from: seq<nat>, indices: seq<int>)
    requires u < |ownership.units|
    requires NamesSameClaims(ownership.deletions, ownership.units[u].deletionIndices, |ownership.units[u].deletionIndices|, from, indices)
    ensures indices != [] <==> NamesSurvivor(ownership, u)
  {
    hide KeptClaims, Survives;
    if indices != [] {
      assert SameClaim(ownership.deletions, ownership.units[u].deletionIndices[from[0]], indices[0]);
    }
  }

  /**
   Realization starts from the ownership as it is when no live version is stored; otherwise from the claims that
   are none, and from the units that still name one of them.
   */
  lemma RealizationStartsFrom(ownership: BatchOwnership) returns (from: seq<nat>)
    ensures (forall d :: 0 <= d < |ownership.deletions| ==> !ownership.deletions[d].sourceAlternative) ==>
      ForRealization(ownership) == ownership
    ensures (exists d :: 0 <= d < |ownership.deletions| && ownership.deletions[d].sourceAlternative) ==>
      && ForRealization(ownership).presence == ownership.presence
      && ForRealization(ownership).deletions == KeptClaims(ownership.deletions, |ownership.deletions|)
      && KeepsUnits(ownership, |ownership.units|, from, ForRealization(ownership).units)
  {
    hide KeepsUnits, RemappedUnits, KeptClaims;
    from := RemappedUnitsAre(ownership, |ownership.units|);
  }

  /** Build the index map claim by claim, then rewrite every unit through it. */
  method OwnershipForRealization(ownership: BatchOwnership) returns (result: BatchOwnership)
    ensures result == ForRealization(ownership)
  {
    if !HasLiveVersions(ownership) {
      return ownership;
    }
    var indexMap: map<int, int>, deletions: seq<AbsenceClaim> := map[], [];
    var d := 0;
    while d < |ownership.deletions|
      invariant 0 <= d <= |ownership.deletions| && deletions == KeptClaims(ownership.deletions, d)
      invariant forall x :: x in indexMap <==> Survives(ownership.deletions, x) && x < d
      invariant forall x :: x in indexMap ==> indexMap[x] == |KeptClaims(ownership.deletions, x)|
    {
      var claim := ownership.deletions[d];
      if claim.sourceAlternative {
        assert deletions + [] == deletions;
      } else {
        indexMap := indexMap[d := |deletions|];
        deletions := deletions + [claim];
      }
      d := d + 1;
    }
    var units: seq<ReplacementUnit> := [];
    var u := 0;
    while u < |ownership.units|
      invariant 0 <= u <= |ownership.units| && units == RemappedUnits(ownership, u)
    {
      var unit := ownership.units[u];
      var indices := RemapIndices(ownership.deletions, indexMap, unit.deletionIndices);
      if indices == [] {
        assert units + [] == units;
      } else {
        units := units + [unit.(deletionIndices := indices)];
      }
      u := u + 1;
    }
    result := BatchOwnership(ownership.presence, deletions, units);
  }

  method RemapIndices(deletions: seq<AbsenceClaim>, indexMap: map<int, int>, indices: seq<int>) returns (remapped: seq<int>)
    requires forall x :: x in indexMap <==> Survives(deletions, x)
    requires forall x :: x in indexMap ==> Survives(deletions, x) && indexMap[x] == |KeptClaims(deletions, x)|
    ensures remapped == Remapped(deletions, indices, |indices|)
  {
    remapped := [];
    var i := 0;
    while i < |indices|
      invariant 0 <= i <= |indices| && remapped == Remapped(deletions, indices, i)
    {
      if indices[i] in indexMap {
        remapped := remapped + [indexMap[indices[i]]];
      } else {
        assert remapped + [] == remapped;
      }
      i := i + 1;
    }
  }
}
