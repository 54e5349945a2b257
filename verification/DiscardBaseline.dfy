/** Undoing a batch that holds the whole difference to the baseline, with insertions and with replacements. */
module DiscardBaseline {
  import opened Wrappers
  import opened LineRanges
  import opened Realized
  import opened LineMatching
  import opened BaselineCorrespondence
  import opened DiscardReversalMeaning
  import opened Ownership
  import opened DiscardRestoration
  import opened LegacyReplacements
  import opened ReplacementGroups
  import opened SupersededDeletions
  import opened ReplacementClaims
  import opened Discard
  import opened DiscardMeaning

  // ------------------------------------------------- undo against the baseline

  /** The old text anchored after a line, whatever follows the line already. */
  ghost function EveryOldTextAfter(ownership: BatchOwnership, line: nat): seq<Line> {
    if k: nat :| k < |ownership.deletions| && ownership.deletions[k].anchor == line then ownership.deletions[k].content else []
  }

  /** The text on the other side of the batch: owned lines taken out of the source, every old text put back. */
  ghost function OtherSideTo(ownership: BatchOwnership, source: seq<Line>, line: nat): seq<Line>
    requires line <= |source|
  {
    (if line == 0 then []
     else OtherSideTo(ownership, source, line - 1) + (if Contains(ownership.presence, line) then [] else [source[line - 1]]))
    + EveryOldTextAfter(ownership, line)
  }

  /** Some old text up to a line is not empty and is taken for already restored. */
  ghost predicate MistakenTo(ownership: BatchOwnership, source: seq<Line>, line: nat)
    requires OwnAnchors(ownership, source)
  {
    exists k :: 0 <= k < |ownership.deletions| && ownership.deletions[k].anchor <= line
      && AlreadyThere(ownership, source, k) && ownership.deletions[k].content != []
  }

  lemma OldTextHere(ownership: BatchOwnership, source: seq<Line>, line: nat)
    requires OwnAnchors(ownership, source) && line <= |source|
    ensures OldTextAfter(ownership, source, line) == EveryOldTextAfter(ownership, line)
         || (OldTextAfter(ownership, source, line) == [] && EveryOldTextAfter(ownership, line) != [])
    ensures MistakenTo(ownership, source, line) <==>
      (line > 0 && MistakenTo(ownership, source, line - 1))
      || OldTextAfter(ownership, source, line) != EveryOldTextAfter(ownership, line)
  {
    hide AlreadyThere;
  }

  /** Only mistaken old texts make the undone text shorter than the other side. */
  lemma {:induction false} UndoneOrShorter(ownership: BatchOwnership, source: seq<Line>, line: nat)
    requires OwnAnchors(ownership, source) && line <= |source|
    ensures if MistakenTo(ownership, source, line) then |UndoneTo(ownership, source, line)| < |OtherSideTo(ownership, source, line)|
            else UndoneTo(ownership, source, line) == OtherSideTo(ownership, source, line)
  {
    hide MistakenTo, OldTextAfter, EveryOldTextAfter, Contains;
    OldTextHere(ownership, source, line);
    if line > 0 {
      UndoneOrShorter(ownership, source, line - 1);
    }
  }

  /**
   A batch that holds the whole difference between baseline and source: undoing it in a worktree
   equal to the source gives the baseline exactly when no old text, other than an empty one,
   already follows its anchor among the lines that stay.
   */
  lemma DiscardRestoresBaseline(ownership: BatchOwnership, setting: Setting, records: seq<RestoreRecord>, spans: seq<Span>, baseline: seq<Line>)
    requires PlainUndo(ownership, setting) && RestorePlan(ownership, setting.sides, records, spans)
    requires OtherSideTo(ownership, setting.sides.source, |setting.sides.source|) == baseline
    ensures WorkOf(ownership, setting, records).Valid()
    ensures Undone(ownership, setting, records, spans) == Ok(baseline) <==>
      forall k :: 0 <= k < |ownership.deletions| && AlreadyThere(ownership, setting.sides.source, k) ==> ownership.deletions[k].content == []
  {
    DiscardMeetsItsMeaning(ownership, setting, records, spans);
    assert OwnAnchors(ownership, setting.sides.source);
    hide Undone, PlainUndo, RestorePlan, AlreadyThere, UndoneTo, OtherSideTo;
    UndoneOrShorter(ownership, setting.sides.source, |setting.sides.source|);
  }

  /** Two equal lines, one of them deleted, and an undo that does not bring it back. */
  ghost predicate MistakesEqualLine(ownership: BatchOwnership, setting: Setting) {
    && PlainUndo(ownership, setting)
    && OtherSideTo(ownership, setting.sides.source, |setting.sides.source|) == [Line("x"), Line("a"), Line("a")]
    && UndoneTo(ownership, setting.sides.source, |setting.sides.source|) == [Line("x"), Line("a")]
  }

  /** Deleting one of two equal lines cannot be undone: the line that stays is taken for the deleted one. */
  lemma EqualLineIsMistaken()
    ensures exists ownership: BatchOwnership, setting: Setting :: MistakesEqualLine(ownership, setting)
  {
    var x, a := Line("x"), Line("a");
    var source := [x, a];
    var ownership := BatchOwnership([], [AbsenceClaim(1, [a], None, false)], []);
    var setting := Setting(Sides(source, source, Identity(2), None, [], [], {}), [], [], [], []);
    hide PlainUndo, OtherSideTo, UndoneTo, Identity;
    MistakenTexts(ownership, source, x, a);
    EqualLineSetting(ownership, setting, source, a);
    assert MistakesEqualLine(ownership, setting);
  }

  lemma EqualLineSetting(ownership: BatchOwnership, setting: Setting, source: seq<Line>, a: Line)
    requires |source| == 2 && ownership == BatchOwnership([], [AbsenceClaim(1, [a], None, false)], [])
    requires setting == Setting(Sides(source, source, Identity(2), None, [], [], {}), [], [], [], [])
    ensures PlainUndo(ownership, setting)
  {
  }

  lemma MistakenTexts(ownership: BatchOwnership, source: seq<Line>, x: Line, a: Line)
    requires ownership == BatchOwnership([], [AbsenceClaim(1, [a], None, false)], []) && source == [x, a]
    ensures OtherSideTo(ownership, source, 2) == [x, a, a] && UndoneTo(ownership, source, 2) == [x, a]
  {
    assert forall line :: !Contains(ownership.presence, line);
    assert Unselected([], source, 0, 0) == [] && Unselected([], source, 0, 1) == [x] && Unselected([], source, 0, 2) == [x, a];
    assert AlreadyThere(ownership, source, 0);
    var claim := ownership.deletions[0];
    assert EveryOldTextAfter(ownership, 0) == [] && EveryOldTextAfter(ownership, 1) == [a] && EveryOldTextAfter(ownership, 2) == [];
    assert OtherSideTo(ownership, source, 0) == [] && OtherSideTo(ownership, source, 1) == [x, a];
    assert UndoneTo(ownership, source, 0) == [] && UndoneTo(ownership, source, 1) == [x];
  }

  // --------------------------------------------- the baseline side of the regions

  /** An old text is the baseline side of the by-hunk region right behind its anchor. */
  ghost predicate OldSideOf(claim: AbsenceClaim, region: Region) {
    region.kind == ReplaceByHunk && claim.anchor + 1 == region.first && claim.content == region.baseline
  }

  /** The batch takes this region: an equal one not at all, any other one wholly, with its old text. */
  ghost predicate Takes(ownership: BatchOwnership, source: seq<Line>, region: Region)
    requires 1 <= region.first <= region.last <= |source|
  {
    match region.kind
    case Equal =>
      && (forall line :: region.first <= line <= region.last ==> !Contains(ownership.presence, line))
      && region.baseline == source[region.first - 1..region.last]
    case Insert => forall line :: region.first <= line <= region.last ==> Contains(ownership.presence, line)
    case ReplaceByHunk =>
      && (forall line :: region.first <= line <= region.last ==> Contains(ownership.presence, line))
      && exists k :: 0 <= k < |ownership.deletions| && OldSideOf(ownership.deletions[k], region)
    case ReplaceLineByLine => false
  }

  /** The batch holds the whole difference between the baseline side of the regions and the source. */
  ghost predicate HoldsDifference(ownership: BatchOwnership, source: seq<Line>, regions: seq<Region>) {
    && TilesSource(regions, |source|) && OwnAnchors(ownership, source)
    && (forall r :: 0 <= r < |regions| ==> 1 <= regions[r].first <= regions[r].last <= |source| && Takes(ownership, source, regions[r]))
    && forall k :: 0 <= k < |ownership.deletions| ==> exists r :: 0 <= r < |regions| && OldSideOf(ownership.deletions[k], regions[r])
  }

  /** Where one region ends the next begins, so no two have a line in common. */
  lemma {:induction false} RegionsApart(regions: seq<Region>, count: nat, a: nat, b: nat)
    requires TilesSource(regions, count) && a < b < |regions|
    ensures regions[a].last < regions[b].first
    decreases b
  {
    TilesSourcePrefix(regions, count, b);
    if a + 1 < b {
      RegionsApart(regions, count, a, b - 1);
      TilesSourcePrefix(regions, count, b - 1);
    }
  }

  /** Old text is anchored only right in front of a by-hunk region. */
  lemma OldTextOfRegion(ownership: BatchOwnership, source: seq<Line>, regions: seq<Region>, r: nat, line: nat)
    requires HoldsDifference(ownership, source, regions) && r < |regions|
    requires regions[r].first <= line + 1 <= regions[r].last
    ensures EveryOldTextAfter(ownership, line)
         == if line + 1 == regions[r].first && regions[r].kind == ReplaceByHunk then regions[r].baseline else []
  {
    hide Takes, TilesSource;
    forall k | 0 <= k < |ownership.deletions| && ownership.deletions[k].anchor == line ensures OldSideOf(ownership.deletions[k], regions[r]) {
      var q :| 0 <= q < |regions| && OldSideOf(ownership.deletions[k], regions[q]);
      if q < r {
        RegionsApart(regions, |source|, q, r);
      } else if r < q {
        RegionsApart(regions, |source|, r, q);
      }
    }
    if line + 1 == regions[r].first && regions[r].kind == ReplaceByHunk {
      HunkHasOldText(ownership, source, regions[r]);
    }
  }

  lemma HunkHasOldText(ownership: BatchOwnership, source: seq<Line>, region: Region)
    requires 1 <= region.first <= region.last <= |source| && Takes(ownership, source, region) && region.kind == ReplaceByHunk
    ensures exists k: nat :: k < |ownership.deletions| && ownership.deletions[k].anchor == region.first - 1
  {
    hide Contains;
    var k :| 0 <= k < |ownership.deletions| && OldSideOf(ownership.deletions[k], region);
    assert ownership.deletions[k].anchor == region.first - 1;
  }

  /** The lines of a region up to one of its lines, as far as they stay. */
  function KeptOf(region: Region, source: seq<Line>, line: nat): seq<Line>
    requires 1 <= region.first <= line + 1 <= |source| + 1
  {
    if region.kind == Equal then source[region.first - 1..line] else []
  }

  /** Crossing a region leaves its kept lines; its old text was put back in front of it. */
  lemma {:induction false} CrossRegion(ownership: BatchOwnership, source: seq<Line>, regions: seq<Region>, r: nat, line: nat)
    requires HoldsDifference(ownership, source, regions) && r < |regions|
    requires regions[r].first <= line <= regions[r].last
    ensures line <= |source|
    ensures OtherSideTo(ownership, source, line)
         == OtherSideTo(ownership, source, regions[r].first - 1) + KeptOf(regions[r], source, line) + EveryOldTextAfter(ownership, line)
    decreases line
  {
    hide HoldsDifference, EveryOldTextAfter, Contains, OtherSideTo, KeptOf, WellShaped, Takes;
    var region := regions[r];
    FirstOfRegion(ownership, source, regions, r);
    OwnedInRegion(ownership, source, region, line);
    OtherSideNext(ownership, source, line);
    var before, here := OtherSideTo(ownership, source, region.first - 1), if region.kind == Equal then [source[line - 1]] else [];
    if line == region.first {
      KeptStarts(region, source);
    } else {
      CrossRegion(ownership, source, regions, r, line - 1);
      OldTextOfRegion(ownership, source, regions, r, line - 1);
      KeptNext(region, source, line);
      assert before + KeptOf(region, source, line - 1) + [] + here == before + (KeptOf(region, source, line - 1) + here);
    }
  }

  lemma OtherSideNext(ownership: BatchOwnership, source: seq<Line>, line: nat)
    requires 0 < line <= |source|
    ensures OtherSideTo(ownership, source, line)
         == OtherSideTo(ownership, source, line - 1) + (if Contains(ownership.presence, line) then [] else [source[line - 1]])
            + EveryOldTextAfter(ownership, line)
  {
  }

  lemma KeptStarts(region: Region, source: seq<Line>)
    requires 1 <= region.first <= |source|
    ensures KeptOf(region, source, region.first) == if region.kind == Equal then [source[region.first - 1]] else []
  {
  }

  lemma KeptNext(region: Region, source: seq<Line>, line: nat)
    requires 1 <= region.first < line <= |source|
    ensures KeptOf(region, source, line) == KeptOf(region, source, line - 1) + if region.kind == Equal then [source[line - 1]] else []
  {
  }

  lemma OwnedInRegion(ownership: BatchOwnership, source: seq<Line>, region: Region, line: nat)
    requires 1 <= region.first <= line <= region.last <= |source| && Takes(ownership, source, region)
    ensures Contains(ownership.presence, line) <==> region.kind != Equal
  {
  }

  /** With the whole difference taken, the other side is the baseline side of the regions. */
  lemma {:induction false} OtherSideIsBaseline(ownership: BatchOwnership, source: seq<Line>, regions: seq<Region>, r: nat)
    requires HoldsDifference(ownership, source, regions) && r <= |regions|
    ensures var upto := if r == 0 then 0 else regions[r - 1].last;
      upto <= |source| && OtherSideTo(ownership, source, upto) == BaselineOf(regions[..r]) + EveryOldTextAfter(ownership, upto)
  {
    hide *;
    if r == 0 {
      NothingCrossed(ownership, source, regions);
    } else {
      OtherSideIsBaseline(ownership, source, regions, r - 1);
      var region := regions[r - 1];
      FirstOfRegion(ownership, source, regions, r - 1);
      CrossRegion(ownership, source, regions, r - 1, region.last);
      OldTextOfRegion(ownership, source, regions, r - 1, region.first - 1);
      BaselineNext(regions, r - 1);
      RegionAdds(ownership, source, region);
      Regroup(BaselineOf(regions[..r - 1]), EveryOldTextAfter(ownership, region.first - 1), KeptOf(region, source, region.last),
        EveryOldTextAfter(ownership, region.last), region.baseline);
    }
  }

  lemma NothingCrossed(ownership: BatchOwnership, source: seq<Line>, regions: seq<Region>)
    ensures OtherSideTo(ownership, source, 0) == BaselineOf(regions[..0]) + EveryOldTextAfter(ownership, 0)
  {
    assert BaselineOf(regions[..0]) == [];
    assert [] + EveryOldTextAfter(ownership, 0) == EveryOldTextAfter(ownership, 0);
  }

  lemma Regroup(before: seq<Line>, oldText: seq<Line>, kept: seq<Line>, after: seq<Line>, whole: seq<Line>)
    requires oldText + kept == whole
    ensures before + oldText + kept + after == before + whole + after
  {
    assert before + oldText + kept == before + (oldText + kept);
  }

  lemma FirstOfRegion(ownership: BatchOwnership, source: seq<Line>, regions: seq<Region>, r: nat)
    requires HoldsDifference(ownership, source, regions) && r < |regions|
    ensures regions[r].first - 1 == if r == 0 then 0 else regions[r - 1].last
    ensures 1 <= regions[r].first <= regions[r].last <= |source| && Takes(ownership, source, regions[r]) && WellShaped(regions[r])
  {
    hide Takes, OwnAnchors;
    TilesSourcePrefix(regions, |source|, r);
  }

  lemma RegionAdds(ownership: BatchOwnership, source: seq<Line>, region: Region)
    requires 1 <= region.first <= region.last <= |source| && Takes(ownership, source, region) && WellShaped(region)
    ensures (if region.kind == ReplaceByHunk then region.baseline else []) + KeptOf(region, source, region.last) == region.baseline
  {
  }

  /**
   A batch that takes every region that is not equal: undoing it in a worktree equal to the source gives
   the baseline side of all regions exactly when no old text but an empty one already follows its anchor.
   */
  lemma DiscardGivesBaselineSide(ownership: BatchOwnership, setting: Setting, records: seq<RestoreRecord>, spans: seq<Span>)
    requires PlainUndo(ownership, setting) && RestorePlan(ownership, setting.sides, records, spans)
    requires HoldsDifference(ownership, setting.sides.source, setting.regions)
    ensures WorkOf(ownership, setting, records).Valid()
    ensures Undone(ownership, setting, records, spans) == Ok(BaselineOf(setting.regions)) <==>
      forall k :: 0 <= k < |ownership.deletions| && AlreadyThere(ownership, setting.sides.source, k) ==> ownership.deletions[k].content == []
  {
    var source, regions := setting.sides.source, setting.regions;
    OtherSideIsBaseline(ownership, source, regions, |regions|);
    NothingBehindTheEnd(ownership, source, regions);
    assert regions[..|regions|] == regions;
    assert BaselineOf(regions) + [] == BaselineOf(regions);
    hide PlainUndo, HoldsDifference, RestorePlan, BaselineOf, OtherSideTo, Undone, AlreadyThere;
    DiscardRestoresBaseline(ownership, setting, records, spans, BaselineOf(regions));
  }

  lemma NothingBehindTheEnd(ownership: BatchOwnership, source: seq<Line>, regions: seq<Region>)
    requires HoldsDifference(ownership, source, regions)
    ensures EveryOldTextAfter(ownership, |source|) == []
    ensures |source| == if regions == [] then 0 else regions[|regions| - 1].last
  {
    hide Takes;
    forall k | 0 <= k < |ownership.deletions| ensures ownership.deletions[k].anchor < |source| {
      var claim := ownership.deletions[k];
      var r :| 0 <= r < |regions| && OldSideOf(claim, regions[r]);
      TilesSourcePrefix(regions, |source|, r);
    }
  }

  // -------------------------------------------------------- replaced by units

  /** Where every unit couples one old text with owned lines, the lines of a live unit are restored apart. */
  lemma CoupledLinesAreApart(ownership: BatchOwnership, sides: Sides, u: nat, line: int)
    requires forall v :: 0 <= v < |ownership.units| ==> Coupling(ownership, sides, v)
    requires u < |ownership.units| && Live(ownership, sides, u) && InUnit(ownership, u, line)
    ensures RestoredApart(ownership, sides, line)
  {
    assert Coupling(ownership, sides, u);
    var d := ownership.units[u].deletionIndices[0];
    assert Names(ownership, u, d) && !Grouped(ownership, sides, u);
    hide Grouped, Exact, Live, InUnit, Names, Coupling, LastClaim;
    if Superseded(ownership, d) {
      var v :| 0 <= v < |ownership.units| && d in ownership.units[v].deletionIndices && Repeats(ownership, v, d);
      NamesIs(ownership, v, d);
      CouplingNames(ownership, sides, v, d);
    }
    assert ComesBack(ownership, sides, u, d);
    assert RestoresAlone(ownership, sides, u);
  }

  lemma NamesIs(ownership: BatchOwnership, u: nat, d: nat)
    requires u < |ownership.units|
    ensures Names(ownership, u, d) <==> d in ownership.units[u].deletionIndices
  {
  }

  /** A file of one line that replaced another one, coupled by a unit, and what undo makes of it. */
  ghost predicate UndoesReplacement(ownership: BatchOwnership, setting: Setting, a: Line, b: Line) {
    && PlainUndo(ownership, setting) && ownership.units != []
    && setting.sides.source == [b] && setting.regions == [Region(1, 1, [a], ReplaceByHunk, 0)]
    && UndoneTo(ownership, [b], 1) == [a]
  }

  /** A file of one replaced line, its replacement coupled by a unit: undo puts the old line back. */
  lemma ReplacementIsUndone(a: Line, b: Line)
    ensures exists ownership: BatchOwnership, setting: Setting :: UndoesReplacement(ownership, setting, a, b)
  {
    var one := [Span(1, 1)];
    var ownership := BatchOwnership(one, [AbsenceClaim(0, [a], None, false)], [ReplacementUnit(Some(one), [0], None)]);
    var sides := Sides([b], [b], Identity(1), None, [], [], {});
    var setting := Setting(sides, [Region(1, 1, [a], ReplaceByHunk, 0)], [], [], []);
    hide PlainUndo, UndoneTo, Identity;
    ReplacedSetting(ownership, setting, a, b);
    ReplacedText(ownership, a, b);
    assert UndoesReplacement(ownership, setting, a, b);
  }

  lemma OneLine(line: int)
    ensures Contains([Span(1, 1)], line) <==> line == 1
  {
    assert [Span(1, 1)][0] == Span(1, 1);
  }

  lemma OneLineNormalForm()
    ensures NormalForm([Span(1, 1)]) == [Span(1, 1)]
  {
    NormalFormMeaning([Span(1, 1)]);
    NormalizedIsCanonical(NormalForm([Span(1, 1)]), [Span(1, 1)]);
  }

  lemma ReplacedCoupling(ownership: BatchOwnership, sides: Sides, a: Line, b: Line)
    requires ownership == BatchOwnership([Span(1, 1)], [AbsenceClaim(0, [a], None, false)], [ReplacementUnit(Some([Span(1, 1)]), [0], None)])
    requires sides == Sides([b], [b], Identity(1), None, [], [], {})
    ensures Coupling(ownership, sides, 0) && Live(ownership, sides, 0)
  {
    OneLineNormalForm();
    hide NormalForm;
    OneLine(1);
    var line: nat := 1;
    assert Contains(ownership.units[0].presence.value, line) && LiveLine(sides.toWorking, sides.preserved, line);
  }

  lemma ReplacedSetting(ownership: BatchOwnership, setting: Setting, a: Line, b: Line)
    requires ownership == BatchOwnership([Span(1, 1)], [AbsenceClaim(0, [a], None, false)], [ReplacementUnit(Some([Span(1, 1)]), [0], None)])
    requires setting == Setting(Sides([b], [b], Identity(1), None, [], [], {}), [Region(1, 1, [a], ReplaceByHunk, 0)], [], [], [])
    ensures PlainUndo(ownership, setting)
  {
    ReplacedCoupling(ownership, setting.sides, a, b);
    ReplacedLine(ownership, setting, a, b);
    OneLine(0);
    hide Coupling, LeavesNothing, Contains;
    forall line: nat | Contains(ownership.presence, line)
      ensures line <= 1 && line !in setting.sides.preserved && LeavesNothing(ownership, setting, line)
    {
      OneLine(line);
    }
    assert IsSubset(setting.independent, setting.trustedInsertions);
  }

  lemma ReplacedLine(ownership: BatchOwnership, setting: Setting, a: Line, b: Line)
    requires ownership == BatchOwnership([Span(1, 1)], [AbsenceClaim(0, [a], None, false)], [ReplacementUnit(Some([Span(1, 1)]), [0], None)])
    requires setting == Setting(Sides([b], [b], Identity(1), None, [], [], {}), [Region(1, 1, [a], ReplaceByHunk, 0)], [], [], [])
    ensures LeavesNothing(ownership, setting, 1)
  {
    ReplacedCoupling(ownership, setting.sides, a, b);
    OneLine(1);
    CoupledLinesAreApart(ownership, setting.sides, 0, 1);
    hide Coupling, RestoredApart, Live;
    RegionIsUnique(setting.regions, 1, 0);
  }

  lemma ReplacedText(ownership: BatchOwnership, a: Line, b: Line)
    requires ownership == BatchOwnership([Span(1, 1)], [AbsenceClaim(0, [a], None, false)], [ReplacementUnit(Some([Span(1, 1)]), [0], None)])
    ensures UndoneTo(ownership, [b], 1) == [a]
  {
    OneLine(1);
    hide Contains;
    assert Unselected(ownership.presence, [b], 0, 0) == [] && Unselected(ownership.presence, [b], 0, 1) == [];
    assert !AlreadyThere(ownership, [b], 0);
    assert OldTextAfter(ownership, [b], 0) == [a] && OldTextAfter(ownership, [b], 1) == [];
    assert UndoneTo(ownership, [b], 0) == [a];
  }
}
