/** What undoing a batch leaves in a worktree that equals its batch source. */
module DiscardMeaning {
  import opened Wrappers
  import opened LineRanges
  import opened Realized
  import opened LineMatching
  import opened BaselineCorrespondence
  import opened DiscardReversal
  import opened DiscardReversalMeaning
  import opened Ownership
  import opened DiscardRestoration
  import opened DiscardRestorationMeaning
  import opened LegacyReplacements
  import opened ReplacementGroups
  import opened SupersededDeletions
  import opened ReplacementClaims
  import opened Discard
  import opened DiscardInWorktree

  // ------------------------------------------------------ the declared meaning

  /** The claim's old text already follows its anchor once the owned lines are gone. */
  predicate AlreadyThere(ownership: BatchOwnership, source: seq<Line>, k: nat)
    requires k < |ownership.deletions| && ownership.deletions[k].anchor <= |source|
  {
    var claim := ownership.deletions[k];
    PresentAt(Unselected(ownership.presence, source, 0, |source|), |Unselected(ownership.presence, source, 0, claim.anchor)|, claim.content)
  }

  /** The missing old text anchored after a line. */
  ghost function OldTextAfter(ownership: BatchOwnership, source: seq<Line>, line: nat): seq<Line>
    requires line <= |source|
  {
    if k: nat :| k < |ownership.deletions| && ownership.deletions[k].anchor == line && !AlreadyThere(ownership, source, k)
    then ownership.deletions[k].content
    else []
  }

  /** The source up to a line, without owned lines, with missing old text right after its anchor. */
  ghost function UndoneTo(ownership: BatchOwnership, source: seq<Line>, line: nat): seq<Line>
    requires line <= |source|
  {
    (if line == 0 then []
     else UndoneTo(ownership, source, line - 1) + (if Contains(ownership.presence, line) then [] else [source[line - 1]]))
    + OldTextAfter(ownership, source, line)
  }

  /** Each old text has an anchor of its own inside the source. */
  ghost predicate OwnAnchors(ownership: BatchOwnership, source: seq<Line>) {
    && (forall k :: 0 <= k < |ownership.deletions| ==> ownership.deletions[k].anchor <= |source|)
    && (forall j, k :: 0 <= j < k < |ownership.deletions| ==> ownership.deletions[j].anchor != ownership.deletions[k].anchor)
  }

  /** No old text is anchored at an owned line. */
  ghost predicate FreeAnchors(ownership: BatchOwnership) {
    forall k :: 0 <= k < |ownership.deletions| ==> !Contains(ownership.presence, ownership.deletions[k].anchor)
  }

  /** Taking the owned line out leaves nothing behind: it was inserted, or its old text comes back as a deleted version. */
  ghost predicate LeavesNothing(ownership: BatchOwnership, setting: Setting, line: nat) {
    match RegionFor(setting.regions, line)
    case None => false
    case Some(region) => region.kind == Insert || (region.kind == ReplaceByHunk && RestoredApart(ownership, setting.sides, line))
  }

  /** A unit that couples one deleted version with the one owned range right behind its anchor. */
  ghost predicate Coupling(ownership: BatchOwnership, sides: Sides, u: nat)
    requires u < |ownership.units|
  {
    var unit, ranges := ownership.units[u], CollectedRanges(ownership.units[u]);
    && !Grouped(ownership, sides, u) && !Exact(ownership, sides, u)
    && |unit.deletionIndices| == 1 && SupersededDeletions.Valid(ownership, unit.deletionIndices[0])
    && !ownership.deletions[unit.deletionIndices[0]].sourceAlternative
    && ranges.Some? && |ranges.value| == 1
    && ranges.value[0].first == ownership.deletions[unit.deletionIndices[0]].anchor + 1
    && forall line :: ranges.value[0].first <= line <= ranges.value[0].last ==> Contains(ownership.presence, line)
  }

  /**
   A worktree equal to the batch source.  Owned lines are insertions, or their old text comes back
   as a deleted version; each old text has an anchor of its own, the start of the file or a line
   not owned; each unit couples one of them with the owned lines behind its anchor.
   */
  ghost predicate PlainUndo(ownership: BatchOwnership, setting: Setting) {
    var source := setting.sides.source;
    && ownership.Valid() && setting.Valid()
    && setting.sides.working == source && setting.sides.toWorking == Identity(|source|)
    && setting.structural == [] && IsSubset(setting.independent, setting.trustedInsertions)
    && (forall line: nat :: Contains(ownership.presence, line) ==>
          line <= |source| && line !in setting.sides.preserved && LeavesNothing(ownership, setting, line))
    && OwnAnchors(ownership, source) && FreeAnchors(ownership)
    && forall u :: 0 <= u < |ownership.units| ==> Coupling(ownership, setting.sides, u)
  }

  // ---------------------------------------------------------------- the records

  lemma OwnedSuccessorIsLive(ownership: BatchOwnership, setting: Setting, d: nat)
    requires PlainUndo(ownership, setting) && d < |ownership.deletions|
    requires Contains(ownership.presence, ownership.deletions[d].anchor + 1)
    ensures LegacyLive(ownership, setting.sides, d)
  {
    var start := ownership.deletions[d].anchor + 1;
    var r :| 0 <= r < |ownership.presence| && ownership.presence[r].first <= start <= ownership.presence[r].last;
    hide LeavesNothing, Coupling, OwnAnchors, FreeAnchors;
    assert Precedes(ownership, d, r);
    assert LiveLine(setting.sides.toWorking, setting.sides.preserved, start);
    assert LiveBehind(ownership, setting.sides, d, r);
  }

  /** A coupling unit is live: all of its lines stand in the worktree. */
  lemma CouplingIsLive(ownership: BatchOwnership, setting: Setting, u: nat)
    requires PlainUndo(ownership, setting) && u < |ownership.units|
    ensures Live(ownership, setting.sides, u) && Coupling(ownership, setting.sides, u)
    ensures CollectedRanges(ownership.units[u]).value[0].last <= |setting.sides.source|
  {
    assert Coupling(ownership, setting.sides, u);
    CollectedRangesAre(ownership, u);
    hide LeavesNothing, Grouped, Exact, OwnAnchors, FreeAnchors, NormalForm;
    var raw := ownership.units[u].presence.value;
    var span := NormalForm(raw)[0];
    NormalFormMeaning(raw);
    assert Contains(NormalForm(raw), span.first);
    var line: nat := span.first;
    assert Contains(ownership.presence, line);
    assert Contains(raw, line) && LiveLine(setting.sides.toWorking, setting.sides.preserved, line);
    var last: nat := span.last;
    assert Contains(ownership.presence, last);
  }

  lemma CouplingNames(ownership: BatchOwnership, sides: Sides, u: nat, d: nat)
    requires u < |ownership.units| && d < |ownership.deletions| && Coupling(ownership, sides, u) && Names(ownership, u, d)
    ensures ownership.units[u].deletionIndices == [d] && !ownership.deletions[d].sourceAlternative
  {
    hide Grouped, Exact, NormalForm;
  }

  lemma NothingIsSuperseded(ownership: BatchOwnership, setting: Setting, d: nat)
    requires PlainUndo(ownership, setting) && d < |ownership.deletions|
    ensures !Superseded(ownership, d)
  {
    hide LeavesNothing, Coupling, OwnAnchors, FreeAnchors;
    if Superseded(ownership, d) {
      var u :| 0 <= u < |ownership.units| && d in ownership.units[u].deletionIndices && Repeats(ownership, u, d);
      CouplingNames(ownership, setting.sides, u, d);
    }
  }

  /** What the records of such a batch are: nothing moves a claim away from its anchor or leaves it out. */
  ghost predicate NearAnchor(ownership: BatchOwnership, sides: Sides, d: nat, record: RestoreRecord)
    requires d < |ownership.deletions|
  {
    || record == RestoreRecord(0, 0, 0) || record == RestoreRecord(2, 0, 0)
    || (record.flag == 2
        && exists u :: 0 <= u < |ownership.units| && Names(ownership, u, d) && BetweenNeighbors(ownership, sides, u, record.first, record.last))
  }

  lemma UnitsAreAlone(ownership: BatchOwnership, setting: Setting)
    requires PlainUndo(ownership, setting)
    ensures forall u :: 0 <= u < |ownership.units| ==>
      Live(ownership, setting.sides, u) && !Grouped(ownership, setting.sides, u) && !Exact(ownership, setting.sides, u)
  {
    hide PlainUndo, Live, Grouped, Exact, NormalForm;
    forall u | 0 <= u < |ownership.units|
      ensures Live(ownership, setting.sides, u) && !Grouped(ownership, setting.sides, u) && !Exact(ownership, setting.sides, u)
    {
      CouplingIsLive(ownership, setting, u);
    }
  }

  lemma NamedIsLive(ownership: BatchOwnership, setting: Setting, d: nat)
    requires PlainUndo(ownership, setting) && d < |ownership.deletions|
    ensures var sides, count := setting.sides, |ownership.units|;
      && LastClaim(ownership, sides, ByPreimage, count, d).None? && LastClaim(ownership, sides, WithGroup, count, d).None?
      && (LastClaim(ownership, sides, ByMention, count, d).Some? ==> LastClaim(ownership, sides, ByLiveText, count, d).Some?)
  {
    hide PlainUndo, Live, Grouped, Exact, Names, LastClaim;
    UnitsAreAlone(ownership, setting);
    var mention := LastClaim(ownership, setting.sides, ByMention, |ownership.units|, d);
    assert mention.Some? ==> Claims(ownership, setting.sides, ByLiveText, mention.value, d);
  }

  lemma PlainUndoRecord(ownership: BatchOwnership, setting: Setting, d: nat, record: RestoreRecord)
    requires PlainUndo(ownership, setting) && d < |ownership.deletions| && FinalRecord(ownership, setting.sides, d, record)
    ensures NearAnchor(ownership, setting.sides, d, record)
  {
    NamedIsLive(ownership, setting, d);
    NothingIsSuperseded(ownership, setting, d);
    hide PlainUndo, Superseded, BetweenNeighbors, LastClaim, LegacyLive, IsShare, IsPreimage, Named;
    if Uncoupled(ownership, d) {
      OwnedSuccessorIsLive(ownership, setting, d);
    } else {
      hide Uncoupled;
      var live := LastClaim(ownership, setting.sides, ByLiveText, |ownership.units|, d);
      if live.Some? {
        assert Names(ownership, live.value, d);
      }
    }
  }

  /** Such an undo can be located. */
  lemma PlainUndoIsRestorable(ownership: BatchOwnership, setting: Setting)
    requires ownership.Valid() && (ownership.units == [] || PlainUndo(ownership, setting))
    ensures !CannotRestore(ownership, setting.sides)
  {
    forall u | 0 <= u < |ownership.units|
      ensures !Grouped(ownership, setting.sides, u) && !Fails(ownership, setting.sides, u)
    {
      CouplingIsLive(ownership, setting, u);
    }
    hide PlainUndo, Fails, LostGroup, Grouped;
    forall start: nat, end: nat ensures !LostGroup(ownership, setting.sides, start, end) {
      LostUnitsAreGrouped(ownership, setting.sides, start, end);
    }
  }

  lemma LostUnitsAreGrouped(ownership: BatchOwnership, sides: Sides, start: nat, end: nat)
    requires ownership.Valid()
    ensures LostGroup(ownership, sides, start, end) ==> start < |ownership.units| && Grouped(ownership, sides, start)
  {
  }

  // --------------------------------------------------------------- the reversal

  /** How many of the first lines are not owned. */
  function KeptCount(presence: seq<Span>, source: seq<Line>, line: nat): nat
    requires line <= |source|
  {
    |Unselected(presence, source, 0, line)|
  }

  lemma PlainIsMatched(ownership: BatchOwnership, setting: Setting)
    requires PlainUndo(ownership, setting)
    ensures Matched(ownership, setting)
  {
    hide LeavesNothing, Coupling, OwnAnchors, FreeAnchors, IsSubset, Contains;
  }

  /** A worktree line stays unless it is owned. */
  lemma PlainStands(ownership: BatchOwnership, setting: Setting, line: nat)
    requires PlainUndo(ownership, setting)
    ensures StandsAt(ownership, setting, line) ==
      if 1 <= line <= |setting.sides.source| && !Contains(ownership.presence, line) then Some(line) else None
  {
    hide LeavesNothing, Coupling, OwnAnchors, FreeAnchors;
    assert !Contains([], line);
  }

  lemma PlainEntry(ownership: BatchOwnership, setting: Setting, line: nat)
    requires PlainUndo(ownership, setting) && 1 <= line <= |setting.sides.source|
    ensures EntriesOf(setting)[line - 1] == Entry(setting.sides.source[line - 1], Provenance(line, line, false))
  {
    hide LeavesNothing, Coupling, OwnAnchors, FreeAnchors;
    assert WorkingProvenance(setting.sides.toWorking, [], line - 1).source == line;
  }

  lemma PlainLine(ownership: BatchOwnership, setting: Setting, spans: seq<Span>, line: nat)
    requires PlainUndo(ownership, setting) && 1 <= line <= |setting.sides.source|
    requires Contains(spans, line) <==> RestoredApart(ownership, setting.sides, line)
    ensures !BlockedAt(ownership, setting, spans, line)
    ensures Contents(LeftBy(ownership, setting, spans, line))
         == if Contains(ownership.presence, line) then [] else [setting.sides.source[line - 1]]
  {
    PlainEntry(ownership, setting, line);
    hide RestoredApart, Coupling, OwnAnchors, FreeAnchors, Started, HunkTouchesTrusted, EntriesOf;
    assert !Contains([], line);
    assert Contains(ownership.presence, line) ==> LeavesNothing(ownership, setting, line);
  }

  /** Reversal leaves exactly the lines that are not owned. */
  lemma {:induction false} PlainReversal(ownership: BatchOwnership, setting: Setting, spans: seq<Span>, line: nat)
    requires PlainUndo(ownership, setting) && line <= |setting.sides.source| == |setting.sides.working|
    requires forall x :: Contains(spans, x) <==> RestoredApart(ownership, setting.sides, x)
    ensures Contents(ReversedTo(ownership, setting, spans, line)) == Unselected(ownership.presence, setting.sides.source, 0, line)
    ensures |ReversedTo(ownership, setting, spans, line)| == KeptCount(ownership.presence, setting.sides.source, line)
  {
    hide PlainUndo, RestoredApart, Contains, LeftBy;
    if line > 0 {
      PlainReversal(ownership, setting, spans, line - 1);
      PlainLine(ownership, setting, spans, line);
      ReversedNext(ownership, setting, spans, line);
      hide ReversedTo, Contents;
      ContentsAppend(ReversedTo(ownership, setting, spans, line - 1), LeftBy(ownership, setting, spans, line));
    }
  }

  /** No line from a to b is kept. */
  lemma {:induction false} KeptUnchanged(presence: seq<Span>, source: seq<Line>, a: nat, b: nat)
    requires a <= b <= |source| && forall line :: a < line <= b ==> Contains(presence, line)
    ensures Unselected(presence, source, 0, b) == Unselected(presence, source, 0, a)
  {
    hide Contains;
    if a < b {
      KeptUnchanged(presence, source, a, b - 1);
    }
  }

  /** A kept line is the last of those up to it. */
  lemma KeptAt(presence: seq<Span>, source: seq<Line>, line: nat)
    requires 1 <= line <= |source| && !Contains(presence, line)
    ensures var q := KeptCount(presence, source, line);
      && 1 <= q <= KeptCount(presence, source, |source|) && KeptCount(presence, source, line - 1) == q - 1
      && Unselected(presence, source, 0, |source|)[q - 1] == source[line - 1]
  {
    hide Contains;
    UnselectedPrefix(presence, source, 0, line, |source|);
    var upto, all := Unselected(presence, source, 0, line), Unselected(presence, source, 0, |source|);
    assert all[|upto| - 1] == upto[|upto| - 1];
  }

  /** Free lines with as many kept lines up to them are the same line. */
  lemma SamePlace(presence: seq<Span>, source: seq<Line>, a: nat, b: nat)
    requires a <= |source| && b <= |source| && !Contains(presence, a) && !Contains(presence, b)
    requires KeptCount(presence, source, a) == KeptCount(presence, source, b)
    ensures a == b
  {
    hide Contains, Unselected;
    if a < b {
      KeptAt(presence, source, b);
      UnselectedPrefix(presence, source, 0, a, b - 1);
    } else if b < a {
      KeptAt(presence, source, a);
      UnselectedPrefix(presence, source, 0, b, a - 1);
    }
  }

  // ------------------------------------------------------------ the restoration

  /** Lines that are not owned survive, and no others. */
  lemma SurvivorsAreKept(ownership: BatchOwnership, setting: Setting, line: nat)
    requires PlainUndo(ownership, setting) && 1 <= line <= |setting.sides.source|
    ensures Survives(ownership, setting.sides, line) <==> !Contains(ownership.presence, line)
  {
    hide LeavesNothing, Coupling, OwnAnchors, FreeAnchors;
  }

  /** The neighbours of a coupled range: its anchor, and the next line that stays. */
  lemma CoupledNeighbors(ownership: BatchOwnership, setting: Setting, u: nat, d: nat, before: nat, after: nat)
    requires PlainUndo(ownership, setting) && u < |ownership.units| && d < |ownership.deletions| && Names(ownership, u, d)
    requires BetweenNeighbors(ownership, setting.sides, u, before, after)
    ensures before == ownership.deletions[d].anchor
    ensures after != 0 ==>
      && before < after <= |setting.sides.source| && !Contains(ownership.presence, after)
      && forall line :: before < line < after ==> Contains(ownership.presence, line)
  {
    CouplingIsLive(ownership, setting, u);
    CouplingNames(ownership, setting.sides, u, d);
    CollectedRangesAre(ownership, u);
    var span, source := CollectedRanges(ownership.units[u]).value[0], setting.sides.source;
    var anchor := ownership.deletions[d].anchor;
    assert NearestBefore(ownership, setting.sides, span.first, before) && NearestAfter(ownership, setting.sides, span.last, after);
    assert !Contains(ownership.presence, anchor) && anchor <= |source|;
    assert forall line :: span.first <= line <= span.last ==> Contains(ownership.presence, line);
    forall line: nat | 1 <= line <= |source| ensures Survives(ownership, setting.sides, line) <==> !Contains(ownership.presence, line) {
      SurvivorsAreKept(ownership, setting, line);
    }
    hide PlainUndo, Coupling, Contains, Survives;
    if anchor > 0 {
      assert Survives(ownership, setting.sides, anchor);
    }
    if after != 0 {
      assert span.last < after <= |source| && Survives(ownership, setting.sides, after);
      forall line | before < line < after ensures Contains(ownership.presence, line) {
        var x: nat := line;
        assert span.first <= line <= span.last || !Survives(ownership, setting.sides, x);
      }
    }
  }

  lemma AnchorIsFree(ownership: BatchOwnership, setting: Setting, d: nat)
    requires PlainUndo(ownership, setting) && d < |ownership.deletions|
    ensures ownership.deletions[d].anchor <= |setting.sides.source| && !Contains(ownership.presence, ownership.deletions[d].anchor)
  {
    hide LeavesNothing, Coupling, Contains;
  }

  /** Between its neighbours, a coupled old text belongs right behind its anchor. */
  lemma CoupledPlace(ownership: BatchOwnership, setting: Setting, records: seq<RestoreRecord>, spans: seq<Span>, u: nat, d: nat)
    requires PlainUndo(ownership, setting) && |records| == |ownership.deletions|
    requires forall x :: Contains(spans, x) <==> RestoredApart(ownership, setting.sides, x)
    requires u < |ownership.units| && d < |ownership.deletions| && Names(ownership, u, d) && records[d].flag == 2
    requires BetweenNeighbors(ownership, setting.sides, u, records[d].first, records[d].last)
    ensures Matched(ownership, setting) && !Torn(ownership, setting, records, spans, d)
    ensures ownership.deletions[d].anchor <= |setting.sides.source|
    ensures PlaceOf(ownership, setting, records, spans, d)
         == Some(KeptCount(ownership.presence, setting.sides.source, ownership.deletions[d].anchor))
  {
    hide *;
    PlainIsMatched(ownership, setting);
    AnchorIsFree(ownership, setting, d);
    PlainSizes(ownership, setting);
    CoupledNeighbors(ownership, setting, u, d, records[d].first, records[d].last);
    PlainStands(ownership, setting, records[d].first);
    PlainStands(ownership, setting, records[d].last);
    var source, anchor, after := setting.sides.source, ownership.deletions[d].anchor, records[d].last;
    PlainReversal(ownership, setting, spans, anchor);
    if after != 0 {
      NothingUpToNext(ownership, setting, spans, anchor, after);
    }
    KeptNothing(ownership.presence, source);
    PlaceBetween(ownership, setting, records, spans, d, KeptCount(ownership.presence, source, anchor));
  }

  /** Where the neighbours that stand agree on a place, the claim goes there; without neighbours it goes to the start. */
  lemma PlaceBetween(ownership: BatchOwnership, setting: Setting, records: seq<RestoreRecord>, spans: seq<Span>, d: nat, place: nat)
    requires Matched(ownership, setting) && d < |ownership.deletions| == |records| && records[d].flag == 2
    requires var before, after, size := StandsAt(ownership, setting, records[d].first), StandsAt(ownership, setting, records[d].last), |setting.sides.working|;
      && (before.Some? ==> before.value <= size && |ReversedTo(ownership, setting, spans, before.value)| == place)
      && (after.Some? ==> 1 <= after.value <= size && |ReversedTo(ownership, setting, spans, after.value - 1)| == place)
      && (before.Some? && after.Some? ==> NextTo(ownership, setting, spans, before.value, after.value))
      && (before.None? && after.None? ==> ownership.deletions[d].anchor == 0 && place == 0)
    ensures !Torn(ownership, setting, records, spans, d) && PlaceOf(ownership, setting, records, spans, d) == Some(place)
  {
    hide ReversedTo, StandsAt, NextTo;
  }

  /** With only owned lines in between, nothing is left between an anchor and the next kept line. */
  lemma NothingUpToNext(ownership: BatchOwnership, setting: Setting, spans: seq<Span>, anchor: nat, after: nat)
    requires PlainUndo(ownership, setting) && anchor < after <= |setting.sides.source| == |setting.sides.working|
    requires forall x :: Contains(spans, x) <==> RestoredApart(ownership, setting.sides, x)
    requires forall line :: anchor < line < after ==> Contains(ownership.presence, line)
    ensures NextTo(ownership, setting, spans, anchor, after)
    ensures |ReversedTo(ownership, setting, spans, after - 1)| == KeptCount(ownership.presence, setting.sides.source, anchor)
  {
    hide PlainUndo, RestoredApart, Contains, ReversedTo, LeftBy, Contents, Unselected;
    forall line | anchor < line < after ensures LeftBy(ownership, setting, spans, line) == [] {
      PlainLine(ownership, setting, spans, line);
      NoContents(LeftBy(ownership, setting, spans, line));
    }
    KeptUnchanged(ownership.presence, setting.sides.source, anchor, after - 1);
    PlainReversal(ownership, setting, spans, after - 1);
  }

  lemma NoContents(entries: seq<Entry>)
    requires Contents(entries) == []
    ensures entries == []
  {
    assert |Contents(entries)| == |entries|;
  }

  lemma KeptNothing(presence: seq<Span>, source: seq<Line>)
    ensures KeptCount(presence, source, 0) == 0
  {
  }

  lemma PlainSizes(ownership: BatchOwnership, setting: Setting)
    requires PlainUndo(ownership, setting)
    ensures |setting.sides.working| == |setting.sides.source| && ownership.Valid() && !Contains(ownership.presence, 0)
    ensures OwnAnchors(ownership, setting.sides.source) && FreeAnchors(ownership)
  {
    hide LeavesNothing, Coupling, OwnAnchors, FreeAnchors;
  }

  /** Every old text belongs right behind its anchor. */
  lemma PlainPlace(ownership: BatchOwnership, setting: Setting, records: seq<RestoreRecord>, spans: seq<Span>, d: nat)
    requires PlainUndo(ownership, setting) && RestorePlan(ownership, setting.sides, records, spans) && d < |ownership.deletions|
    ensures Matched(ownership, setting) && |records| == |ownership.deletions| && !Torn(ownership, setting, records, spans, d)
    ensures records[d].flag == 0 || records[d].flag == 2
    ensures ownership.deletions[d].anchor <= |setting.sides.source|
    ensures PlaceOf(ownership, setting, records, spans, d)
         == Some(KeptCount(ownership.presence, setting.sides.source, ownership.deletions[d].anchor))
  {
    PlainIsMatched(ownership, setting);
    PlainSizes(ownership, setting);
    PlanParts(ownership, setting.sides, records, spans);
    assert FinalRecord(ownership, setting.sides, d, records[d]);
    PlainUndoRecord(ownership, setting, d, records[d]);
    var anchor := ownership.deletions[d].anchor;
    AnchorIsFree(ownership, setting, d);
    PlainStands(ownership, setting, anchor);
    PlainStands(ownership, setting, 0);
    hide PlainUndo, Matched, RestoredApart, Contains, BetweenNeighbors, ReversedTo, StandsAt, LeftBy, FinalRecord, Unselected, Names;
    if records[d] == RestoreRecord(0, 0, 0) || records[d] == RestoreRecord(2, 0, 0) {
      PlainReversal(ownership, setting, spans, anchor);
      KeptNothing(ownership.presence, setting.sides.source);
    } else {
      var u :| 0 <= u < |ownership.units| && Names(ownership, u, d) && BetweenNeighbors(ownership, setting.sides, u, records[d].first, records[d].last);
      CoupledPlace(ownership, setting, records, spans, u, d);
    }
  }

  lemma PlanParts(ownership: BatchOwnership, sides: Sides, records: seq<RestoreRecord>, spans: seq<Span>)
    requires ownership.Valid() && RestorePlan(ownership, sides, records, spans)
    ensures FinalRecords(ownership, sides, records) && |records| == |ownership.deletions|
    ensures Normalized(spans) && forall line :: Contains(spans, line) <==> RestoredApart(ownership, sides, line)
  {
    hide FinalRecord, RestoredApart, Normalized, Contains;
  }

  // ------------------------------------------------------------ the undone text

  /** Claims on distinct anchors do not push each other. */
  lemma PlainPush(ownership: BatchOwnership, setting: Setting, lines: seq<Line>, work: Restoration, at: seq<Option<nat>>, k: nat)
    requires PlainUndo(ownership, setting) && work.Valid() && work.claims == ownership.deletions && k < |at| == |work.claims|
    ensures PushOf(lines, work, at, k) == 0
  {
    PlainSizes(ownership, setting);
    hide PlainUndo, FreeAnchors, LastLanding, PushBehind, Missing;
  }

  lemma PlainText(ownership: BatchOwnership, setting: Setting, records: seq<RestoreRecord>, k: nat)
    requires |records| == |ownership.deletions| && k < |records| && (records[k].flag == 0 || records[k].flag == 2)
    requires WorkOf(ownership, setting, records).Valid()
    ensures TextOf(WorkOf(ownership, setting, records), k) == ownership.deletions[k].content
  {
  }

  /** A claim is missing at its place exactly when its old text is not there already, and nothing goes past the end. */
  lemma PlainMissing(ownership: BatchOwnership, setting: Setting, records: seq<RestoreRecord>, spans: seq<Span>, k: nat)
    requires PlainUndo(ownership, setting) && RestorePlan(ownership, setting.sides, records, spans) && k < |ownership.deletions|
    requires WorkOf(ownership, setting, records).Valid()
    ensures Matched(ownership, setting) && |records| == |ownership.deletions| && ownership.deletions[k].anchor <= |setting.sides.source|
    ensures var source, work, at := setting.sides.source, WorkOf(ownership, setting, records), PlacesOf(ownership, setting, records, spans);
      var lines := Unselected(ownership.presence, source, 0, |source|);
      && (Missing(lines, work, at, k) <==> !AlreadyThere(ownership, source, k)) && !Overshoots(lines, work, at, k)
      && at[k] == Some(KeptCount(ownership.presence, source, ownership.deletions[k].anchor)) && PushOf(lines, work, at, k) == 0
  {
    hide PlainUndo, RestorePlan, Matched, PlaceOf, PushOf, PushBehind, LastLanding, Unselected, TextOf, Torn, WorkOf;
    PlainPlace(ownership, setting, records, spans, k);
    PlainText(ownership, setting, records, k);
    WorkIs(ownership, setting, records);
    var source, work, at := setting.sides.source, WorkOf(ownership, setting, records), PlacesOf(ownership, setting, records, spans);
    PlainPush(ownership, setting, Unselected(ownership.presence, source, 0, |source|), work, at, k);
    UnselectedPrefix(ownership.presence, source, 0, ownership.deletions[k].anchor, |source|);
  }

  /** The block at a free line's place is just the old text missing after that line. */
  lemma BlockIsOldText(ownership: BatchOwnership, setting: Setting, records: seq<RestoreRecord>, spans: seq<Span>, line: nat)
    requires PlainUndo(ownership, setting) && RestorePlan(ownership, setting.sides, records, spans)
    requires WorkOf(ownership, setting, records).Valid()
    requires line <= |setting.sides.source| && !Contains(ownership.presence, line)
    ensures Matched(ownership, setting) && |records| == |ownership.deletions|
    ensures var source, work, at := setting.sides.source, WorkOf(ownership, setting, records), PlacesOf(ownership, setting, records, spans);
      BlockUpTo(Unselected(ownership.presence, source, 0, |source|), work, at, |at|, KeptCount(ownership.presence, source, line))
        == OldTextAfter(ownership, source, line)
  {
    hide *;
    PlainIsMatched(ownership, setting);
    PlainSizes(ownership, setting);
    PlanParts(ownership, setting.sides, records, spans);
    WorkIs(ownership, setting, records);
    var source, work, at := setting.sides.source, WorkOf(ownership, setting, records), PlacesOf(ownership, setting, records, spans);
    var lines, q := Unselected(ownership.presence, source, 0, |source|), KeptCount(ownership.presence, source, line);
    forall k | 0 <= k < |at|
      ensures PieceAt(lines, work, at, k, q)
           == if ownership.deletions[k].anchor == line && !AlreadyThere(ownership, source, k) then TextOf(work, k) else []
    {
      PlainPiece(ownership, setting, records, spans, line, k);
    }
    AnchorsDiffer(ownership, source);
    if k: nat :| k < |at| && ownership.deletions[k].anchor == line && !AlreadyThere(ownership, source, k) {
      LonePiece(lines, work, at, |at|, k, q);
      PlainMissingText(ownership, setting, records, spans, k);
      OldTextIs(ownership, source, line, k);
    } else {
      NoPiece(lines, work, at, |at|, q);
      NoOldTextAt(ownership, source, line);
    }
  }

  lemma WorkIs(ownership: BatchOwnership, setting: Setting, records: seq<RestoreRecord>)
    ensures WorkOf(ownership, setting, records).claims == ownership.deletions
  {
  }

  lemma AnchorsDiffer(ownership: BatchOwnership, source: seq<Line>)
    requires OwnAnchors(ownership, source)
    ensures forall j, k :: 0 <= j < |ownership.deletions| && 0 <= k < |ownership.deletions| && j != k ==>
      ownership.deletions[j].anchor != ownership.deletions[k].anchor
  {
  }

  lemma PlainMissingText(ownership: BatchOwnership, setting: Setting, records: seq<RestoreRecord>, spans: seq<Span>, k: nat)
    requires PlainUndo(ownership, setting) && RestorePlan(ownership, setting.sides, records, spans) && k < |ownership.deletions|
    requires WorkOf(ownership, setting, records).Valid()
    ensures TextOf(WorkOf(ownership, setting, records), k) == ownership.deletions[k].content
  {
    PlainPlace(ownership, setting, records, spans, k);
    PlainText(ownership, setting, records, k);
  }

  lemma PlainPiece(ownership: BatchOwnership, setting: Setting, records: seq<RestoreRecord>, spans: seq<Span>, line: nat, k: nat)
    requires PlainUndo(ownership, setting) && RestorePlan(ownership, setting.sides, records, spans) && k < |ownership.deletions|
    requires WorkOf(ownership, setting, records).Valid()
    requires line <= |setting.sides.source| && !Contains(ownership.presence, line)
    ensures Matched(ownership, setting) && |records| == |ownership.deletions| && ownership.deletions[k].anchor <= |setting.sides.source|
    ensures var source, work, at := setting.sides.source, WorkOf(ownership, setting, records), PlacesOf(ownership, setting, records, spans);
      PieceAt(Unselected(ownership.presence, source, 0, |source|), work, at, k, KeptCount(ownership.presence, source, line))
        == if ownership.deletions[k].anchor == line && !AlreadyThere(ownership, source, k) then TextOf(work, k) else []
  {
    PlainMissing(ownership, setting, records, spans, k);
    AnchorIsFree(ownership, setting, k);
    var source, anchor := setting.sides.source, ownership.deletions[k].anchor;
    hide PlainUndo, RestorePlan, Matched, PlaceOf, AlreadyThere, TextOf, PushOf, Missing, Contains, Unselected;
    if KeptCount(ownership.presence, source, anchor) == KeptCount(ownership.presence, source, line) {
      SamePlace(ownership.presence, source, anchor, line);
    }
  }

  lemma {:induction false} NoPiece(lines: seq<Line>, work: Restoration, at: seq<Option<nat>>, count: nat, q: nat)
    requires work.Valid() && count <= |at| == |work.claims| && forall j :: 0 <= j < |at| ==> PieceAt(lines, work, at, j, q) == []
    ensures BlockUpTo(lines, work, at, count, q) == []
  {
    hide PieceAt;
    if count > 0 {
      NoPiece(lines, work, at, count - 1, q);
    }
  }

  lemma OldTextIs(ownership: BatchOwnership, source: seq<Line>, line: nat, k: nat)
    requires OwnAnchors(ownership, source) && line <= |source|
    requires k < |ownership.deletions| && ownership.deletions[k].anchor == line && !AlreadyThere(ownership, source, k)
    ensures OldTextAfter(ownership, source, line) == ownership.deletions[k].content
  {
    hide AlreadyThere;
  }

  lemma NoOldTextAt(ownership: BatchOwnership, source: seq<Line>, line: nat)
    requires OwnAnchors(ownership, source) && line <= |source|
    requires forall k :: 0 <= k < |ownership.deletions| && ownership.deletions[k].anchor == line ==> AlreadyThere(ownership, source, k)
    ensures OldTextAfter(ownership, source, line) == []
  {
    hide AlreadyThere;
  }

  lemma NoOldText(ownership: BatchOwnership, setting: Setting, line: nat)
    requires PlainUndo(ownership, setting) && line <= |setting.sides.source| && Contains(ownership.presence, line)
    ensures OldTextAfter(ownership, setting.sides.source, line) == []
  {
  }

  /** The blocks at the places of free lines are the old texts missing there. */
  ghost predicate HoldOldTexts(ownership: BatchOwnership, source: seq<Line>, blocks: seq<seq<Line>>) {
    && |blocks| == KeptCount(ownership.presence, source, |source|) + 1
    && forall line: nat :: line <= |source| && !Contains(ownership.presence, line) ==>
         && KeptCount(ownership.presence, source, line) < |blocks|
         && blocks[KeptCount(ownership.presence, source, line)] == OldTextAfter(ownership, source, line)
  }

  /** The weave up to a line's place reads as the declared text up to that line. */
  ghost predicate WovenTo(ownership: BatchOwnership, source: seq<Line>, blocks: seq<seq<Line>>, line: nat)
    requires line <= |source|
  {
    var lines, q := Unselected(ownership.presence, source, 0, |source|), KeptCount(ownership.presence, source, line);
    q < |blocks| == |lines| + 1 && Woven(lines, blocks, q) == UndoneTo(ownership, source, line)
  }

  lemma WeaveStarts(ownership: BatchOwnership, source: seq<Line>, blocks: seq<seq<Line>>)
    requires HoldOldTexts(ownership, source, blocks) && !Contains(ownership.presence, 0)
    ensures WovenTo(ownership, source, blocks, 0)
  {
    hide OldTextAfter, Contains;
    KeptNothing(ownership.presence, source);
    var line: nat := 0;
    assert blocks[KeptCount(ownership.presence, source, line)] == OldTextAfter(ownership, source, line);
  }

  lemma WeaveSkips(ownership: BatchOwnership, source: seq<Line>, blocks: seq<seq<Line>>, line: nat)
    requires 1 <= line <= |source| && Contains(ownership.presence, line) && OldTextAfter(ownership, source, line) == []
    requires WovenTo(ownership, source, blocks, line - 1)
    ensures WovenTo(ownership, source, blocks, line)
  {
    hide OldTextAfter, Contains, Woven;
    assert UndoneTo(ownership, source, line) == UndoneTo(ownership, source, line - 1) + [] + [];
    assert Unselected(ownership.presence, source, 0, line) == Unselected(ownership.presence, source, 0, line - 1);
  }

  lemma WeaveKeeps(ownership: BatchOwnership, source: seq<Line>, blocks: seq<seq<Line>>, line: nat)
    requires 1 <= line <= |source| && !Contains(ownership.presence, line) && HoldOldTexts(ownership, source, blocks)
    requires WovenTo(ownership, source, blocks, line - 1)
    ensures WovenTo(ownership, source, blocks, line)
  {
    KeptAt(ownership.presence, source, line);
    hide OldTextAfter, Contains, Unselected;
    assert blocks[KeptCount(ownership.presence, source, line)] == OldTextAfter(ownership, source, line);
  }

  lemma {:induction false} WeaveIsUndone(ownership: BatchOwnership, setting: Setting, blocks: seq<seq<Line>>, line: nat)
    requires PlainUndo(ownership, setting) && line <= |setting.sides.source| && HoldOldTexts(ownership, setting.sides.source, blocks)
    ensures WovenTo(ownership, setting.sides.source, blocks, line)
  {
    var source := setting.sides.source;
    PlainSizes(ownership, setting);
    hide WovenTo, HoldOldTexts, Contains, PlainUndo;
    if line == 0 {
      WeaveStarts(ownership, source, blocks);
    } else {
      WeaveIsUndone(ownership, setting, blocks, line - 1);
      if Contains(ownership.presence, line) {
        NoOldText(ownership, setting, line);
        WeaveSkips(ownership, source, blocks, line);
      } else {
        WeaveKeeps(ownership, source, blocks, line);
      }
    }
  }

  /**
   Undo meets its declared meaning: exactly the source, owned lines dropped, with each missing
   old text right after its anchor.
   */
  lemma DiscardMeetsItsMeaning(ownership: BatchOwnership, setting: Setting, records: seq<RestoreRecord>, spans: seq<Span>)
    requires PlainUndo(ownership, setting) && RestorePlan(ownership, setting.sides, records, spans)
    ensures WorkOf(ownership, setting, records).Valid()
    ensures Undone(ownership, setting, records, spans) == Ok(UndoneTo(ownership, setting.sides.source, |setting.sides.source|))
  {
    hide PlainUndo, RestorePlan, Matched, Undone, BlockedAt, ReversedTo, Torn, Overshoots, Unselected, Contains, RestoredApart, FinalRecords;
    hide UndoneTo, OldTextAfter, PlaceOf, BlockUpTo, Woven, Contents, OwnAnchors, FreeAnchors, WorkOf, RequestOf;
    PlainIsMatched(ownership, setting);
    PlainSizes(ownership, setting);
    PlanParts(ownership, setting.sides, records, spans);
    UndoInWorktree(ownership, setting, records, spans);
    PlainReversal(ownership, setting, spans, |setting.sides.source|);
    var source, work, at := setting.sides.source, WorkOf(ownership, setting, records), PlacesOf(ownership, setting, records, spans);
    var lines := Unselected(ownership.presence, source, 0, |source|);
    WorkIs(ownership, setting, records);
    forall t | 1 <= t <= |setting.sides.working| ensures !BlockedAt(ownership, setting, spans, t) {
      PlainLine(ownership, setting, spans, t);
    }
    forall k | 0 <= k < |records| ensures !Torn(ownership, setting, records, spans, k) && !Overshoots(lines, work, at, k) {
      PlainPlace(ownership, setting, records, spans, k);
      PlainMissing(ownership, setting, records, spans, k);
    }
    forall x: nat | x <= |source| && !Contains(ownership.presence, x)
      ensures KeptCount(ownership.presence, source, x) <= |lines|
      ensures BlockUpTo(lines, work, at, |at|, KeptCount(ownership.presence, source, x)) == OldTextAfter(ownership, source, x)
    {
      UnselectedPrefix(ownership.presence, source, 0, x, |source|);
      BlockIsOldText(ownership, setting, records, spans, x);
    }
    WeaveIsUndone(ownership, setting, Blocks(lines, work, at), |source|);
  }
}
