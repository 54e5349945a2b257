/**
 Undoing a batch in a worktree: realized entries, restore records, presence reversal and
 restoration in sequence (batch/discard.py:519-722, 996-1012, batch/realization/mapping.py).
 */
module Discard {
  import opened Wrappers
  import opened Sequences
  import opened LineRanges
  import opened Realized
  import opened LineMatching
  import opened BaselineCorrespondence
  import opened DiscardReversal
  import opened Ownership
  import opened DiscardRestoration
  import opened SupersededDeletions
  import opened ReplacementGroups
  import opened ReplacementClaims
  import opened ReplacementRecords

  // ------------------------------------------------------ the realized worktree

  /** The source line a worktree line is matched with; 0 when there is none. */
  function SourceOf(mapping: LineMapping, target: nat): nat {
    if mapping.Source(target).Some? then mapping.Source(target).value else 0
  }

  function IsClaimed(claimed: seq<Span>, source: nat): bool {
    source != 0 && Contains(claimed, source)
  }

  function WorkingProvenance(mapping: LineMapping, claimed: seq<Span>, index: nat): Provenance {
    var source := SourceOf(mapping, index + 1);
    Provenance(source, index + 1, IsClaimed(claimed, source))
  }

  /** One entry per worktree line, with the line's provenance. */
  function WorkingEntries(working: seq<Line>, mapping: LineMapping, claimed: seq<Span>): (entries: seq<Entry>)
    ensures |entries| == |working|
    ensures forall i :: 0 <= i < |entries| ==> entries[i] == Entry(working[i], WorkingProvenance(mapping, claimed, i))
  {
    seq(|working|, i requires 0 <= i < |working| => Entry(working[i], WorkingProvenance(mapping, claimed, i)))
  }

  /** Read through the mapping itself: a worktree line comes from just the source line that stands there. */
  lemma WorkingLineComesFrom(working: seq<Line>, mapping: LineMapping, claimed: seq<Span>, i: nat)
    requires mapping.Inverse() && i < |working|
    ensures var entry := WorkingEntries(working, mapping, claimed)[i];
      && entry.content == working[i] && entry.provenance.target == i + 1
      && (forall s: nat :: s > 0 ==> (entry.provenance.source == s <==> s in mapping.toTarget && mapping.toTarget[s] == i + 1))
      && (entry.provenance.claimed <==>
           exists s: nat :: s > 0 && s in mapping.toTarget && mapping.toTarget[s] == i + 1 && Contains(claimed, s))
  {
    hide Contains;
    var source := SourceOf(mapping, i + 1);
    assert WorkingEntries(working, mapping, claimed)[i] == Entry(working[i], Provenance(source, i + 1, IsClaimed(claimed, source)));
    if IsClaimed(claimed, source) {
      assert source in mapping.toTarget && mapping.toTarget[source] == i + 1;
    }
  }

  predicate SourceLinesAreContiguous(previous: nat, next: nat) {
    if previous == 0 || next == 0 then previous == 0 && next == 0 else next == previous + 1
  }

  /** The worktree lines from..upto read from `source` on, all claimed or none. */
  ghost predicate OneRun(mapping: LineMapping, claimed: seq<Span>, from: nat, upto: nat, source: nat, isClaimed: bool) {
    forall i :: from <= i < upto ==>
      WorkingProvenance(mapping, claimed, i) == Provenance(Advance(source, i - from), i + 1, isClaimed)
  }

  lemma RunIsLinear(working: seq<Line>, mapping: LineMapping, claimed: seq<Span>, from: nat, upto: nat, source: nat, isClaimed: bool)
    requires from <= upto <= |working| && OneRun(mapping, claimed, from, upto, source, isClaimed)
    ensures LinearEntries(working[from..upto], source, from + 1, isClaimed) == WorkingEntries(working, mapping, claimed)[from..upto]
  {
    var left, right := LinearEntries(working[from..upto], source, from + 1, isClaimed), WorkingEntries(working, mapping, claimed)[from..upto];
    forall k | 0 <= k < upto - from ensures left[k] == right[k] {
      assert WorkingProvenance(mapping, claimed, from + k) == Provenance(Advance(source, k), from + k + 1, isClaimed);
      assert right[k] == WorkingEntries(working, mapping, claimed)[from + k];
    }
  }

  /** Append one collected run. */
  method AppendRunTo(result: RealizedEntries, working: seq<Line>, mapping: LineMapping, presence: seq<Span>,
                     start: nat, runStart: nat, end: nat, source: nat, isClaimed: bool, ghost before: seq<Entry>)
    requires result.Valid() && start <= runStart <= end <= |working|
    requires OneRun(mapping, presence, runStart, end, source, isClaimed)
    requires result.Entries() == before + WorkingEntries(working, mapping, presence)[start..runStart]
    modifies result
    ensures result.Valid()
    ensures result.Entries() == before + WorkingEntries(working, mapping, presence)[start..end]
  {
    RunIsLinear(working, mapping, presence, runStart, end, source, isClaimed);
    JoinSlices(before, WorkingEntries(working, mapping, presence), start, runStart, end);
    result.AppendLineRange(working, runStart, end, source, runStart + 1, isClaimed);
  }

  /** Append the worktree as runs, cut only where provenance stops being contiguous. */
  method AppendWorkingRangeWithMapping(result: RealizedEntries, working: seq<Line>, mapping: LineMapping, start: nat, end: nat,
                                       presence: seq<Span>)
    requires result.Valid() && start <= end <= |working|
    modifies result
    ensures result.Valid()
    ensures result.Entries() == old(result.Entries()) + WorkingEntries(working, mapping, presence)[start..end]
  {
    hide WorkingEntries, OneRun;
    ghost var before := result.Entries();
    EmptySlice(before, WorkingEntries(working, mapping, presence), start);
    if start == end {
      return;
    }
    var runStart, runSource := start, SourceOf(mapping, start + 1);
    var previous, runClaimed := runSource, IsClaimed(presence, runSource);
    OneLineRun(mapping, presence, start);
    var index := start + 1;
    while index < end
      invariant start <= runStart < index <= end && result.Valid()
      invariant OneRun(mapping, presence, runStart, index, runSource, runClaimed)
      invariant previous == Advance(runSource, index - 1 - runStart)
      invariant result.Entries() == before + WorkingEntries(working, mapping, presence)[start..runStart]
    {
      var source := SourceOf(mapping, index + 1);
      var isClaimed := IsClaimed(presence, source);
      if isClaimed == runClaimed && SourceLinesAreContiguous(previous, source) {
        RunGoesOn(mapping, presence, runStart, index, runSource, runClaimed);
        previous := source;
      } else {
        AppendRunTo(result, working, mapping, presence, start, runStart, index, runSource, runClaimed, before);
        OneLineRun(mapping, presence, index);
        runStart, runSource, previous, runClaimed := index, source, source, isClaimed;
      }
      index := index + 1;
    }
    AppendRunTo(result, working, mapping, presence, start, runStart, end, runSource, runClaimed, before);
  }

  lemma RunGoesOn(mapping: LineMapping, presence: seq<Span>, from: nat, index: nat, source: nat, isClaimed: bool)
    requires from < index && OneRun(mapping, presence, from, index, source, isClaimed)
    requires IsClaimed(presence, SourceOf(mapping, index + 1)) == isClaimed
    requires SourceLinesAreContiguous(Advance(source, index - 1 - from), SourceOf(mapping, index + 1))
    ensures OneRun(mapping, presence, from, index + 1, source, isClaimed)
    ensures SourceOf(mapping, index + 1) == Advance(source, index - from)
  {
  }

  lemma OneLineRun(mapping: LineMapping, presence: seq<Span>, index: nat)
    ensures var source := SourceOf(mapping, index + 1);
      OneRun(mapping, presence, index, index + 1, source, IsClaimed(presence, source))
  {
  }

  // --------------------------------------------------------------- the pipeline

  datatype DiscardError = CannotReverse(reversal: ReversalError) | CannotRestoreText(restoration: RestoreError)

  /** What the matchers hand to the undo of one file. */
  datatype Setting = Setting(
    sides: Sides,
    regions: seq<Region>,
    trustedInsertions: seq<Span>,
    independent: seq<Span>,
    structural: seq<Span>)
  {
    ghost predicate Valid() {
      && sides.Valid() && Ordered(regions)
      && Normalized(trustedInsertions) && Normalized(independent) && Normalized(structural)
    }
  }

  function RequestOf(ownership: BatchOwnership, setting: Setting, spans: seq<Span>): Request {
    Request(ownership.presence, setting.structural, setting.trustedInsertions, setting.independent, spans,
      setting.sides.preserved, setting.regions)
  }

  function WorkOf(ownership: BatchOwnership, setting: Setting, records: seq<RestoreRecord>): Restoration {
    Restoration(ownership.deletions, Some(records),
      if setting.sides.trusted.Some? then Some(setting.sides.trusted.value.lines) else None)
  }

  /** The restore records and the lines restored apart that the claims of the batch call for. */
  ghost predicate RestorePlan(ownership: BatchOwnership, sides: Sides, records: seq<RestoreRecord>, spans: seq<Span>)
    requires ownership.Valid()
  {
    && FinalRecords(ownership, sides, records)
    && Normalized(spans) && forall line :: Contains(spans, line) <==> RestoredApart(ownership, sides, line)
  }

  /** Nothing about them is left open. */
  lemma RestorePlanIsUnique(ownership: BatchOwnership, sides: Sides, a: seq<RestoreRecord>, b: seq<RestoreRecord>, left: seq<Span>, right: seq<Span>)
    requires ownership.Valid() && RestorePlan(ownership, sides, a, left) && RestorePlan(ownership, sides, b, right)
    ensures a == b && left == right
  {
    hide FinalRecords, RestoredApart, Normalized, Contains;
    FinalRecordsAreUnique(ownership, sides, a, b);
    NormalizedIsCanonical(left, right);
  }

  /** The undone text, given the restore records and the lines restored apart. */
  ghost function Undone(ownership: BatchOwnership, setting: Setting, records: seq<RestoreRecord>, spans: seq<Span>): Result<seq<Line>, DiscardError>
    requires WorkOf(ownership, setting, records).Valid()
  {
    var entries := WorkingEntries(setting.sides.working, setting.sides.toWorking, []);
    match ReversalResult(RequestOf(ownership, setting, spans), PreservedFirst, entries)
    case Err(error) => Err(CannotReverse(error))
    case Ok(reversed) =>
      match Restore(reversed, WorkOf(ownership, setting, records))
      case Err(error) => Err(CannotRestoreText(error))
      case Ok(restored) => Ok(Contents(restored))
  }

  /** Undo one batch in one worktree file. */
  method DiscardBatch(hashes: Hashes, ownership: BatchOwnership, setting: Setting)
    returns (outcome: Result<seq<Line>, DiscardError>, ghost records: seq<RestoreRecord>, ghost spans: seq<Span>)
    requires ownership.Valid() && setting.Valid()
    ensures CannotRestore(ownership, setting.sides) ==> outcome.Err? && outcome.error.CannotRestoreText?
    ensures !CannotRestore(ownership, setting.sides) ==>
      && RestorePlan(ownership, setting.sides, records, spans) && WorkOf(ownership, setting, records).Valid()
      && outcome == Undone(ownership, setting, records, spans)
  {
    hide CannotRestore, FinalRecords, Contains, ReversalResult, Restore, Contents, RestoredApart;
    var restoreRecords := ReplacementDeletionRestoreRecords(hashes, ownership, setting.sides);
    if restoreRecords.Err? {
      return Err(CannotRestoreText(restoreRecords.error)), [], [];
    }
    records, spans := restoreRecords.value.0, restoreRecords.value.1;
    RecordsFit(ownership, setting.sides, records);
    var working := setting.sides.working;
    var entries := new RealizedEntries();
    AppendWorkingRangeWithMapping(entries, working, setting.sides.toWorking, 0, |working|, []);
    ghost var all := WorkingEntries(working, setting.sides.toWorking, []);
    assert [] + all[0..|working|] == all;
    var request := RequestOf(ownership, setting, restoreRecords.value.1);
    SameContents(entries.contents, entries.Entries(), working);
    var reversed := ReverseByRuns(request, entries, Some(working));
    if reversed.Err? {
      return Err(CannotReverse(reversed.error)), records, spans;
    }
    var restored := RestoreAbsenceConstraints(reversed.value, WorkOf(ownership, setting, restoreRecords.value.0));
    if restored.Err? {
      return Err(CannotRestoreText(restored.error)), records, spans;
    }
    ContentsOfZip(restored.value.contents, restored.value.Entries());
    outcome := Ok(restored.value.contents);
  }

  lemma SameContents(contents: seq<Line>, entries: seq<Entry>, lines: seq<Line>)
    requires |entries| == |lines| == |contents| && forall i :: 0 <= i < |entries| ==> entries[i].content == lines[i]
    ensures WithContents(entries, lines) == entries
  {
  }
}
