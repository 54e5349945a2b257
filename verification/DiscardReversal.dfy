/**
 Undoing owned additions through baseline regions (batch/discard_reversal.py).

 `Reverse` is the meaning of both reversal paths: a left-to-right reading of the
 entries that keeps an entry, drops it, or replaces it with baseline text.  The
 two methods below compute it through provenance runs and entry by entry.
 */
module DiscardReversal {
  import opened Wrappers
  import opened Sequences
  import opened LineRanges
  import opened Realized
  import opened BaselineCorrespondence

  datatype ReversalError =
    | IndependentNotTrusted
    | NoRegion(line: nat)
    | OutsideRegion(line: nat, offset: int)
    | MixedHunk(first: nat, last: nat)
    | PartialHunk(first: nat, last: nat, owned: nat, total: int)

  /** What the caller asks for; every selection is normalized. */
  datatype Request = Request(
    presence: seq<Span>,
    structural: seq<Span>,
    trusted: seq<Span>,
    independent: seq<Span>,
    separatelyRestored: seq<Span>,
    preserved: set<nat>,
    regions: seq<Region>)
  {
    ghost predicate Valid() {
      && Normalized(presence) && Normalized(structural) && Normalized(trusted)
      && Normalized(independent) && Normalized(separatelyRestored)
      && Ordered(regions)
    }

    predicate Reversed(line: nat) {
      Contains(presence, line) || Contains(structural, line)
    }
  }

  /** Which of the two exemptions a path consults first. */
  datatype Order = PreservedFirst | StructuralFirst

  predicate Removes(request: Request, order: Order, line: nat) {
    && line != 0
    && request.Reversed(line)
    && match order
       case PreservedFirst => line !in request.preserved
       case StructuralFirst => Contains(request.structural, line) || line !in request.preserved
  }

  /** What one entry turns into. */
  datatype Piece =
    | Kept(entry: Entry)
    | Dropped
    | OldLine(region: Region, content: Line)
    | OldHunk(region: Region)

  /** Restored baseline text carries no provenance. */
  function Unowned(lines: seq<Line>): (entries: seq<Entry>)
    ensures |entries| == |lines|
    ensures forall i :: 0 <= i < |lines| ==> entries[i] == Entry(lines[i], Provenance(0, 0, false))
  {
    seq(|lines|, i requires 0 <= i < |lines| => Entry(lines[i], Provenance(0, 0, false)))
  }

  function Render(piece: Piece): seq<Entry> {
    match piece
    case Kept(entry) => [entry]
    case Dropped => []
    case OldLine(_, content) => Unowned([content])
    case OldHunk(region) => Unowned(region.baseline)
  }

  function RenderUpTo(pieces: seq<Piece>, count: nat): seq<Entry>
    requires count <= |pieces|
  {
    if count == 0 then [] else RenderUpTo(pieces, count - 1) + Render(pieces[count - 1])
  }

  datatype Restored = Restored(piece: Piece, hunks: set<nat>)

  ghost predicate HunkTouchesTrusted(request: Request, region: Region) {
    exists line :: region.first <= line <= region.last && Contains(request.trusted, line)
  }

  /** The hunk that replaces one removed line of a by-hunk region, if it is still to come. */
  ghost function RestoreHunk(request: Request, region: Region, line: nat, hunks: set<nat>): Result<Restored, ReversalError> {
    if Contains(request.independent, line) || Contains(request.separatelyRestored, line) then Ok(Restored(Dropped, hunks))
    else if HunkTouchesTrusted(request, region) then Err(MixedHunk(region.first, region.last))
    else if region.id in hunks then Ok(Restored(Dropped, hunks))
    else
      var owned := CountLines(request.presence, region.first, region.last);
      var total := region.last - region.first + 1;
      if owned != total then Err(PartialHunk(region.first, region.last, owned, total))
      else Ok(Restored(OldHunk(region), hunks + {region.id}))
  }

  /** The baseline text that replaces one removed source line. */
  ghost function RestoreLine(request: Request, line: nat, hunks: set<nat>): (r: Result<Restored, ReversalError>)
    ensures r.Ok? ==> !r.value.piece.Kept?
  {
    match RegionFor(request.regions, line)
    case None => Err(NoRegion(line))
    case Some(region) =>
      match region.kind
      case Insert => Ok(Restored(Dropped, hunks))
      case ReplaceByHunk => RestoreHunk(request, region, line, hunks)
      case _ =>
        var offset := line - region.first;
        if offset < |region.baseline| then Ok(Restored(OldLine(region, region.baseline[offset]), hunks))
        else Err(OutsideRegion(line, offset))
  }

  /** What one entry turns into, given the hunks that were restored before it. */
  ghost function Treat(request: Request, order: Order, entry: Entry, hunks: set<nat>): Result<Restored, ReversalError> {
    var line := entry.provenance.source;
    if !Removes(request, order, line) then Ok(Restored(Kept(entry), hunks))
    else if Contains(request.structural, line) then Ok(Restored(Dropped, hunks))
    else RestoreLine(request, line, hunks)
  }

  /** The pieces of the entries read so far, what they render to, and the hunks restored. */
  datatype Progress = Progress(pieces: seq<Piece>, output: seq<Entry>, hunks: set<nat>)

  function Add(progress: Progress, restored: Restored): Progress {
    Progress(progress.pieces + [restored.piece], progress.output + Render(restored.piece), restored.hunks)
  }

  /** The first `count` entries after reversal. */
  ghost function ReverseUpTo(request: Request, order: Order, entries: seq<Entry>, count: nat): (r: Result<Progress, ReversalError>)
    requires count <= |entries|
    ensures r.Ok? ==> |r.value.pieces| == count
  {
    if count == 0 then Ok(Progress([], [], {}))
    else
      match ReverseUpTo(request, order, entries, count - 1)
      case Err(error) => Err(error)
      case Ok(progress) =>
        match Treat(request, order, entries[count - 1], progress.hunks)
        case Err(error) => Err(error)
        case Ok(restored) => Ok(Add(progress, restored))
  }

  /** The meaning of a whole reversal. */
  ghost function Reverse(request: Request, order: Order, entries: seq<Entry>): Result<seq<Entry>, ReversalError> {
    match ReverseUpTo(request, order, entries, |entries|)
    case Err(error) => Err(error)
    case Ok(progress) => Ok(progress.output)
  }

  /** Reversal as the caller sees it: independent lines must be trusted first. */
  ghost function ReversalResult(request: Request, order: Order, entries: seq<Entry>): Result<seq<Entry>, ReversalError> {
    if IsSubset(request.independent, request.trusted) then Reverse(request, order, entries)
    else Err(IndependentNotTrusted)
  }

  lemma {:induction false} ErrorStays(request: Request, order: Order, entries: seq<Entry>, upto: nat, count: nat)
    requires upto <= count <= |entries| && ReverseUpTo(request, order, entries, upto).Err?
    ensures ReverseUpTo(request, order, entries, count) == ReverseUpTo(request, order, entries, upto)
    decreases count
  {
    if upto < count {
      ErrorStays(request, order, entries, upto, count - 1);
    }
  }

  lemma KeepsNext(request: Request, order: Order, entries: seq<Entry>, count: nat)
    requires count < |entries| && ReverseUpTo(request, order, entries, count).Ok?
    requires !Removes(request, order, entries[count].provenance.source)
    ensures ReverseUpTo(request, order, entries, count + 1).Ok?
    ensures ReverseUpTo(request, order, entries, count + 1).value.output
         == ReverseUpTo(request, order, entries, count).value.output + [entries[count]]
    ensures ReverseUpTo(request, order, entries, count + 1).value.hunks == ReverseUpTo(request, order, entries, count).value.hunks
  {
  }

  lemma {:induction false} KeepsStretch(request: Request, order: Order, entries: seq<Entry>, from: nat, upto: nat)
    requires from <= upto <= |entries| && ReverseUpTo(request, order, entries, from).Ok?
    requires forall i :: from <= i < upto ==> !Removes(request, order, entries[i].provenance.source)
    ensures ReverseUpTo(request, order, entries, upto).Ok?
    ensures ReverseUpTo(request, order, entries, upto).value.output
         == ReverseUpTo(request, order, entries, from).value.output + entries[from..upto]
    ensures ReverseUpTo(request, order, entries, upto).value.hunks == ReverseUpTo(request, order, entries, from).value.hunks
    decreases upto
  {
    hide ReverseUpTo, Removes;
    if from < upto {
      KeepsStretch(request, order, entries, from, upto - 1);
      KeepsNext(request, order, entries, upto - 1);
      ExtendSlice(ReverseUpTo(request, order, entries, from).value.output, entries, from, upto);
    } else {
      assert entries[from..upto] == [];
    }
  }

  // ---------------------------------------------------------------- the paths

  /**
   The entries before `cursor` have been dealt with, and `output` holds all of their
   result except the kept stretch from `copied` on, which is still to be copied.
   */
  ghost predicate Reached(request: Request, order: Order, entries: seq<Entry>, copied: nat, cursor: nat,
                          output: seq<Entry>, restoredHunks: set<nat>) {
    && copied <= cursor <= |entries|
    && match ReverseUpTo(request, order, entries, cursor)
       case Ok(progress) => progress.output == output + entries[copied..cursor] && progress.hunks == restoredHunks
       case Err(_) => false
  }

  lemma ReachedFlushed(request: Request, order: Order, entries: seq<Entry>, copied: nat, cursor: nat,
                       output: seq<Entry>, restoredHunks: set<nat>)
    requires Reached(request, order, entries, copied, cursor, output, restoredHunks)
    ensures Reached(request, order, entries, cursor, cursor, output + entries[copied..cursor], restoredHunks)
  {
    EmptySlice(output + entries[copied..cursor], entries, cursor);
  }

  /** What removing one source line calls for. */
  method PlanSourceLine(request: Request, line: nat, restoredHunks: set<nat>)
    returns (plan: Result<Restored, ReversalError>)
    requires request.Valid()
    ensures plan == RestoreLine(request, line, restoredHunks)
  {
    var region := GetRegionForSourceLine(request.regions, line);
    if region.None? {
      return Err(NoRegion(line));
    }
    var r := region.value;
    match r.kind {
      case Insert =>
        plan := Ok(Restored(Dropped, restoredHunks));
      case ReplaceByHunk =>
        plan := PlanHunkLine(request, r, line, restoredHunks);
      case _ =>
        var offset := line - r.first;
        if offset < |r.baseline| {
          plan := Ok(Restored(OldLine(r, r.baseline[offset]), restoredHunks));
        } else {
          plan := Err(OutsideRegion(line, offset));
        }
    }
  }

  /** A by-hunk region is restored whole, once, and only when all of it is owned. */
  method PlanHunkLine(request: Request, region: Region, line: nat, restoredHunks: set<nat>)
    returns (plan: Result<Restored, ReversalError>)
    requires request.Valid() && region.first <= region.last
    ensures plan == RestoreHunk(request, region, line, restoredHunks)
  {
    var independent := SortedContains(request.independent, line);
    if independent {
      return Ok(Restored(Dropped, restoredHunks));
    }
    var separate := SortedContains(request.separatelyRestored, line);
    if separate {
      return Ok(Restored(Dropped, restoredHunks));
    }
    var mixed := NormalizedRangesOverlap(request.trusted, region.first, region.last);
    if mixed {
      return Err(MixedHunk(region.first, region.last));
    }
    if region.id in restoredHunks {
      return Ok(Restored(Dropped, restoredHunks));
    }
    var owned := Count(request.presence, region.first, region.last);
    var total := region.last - region.first + 1;
    if owned != total {
      return Err(PartialHunk(region.first, region.last, owned, total));
    }
    return Ok(Restored(OldHunk(region), restoredHunks + {region.id}));
  }

  /** Write the baseline text of one removed source line. */
  method RestoreSourceLine(request: Request, line: nat, result: RealizedEntries, restoredHunks: set<nat>)
    returns (outcome: Result<set<nat>, ReversalError>)
    requires request.Valid() && result.Valid()
    modifies result
    ensures result.Valid()
    ensures match RestoreLine(request, line, restoredHunks)
            case Err(error) => outcome == Err(error)
            case Ok(added) =>
              && outcome == Ok(added.hunks)
              && result.Entries() == old(result.Entries()) + Render(added.piece)
  {
    var plan := PlanSourceLine(request, line, restoredHunks);
    if plan.Err? {
      return Err(plan.error);
    }
    WritePiece(result, plan.value.piece);
    outcome := Ok(plan.value.hunks);
  }

  method WritePiece(result: RealizedEntries, piece: Piece)
    requires result.Valid() && !piece.Kept?
    modifies result
    ensures result.Valid() && result.Entries() == old(result.Entries()) + Render(piece)
  {
    if piece.Dropped? {
      return;
    }
    var lines := if piece.OldLine? then [piece.content] else piece.region.baseline;
    result.AppendLineRange(lines, 0, |lines|, 0, 0, false);
    UnownedIsLinear(lines);
  }

  lemma UnownedIsLinear(lines: seq<Line>)
    ensures LinearEntries(lines[0..|lines|], 0, 0, false) == Unowned(lines)
  {
    assert lines[0..|lines|] == lines;
  }

  lemma ReachesFurther(request: Request, order: Order, entries: seq<Entry>, copied: nat, cursor: nat, further: nat,
                       output: seq<Entry>, restoredHunks: set<nat>)
    requires Reached(request, order, entries, copied, cursor, output, restoredHunks)
    requires cursor <= further <= |entries|
    requires forall i :: cursor <= i < further ==> !Removes(request, order, entries[i].provenance.source)
    ensures Reached(request, order, entries, copied, further, output, restoredHunks)
  {
    KeepsStretch(request, order, entries, cursor, further);
    JoinSlices(output, entries, copied, cursor, further);
  }

  /** After a flush, one removed entry moves the reversal past its index. */
  lemma StepsOver(request: Request, order: Order, entries: seq<Entry>, index: nat, output: seq<Entry>, restoredHunks: set<nat>)
    requires index < |entries| && Reached(request, order, entries, index, index, output, restoredHunks)
    requires Removes(request, order, entries[index].provenance.source)
    ensures var line := entries[index].provenance.source;
      if Contains(request.structural, line) then
        Reached(request, order, entries, index + 1, index + 1, output, restoredHunks)
      else
        match RestoreLine(request, line, restoredHunks)
        case Ok(added) =>
          Reached(request, order, entries, index + 1, index + 1, output + Render(added.piece), added.hunks)
        case Err(error) =>
          ReverseUpTo(request, order, entries, |entries|) == Err(error)
  {
    hide RestoreLine, Removes;
    EmptySlice(output, entries, index);
    if ReverseUpTo(request, order, entries, index + 1).Ok? {
      EmptySlice(ReverseUpTo(request, order, entries, index + 1).value.output, entries, index + 1);
    } else {
      ErrorStays(request, order, entries, index + 1, |entries|);
    }
  }

  datatype Outcome = Going(copied: nat, restoredHunks: set<nat>) | Failed(error: ReversalError)

  ghost predicate Agrees(request: Request, order: Order, entries: seq<Entry>, outcome: Outcome, cursor: nat, output: seq<Entry>) {
    match outcome
    case Going(copied, restoredHunks) => Reached(request, order, entries, copied, cursor, output, restoredHunks)
    case Failed(error) => ReverseUpTo(request, order, entries, |entries|) == Err(error)
  }

  lemma KeepsOne(request: Request, order: Order, entries: seq<Entry>, copied: nat, index: nat,
                 output: seq<Entry>, restoredHunks: set<nat>)
    requires Reached(request, order, entries, copied, index, output, restoredHunks)
    requires index < |entries| && !Removes(request, order, entries[index].provenance.source)
    ensures Reached(request, order, entries, copied, index + 1, output, restoredHunks)
  {
    hide ReverseUpTo, Removes;
    KeepsNext(request, order, entries, index);
    ExtendSlice(output, entries, copied, index + 1);
  }

  /** The entries that reading content from an indexed sequence amounts to. */
  ghost predicate Reading(from: RealizedEntries, lines: seq<Line>, entries: seq<Entry>)
    reads from
  {
    from.Valid() && |lines| == |from.contents| && entries == WithContents(from.Entries(), lines)
  }

  /** Write the stretch kept so far, then deal with one removed entry. */
  method ReverseAt(request: Request, from: RealizedEntries, lines: seq<Line>, line: nat, index: nat,
                   result: RealizedEntries, start: Outcome, ghost entries: seq<Entry>)
    returns (outcome: Outcome)
    requires request.Valid() && Reading(from, lines, entries) && result.Valid() && from != result
    requires index < |entries| && entries[index].provenance.source == line && Removes(request, PreservedFirst, line)
    requires start.Going? && Agrees(request, PreservedFirst, entries, start, index, result.Entries())
    modifies result
    ensures result.Valid()
    ensures Agrees(request, PreservedFirst, entries, outcome, index + 1, result.Entries())
  {
    ReachedFlushed(request, PreservedFirst, entries, start.copied, index, result.Entries(), start.restoredHunks);
    SliceOfContents(from.Entries(), lines, start.copied, index);
    result.CopyProvenanceSlice(from, lines, start.copied, index);
    StepsOver(request, PreservedFirst, entries, index, result.Entries(), start.restoredHunks);
    var structural := SortedContains(request.structural, line);
    if structural {
      return Going(index + 1, start.restoredHunks);
    }
    var restored := RestoreSourceLine(request, line, result, start.restoredHunks);
    match restored {
      case Err(error) => outcome := Failed(error);
      case Ok(hunks) => outcome := Going(index + 1, hunks);
    }
  }

  lemma SliceOfContents(entries: seq<Entry>, lines: seq<Line>, from: nat, upto: nat)
    requires |lines| == |entries| && from <= upto <= |entries|
    ensures WithContents(entries, lines)[from..upto] == WithContents(entries[from..upto], lines[from..upto])
  {
  }

  /** Reverse the lines of one selected range inside one provenance run. */
  method ReverseSelectedRange(request: Request, from: RealizedEntries, lines: seq<Line>, run: Run, selected: seq<Span>, k: nat,
                              result: RealizedEntries, start: Outcome, ghost entries: seq<Entry>)
    returns (outcome: Outcome)
    requires request.Valid() && Reading(from, lines, entries) && result.Valid() && from != result
    requires run.end <= |entries| && SelectedFrom(request, run, selected) && Carries(entries, run) && k < |selected|
    requires start.Going?
    requires Agrees(request, PreservedFirst, entries, start, BeforeSelected(run, selected, k), result.Entries())
    modifies result
    ensures result.Valid()
    ensures Agrees(request, PreservedFirst, entries, outcome, AfterSelected(run, selected, k + 1), result.Entries())
  {
    hide Reached, Normalized, Ordered, Contains;
    outcome := start;
    SelectedBounds(request, run, selected, k);
    var line := selected[k].first;
    while line <= selected[k].last
      invariant selected[k].first <= line <= selected[k].last + 1
      invariant result.Valid() && outcome.Going?
      invariant Agrees(request, PreservedFirst, entries, outcome, run.start + line - run.source, result.Entries())
    {
      var index := run.start + line - run.source;
      SelectedLine(request, run, selected, k, line);
      assert entries[index].provenance.source == line;
      if line in request.preserved {
        KeepsOne(request, PreservedFirst, entries, outcome.copied, index, result.Entries(), outcome.restoredHunks);
      } else {
        outcome := ReverseAt(request, from, lines, line, index, result, outcome, entries);
        if outcome.Failed? {
          return;
        }
      }
      line := line + 1;
    }
  }

  /** The lines of one run that reversal touches, found by intersecting ranges. */
  method SelectInRun(request: Request, run: Run, reversed: seq<Span>) returns (selected: seq<Span>)
    requires run.source != 0 && run.start < run.end
    requires Normalized(reversed) && forall line: nat :: Contains(reversed, line) <==> request.Reversed(line)
    ensures SelectedFrom(request, run, selected)
  {
    var within := Span(run.source, run.source + run.end - run.start - 1);
    OneRange(within);
    selected := Intersection(reversed, [within]);
    forall j | 0 <= j < |selected| ensures selected[j].first >= 0 {
      assert Contains(selected, selected[j].first);
    }
  }

  /** Reverse the selected ranges of one run in order. */
  method ReverseSelection(request: Request, from: RealizedEntries, lines: seq<Line>, run: Run, selected: seq<Span>,
                          result: RealizedEntries, start: Outcome, ghost entries: seq<Entry>)
    returns (outcome: Outcome)
    requires request.Valid() && Reading(from, lines, entries) && result.Valid() && from != result
    requires run.end <= |entries| && SelectedFrom(request, run, selected) && Carries(entries, run)
    requires start.Going? && Agrees(request, PreservedFirst, entries, start, run.start, result.Entries())
    modifies result
    ensures result.Valid()
    ensures Agrees(request, PreservedFirst, entries, outcome, run.end, result.Entries())
  {
    hide Reached, Normalized, Ordered, Contains, Carries;
    outcome := start;
    var k := 0;
    while k < |selected|
      invariant 0 <= k <= |selected|
      invariant result.Valid() && outcome.Going?
      invariant Agrees(request, PreservedFirst, entries, outcome, AfterSelected(run, selected, k), result.Entries())
    {
      ReachesSelected(request, entries, run, selected, k, outcome, result.Entries());
      outcome := ReverseSelectedRange(request, from, lines, run, selected, k, result, outcome, entries);
      if outcome.Failed? {
        return;
      }
      k := k + 1;
    }
    ReachesSelected(request, entries, run, selected, k, outcome, result.Entries());
  }

  /** Reverse one provenance run. */
  method ReverseRun(request: Request, from: RealizedEntries, lines: seq<Line>, run: Run, reversed: seq<Span>,
                    result: RealizedEntries, start: Outcome, ghost entries: seq<Entry>)
    returns (outcome: Outcome)
    requires request.Valid() && Reading(from, lines, entries) && result.Valid() && from != result
    requires run.start < run.end <= |entries| && Carries(entries, run)
    requires Normalized(reversed) && forall line: nat :: Contains(reversed, line) <==> request.Reversed(line)
    requires start.Going? && Agrees(request, PreservedFirst, entries, start, run.start, result.Entries())
    modifies result
    ensures result.Valid()
    ensures Agrees(request, PreservedFirst, entries, outcome, run.end, result.Entries())
  {
    hide Normalized, Ordered, Contains;
    outcome := start;
    if run.source == 0 {
      ReachesFurther(request, PreservedFirst, entries, outcome.copied, run.start, run.end, result.Entries(), outcome.restoredHunks);
    } else {
      var selected := SelectInRun(request, run, reversed);
      outcome := ReverseSelection(request, from, lines, run, selected, result, outcome, entries);
    }
  }

  /** The lines of a run that reversal looks at. */
  ghost predicate SelectedFrom(request: Request, run: Run, selected: seq<Span>) {
    && run.source != 0 && run.start < run.end && Normalized(selected)
    && (forall j :: 0 <= j < |selected| ==> selected[j].first >= 0)
    && forall line: nat :: Contains(selected, line) <==>
         run.source <= line < run.source + run.end - run.start && request.Reversed(line)
  }

  lemma SelectedLine(request: Request, run: Run, selected: seq<Span>, k: nat, line: nat)
    requires SelectedFrom(request, run, selected) && k < |selected| && selected[k].first <= line <= selected[k].last
    ensures run.source <= line < run.source + run.end - run.start && request.Reversed(line)
  {
    assert Contains(selected, line);
  }

  lemma SelectedBounds(request: Request, run: Run, selected: seq<Span>, k: nat)
    requires SelectedFrom(request, run, selected) && k < |selected|
    ensures run.source <= selected[k].first <= selected[k].last < run.source + run.end - run.start
  {
    SelectedLine(request, run, selected, k, selected[k].first);
    SelectedLine(request, run, selected, k, selected[k].last);
  }

  /** The entry after the first k selected ranges of a run. */
  ghost function AfterSelected(run: Run, selected: seq<Span>, k: nat): nat
    requires k <= |selected|
  {
    if k == 0 || run.start + selected[k - 1].last + 1 - run.source < 0 then run.start
    else run.start + selected[k - 1].last + 1 - run.source
  }

  /** The entry where the next selected range begins. */
  ghost function BeforeSelected(run: Run, selected: seq<Span>, k: nat): nat
    requires k <= |selected|
  {
    if k == |selected| || run.start + selected[k].first - run.source < 0 then run.end
    else run.start + selected[k].first - run.source
  }

  /** Nothing is removed between two neighbouring selected ranges. */
  lemma ReachesSelected(request: Request, entries: seq<Entry>, run: Run, selected: seq<Span>, k: nat,
                        outcome: Outcome, output: seq<Entry>)
    requires SelectedFrom(request, run, selected) && k <= |selected|
    requires run.end <= |entries| && Carries(entries, run) && outcome.Going?
    requires Agrees(request, PreservedFirst, entries, outcome, AfterSelected(run, selected, k), output)
    ensures Agrees(request, PreservedFirst, entries, outcome, BeforeSelected(run, selected, k), output)
  {
    if k > 0 {
      SelectedBounds(request, run, selected, k - 1);
    }
    if k < |selected| {
      SelectedBounds(request, run, selected, k);
    }
    var cursor, further := AfterSelected(run, selected, k), BeforeSelected(run, selected, k);
    forall i | cursor <= i < further ensures !Removes(request, PreservedFirst, entries[i].provenance.source) {
      BetweenRanges(selected, k, run.source + i - run.start);
    }
    ReachesFurther(request, PreservedFirst, entries, outcome.copied, cursor, further, output, outcome.restoredHunks);
  }

  lemma RunReady(contents: seq<Line>, runs: seq<Run>, lines: seq<Line>, r: nat)
    requires Tiles(runs, |contents|) && r < |runs| && |lines| == |contents|
    ensures runs[r].start < runs[r].end <= |contents|
    ensures Carries(WithContents(Zip(contents, Decode(runs, |contents|)), lines), runs[r])
    ensures r + 1 < |runs| ==> runs[r + 1].start == runs[r].end
    ensures r + 1 == |runs| ==> runs[r].end == |contents|
  {
    TilesPrefix(runs, |runs|, |contents|, r);
    RunsCarry(contents, runs, r);
  }

  /** Visit every provenance run in order. */
  method ReverseRuns(request: Request, from: RealizedEntries, lines: seq<Line>, reversed: seq<Span>,
                     result: RealizedEntries, ghost entries: seq<Entry>)
    returns (state: Outcome)
    requires Normalized(reversed) && forall line: nat :: Contains(reversed, line) <==> request.Reversed(line)
    requires request.Valid() && Reading(from, lines, entries) && result.Valid() && from != result && result.Entries() == []
    modifies result
    ensures result.Valid()
    ensures Agrees(request, PreservedFirst, entries, state, |entries|, result.Entries())
  {
    state := Going(0, {});
    var r := 0;
    ghost var cursor := 0;
    if from.runs != [] {
      TilesPrefix(from.runs, |from.runs|, |from.contents|, 0);
    }
    while r < |from.runs|
      invariant 0 <= r <= |from.runs| && result.Valid() && state.Going?
      invariant cursor == if r < |from.runs| then from.runs[r].start else |entries|
      invariant Agrees(request, PreservedFirst, entries, state, cursor, result.Entries())
    {
      RunReady(from.contents, from.runs, lines, r);
      state := ReverseRun(request, from, lines, from.runs[r], reversed, result, state, entries);
      if state.Failed? {
        return;
      }
      cursor := from.runs[r].end;
      r := r + 1;
    }
  }

  /** Reversal of compact entries, run by run. */
  method ReverseByRuns(request: Request, from: RealizedEntries, indexed: Option<seq<Line>>)
    returns (outcome: Result<RealizedEntries, ReversalError>)
    requires request.Valid() && from.Valid()
    requires indexed.Some? ==> |indexed.value| == |from.contents|
    ensures var lines := if indexed.Some? then indexed.value else from.contents;
      match ReversalResult(request, PreservedFirst, WithContents(from.Entries(), lines))
      case Err(error) => outcome == Err(error)
      case Ok(reversed) => outcome.Ok? && fresh(outcome.value) && outcome.value.Valid() && outcome.value.Entries() == reversed
  {
    if !IsSubset(request.independent, request.trusted) {
      return Err(IndependentNotTrusted);
    }
    var lines := if indexed.Some? then indexed.value else from.contents;
    ghost var entries := WithContents(from.Entries(), lines);
    var reversed := NormalForm(request.presence + request.structural);
    UnionMeaning(request.presence, request.structural);
    var result := new RealizedEntries();
    var state := ReverseRuns(request, from, lines, reversed, result, entries);
    if state.Failed? {
      return Err(state.error);
    }
    ReachedFlushed(request, PreservedFirst, entries, state.copied, |entries|, result.Entries(), state.restoredHunks);
    SliceOfContents(from.Entries(), lines, state.copied, |lines|);
    result.CopyProvenanceSlice(from, lines, state.copied, |lines|);
    outcome := Ok(result);
  }

  /** Append entries one at a time, as a plain entry sequence is copied. */
  method CopyEntries(entries: seq<Entry>, from: nat, upto: nat, result: RealizedEntries)
    requires result.Valid() && from <= upto <= |entries|
    modifies result
    ensures result.Valid() && result.Entries() == old(result.Entries()) + entries[from..upto]
  {
    var i := from;
    while i < upto
      invariant from <= i <= upto && result.Valid()
      invariant result.Entries() == old(result.Entries()) + entries[from..i]
    {
      ghost var before := result.Entries();
      var entry := entries[i];
      result.AppendLineRange([entry.content], 0, 1, entry.provenance.source, entry.provenance.target, entry.provenance.claimed);
      SingleEntry(entry);
      assert entries[from..i + 1] == entries[from..i] + [entry];
      i := i + 1;
    }
  }

  lemma SingleEntry(entry: Entry)
    ensures LinearEntries([entry.content][0..1], entry.provenance.source, entry.provenance.target, entry.provenance.claimed) == [entry]
  {
    assert [entry.content][0..1] == [entry.content];
  }

  /** The entry path treats one entry at a time; `copied` is where the next copy would start. */
  method ReverseEntry(request: Request, entries: seq<Entry>, index: nat, start: Outcome, result: RealizedEntries)
    returns (outcome: Outcome)
    requires request.Valid() && result.Valid() && index < |entries| && start.Going?
    requires Agrees(request, StructuralFirst, entries, start, index, result.Entries())
    modifies result
    ensures result.Valid()
    ensures Agrees(request, StructuralFirst, entries, outcome, index + 1, result.Entries())
  {
    var line := entries[index].provenance.source;
    var owned := SortedContains(request.presence, line);
    var structural := SortedContains(request.structural, line);
    if line != 0 && (owned || structural) && (structural || line !in request.preserved) {
      ReachedFlushed(request, StructuralFirst, entries, start.copied, index, result.Entries(), start.restoredHunks);
      CopyEntries(entries, start.copied, index, result);
      StepsOver(request, StructuralFirst, entries, index, result.Entries(), start.restoredHunks);
      if structural {
        return Going(index + 1, start.restoredHunks);
      }
      var restored := RestoreSourceLine(request, line, result, start.restoredHunks);
      match restored {
        case Err(error) => outcome := Failed(error);
        case Ok(hunks) => outcome := Going(index + 1, hunks);
      }
    } else {
      KeepsOne(request, StructuralFirst, entries, start.copied, index, result.Entries(), start.restoredHunks);
      outcome := start;
    }
  }

  /** Reversal of a plain entry sequence, entry by entry. */
  method ReverseByEntries(request: Request, entries: seq<Entry>) returns (outcome: Result<RealizedEntries, ReversalError>)
    requires request.Valid()
    ensures match ReversalResult(request, StructuralFirst, entries)
      case Err(error) => outcome == Err(error)
      case Ok(reversed) => outcome.Ok? && fresh(outcome.value) && outcome.value.Valid() && outcome.value.Entries() == reversed
  {
    hide IsSubset, Treat, Normalized, Ordered;
    if !IsSubset(request.independent, request.trusted) {
      return Err(IndependentNotTrusted);
    }
    var result := new RealizedEntries();
    var state := Going(0, {});
    var index := 0;
    while index < |entries|
      invariant 0 <= index <= |entries| && result.Valid() && fresh(result) && state.Going?
      invariant Agrees(request, StructuralFirst, entries, state, index, result.Entries())
    {
      state := ReverseEntry(request, entries, index, state, result);
      if state.Failed? {
        return Err(state.error);
      }
      index := index + 1;
    }
    ReachedFlushed(request, StructuralFirst, entries, state.copied, |entries|, result.Entries(), state.restoredHunks);
    CopyEntries(entries, state.copied, |entries|, result);
    outcome := Ok(result);
  }
}
