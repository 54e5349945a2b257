/** What the units of a comparison say, in terms of the two files alone (batch/attribution_units.py:170-330). */
module ComparisonMeaning {
  import opened Wrappers
  import opened LineRanges
  import opened Realized
  import opened LineMatching
  import opened AttributionUnits
  import opened FileComparisonUnits

  // -------------------------------------------------------------- the two files

  /** A longest stretch of baseline lines that are not found in the worktree. */
  ghost predicate DeletedRun(c: Comparison, first: int, last: int) {
    && 1 <= first <= last <= |c.baseline| && (forall b: nat :: first <= b <= last ==> b !in c.alignment)
    && (first > 1 ==> first - 1 in c.alignment) && (last < |c.baseline| ==> last + 1 in c.alignment)
  }

  /** A longest stretch of worktree lines where no baseline line is found. */
  ghost predicate AddedRun(c: Comparison, first: int, last: int) {
    && 1 <= first <= last <= |c.working| && (forall x: nat :: first <= x <= last ==> c.IsAdded(x))
    && (first > 1 ==> !c.IsAdded(first - 1)) && (last < |c.working| ==> !c.IsAdded(last + 1))
  }

  /** Lines of the two files that stand behind the same line, or both at the start. */
  predicate AtSamePlace(c: Comparison, deleted: int, added: int) {
    if deleted <= 1 then added <= 1 else added > 1 && deleted - 1 in c.alignment && c.alignment[deleted - 1] == added - 1
  }

  /** The unit keeps where the stretch was and what it held. */
  ghost predicate TellsRemoved(digests: Digests, c: Comparison, unit: AttributionUnit, first: int, last: int)
    requires DeletedRun(c, first, last)
  {
    && unit.anchor == (if first == 1 then None else Some(c.alignment[first - 1]))
    && unit.deletion == Some(digests.ofLines(c.baseline[first - 1..last]))
  }

  /** The unit keeps where the stretch is and what it holds: one line as it is, several by their fingerprint. */
  ghost predicate TellsAdded(digests: Digests, c: Comparison, unit: AttributionUnit, first: int, last: int)
    requires AddedRun(c, first, last)
  {
    && unit.line == Some(first) && unit.lineCount == Some(last - first + 1)
    && unit.content == (if first == last then Some(c.working[first - 1]) else None)
    && unit.fingerprint == (if first == last then None else Some(digests.ofLines(c.working[first - 1..last])))
  }

  /** A stretch of deleted lines and the stretch of added lines at its place. */
  ghost predicate IsReplacement(digests: Digests, c: Comparison, unit: AttributionUnit, first: int, last: int, from: int, upto: int) {
    && unit.kind == Replacement && DeletedRun(c, first, last) && AddedRun(c, from, upto) && AtSamePlace(c, first, from)
    && TellsRemoved(digests, c, unit, first, last) && TellsAdded(digests, c, unit, from, upto)
  }

  /** A stretch of deleted lines with no added lines at its place. */
  ghost predicate IsDeletion(digests: Digests, c: Comparison, unit: AttributionUnit, first: int, last: int) {
    && unit.kind == DeletionOnly && DeletedRun(c, first, last)
    && (forall from, upto :: AddedRun(c, from, upto) ==> !AtSamePlace(c, first, from))
    && TellsRemoved(digests, c, unit, first, last)
    && unit.line == None && unit.content == None && unit.fingerprint == None && unit.lineCount == None
  }

  /** One line of a stretch of added lines with no deleted lines at its place. */
  ghost predicate IsAddition(digests: Digests, c: Comparison, unit: AttributionUnit, from: int, upto: int, line: int) {
    && unit.kind == PresenceOnly && AddedRun(c, from, upto) && from <= line <= upto
    && (forall first, last :: DeletedRun(c, first, last) ==> !AtSamePlace(c, first, from))
    && unit.line == Some(line) && unit.content == Some(c.working[line - 1])
    && unit.anchor == None && unit.deletion == None && unit.fingerprint == None && unit.lineCount == None
  }

  ghost predicate HasOwnId(digests: Digests, c: Comparison, unit: AttributionUnit) {
    unit.id == UnitId(digests, unit.kind, c.path, unit.line, unit.content, unit.fingerprint, unit.anchor, unit.deletion)
  }

  /** The unit tells one difference of the two files, under the identifier of its own fields. */
  ghost predicate TellsDifference(digests: Digests, c: Comparison, unit: AttributionUnit) {
    && HasOwnId(digests, c, unit)
    && ((exists first, last, from, upto :: IsReplacement(digests, c, unit, first, last, from, upto))
        || (exists first, last :: IsDeletion(digests, c, unit, first, last))
        || exists from, upto, line :: IsAddition(digests, c, unit, from, upto, line))
  }

  // ------------------------------------------------------------------- the runs

  /** A longest stretch of unmatched lines among the lines 1..count. */
  ghost predicate IsRun(matched: set<nat>, count: nat, span: Span) {
    && 1 <= span.first <= span.last <= count && (forall x: nat :: span.first <= x <= span.last ==> x !in matched)
    && (span.first > 1 ==> span.first - 1 in matched) && (span.last < count ==> span.last + 1 in matched)
  }

  /** The runs are exactly the longest stretches. */
  lemma RunsAreLongest(matched: set<nat>, count: nat, runs: seq<Span>, span: Span)
    requires RunsOfUnmatched(matched, count, runs)
    ensures span in runs <==> IsRun(matched, count, span)
  {
    if i :| 0 <= i < |runs| && runs[i] == span {
      RunIsLongest(matched, count, runs, i);
    } else if IsRun(matched, count, span) {
      LongestIsRun(matched, count, runs, span);
    }
  }

  lemma RunIsLongest(matched: set<nat>, count: nat, runs: seq<Span>, i: nat)
    requires RunsOfUnmatched(matched, count, runs) && i < |runs|
    ensures IsRun(matched, count, runs[i])
  {
    var span := runs[i];
    assert Contains(runs, span.first) && Contains(runs, span.last);
    BetweenRanges(runs, i, span.first - 1);
    BetweenRanges(runs, i + 1, span.last + 1);
    forall x: nat | span.first <= x <= span.last ensures x !in matched {
      assert Contains(runs, x);
    }
  }

  lemma LongestIsRun(matched: set<nat>, count: nat, runs: seq<Span>, span: Span)
    requires RunsOfUnmatched(matched, count, runs) && IsRun(matched, count, span)
    ensures span in runs
  {
    var first: nat := span.first;
    assert Contains(runs, first);
    var i :| 0 <= i < |runs| && runs[i].first <= first <= runs[i].last;
    RunIsLongest(matched, count, runs, i);
    hide Contains, Normalized, RunsOfUnmatched;
    assert runs[i] == span;
  }

  lemma DeletedRunsAre(c: Comparison, m: LineMapping, deletions: seq<Span>, additions: seq<Span>, span: Span)
    requires BothRuns(c, m, deletions, additions)
    ensures span in deletions <==> DeletedRun(c, span.first, span.last)
  {
    RunsAreLongest(m.toTarget.Keys, |c.baseline|, deletions, span);
    hide RunsOfUnmatched;
  }

  lemma AddedRunsAre(c: Comparison, m: LineMapping, deletions: seq<Span>, additions: seq<Span>, span: Span)
    requires BothRuns(c, m, deletions, additions)
    ensures span in additions <==> AddedRun(c, span.first, span.last)
  {
    RunsAreLongest(m.toSource.Keys, |c.working|, additions, span);
    hide RunsOfUnmatched;
    forall x: nat | 1 <= x <= |c.working| ensures x !in m.toSource.Keys <==> c.IsAdded(x) {
      UnmatchedIsAdded(c, m, x);
    }
  }

  /** A run of deleted lines follows the worktree image of the line right before it. */
  lemma DeletionAnchorIs(c: Comparison, m: LineMapping, span: Span)
    requires c.Matches(m) && DeletedRun(c, span.first, span.last)
    ensures DeletionAnchor(m, span) == if span.first == 1 then None else Some(c.alignment[span.first - 1])
  {
  }

  lemma AdditionAnchorIs(c: Comparison, m: LineMapping, span: Span)
    requires c.Matches(m) && AddedRun(c, span.first, span.last)
    ensures AdditionAnchor(m, span) == if span.first == 1 then None else Some(span.first - 1)
  {
    if span.first > 1 {
      UnmatchedIsAdded(c, m, span.first - 1);
    }
  }

  /** Runs have the same anchor exactly when they stand at the same place. */
  lemma SameAnchorIs(c: Comparison, m: LineMapping, deletion: Span, addition: Span)
    requires c.Matches(m) && DeletedRun(c, deletion.first, deletion.last) && AddedRun(c, addition.first, addition.last)
    ensures SameAnchor(m, deletion, addition) <==> AtSamePlace(c, deletion.first, addition.first)
  {
    DeletionAnchorIs(c, m, deletion);
    AdditionAnchorIs(c, m, addition);
  }

  // ----------------------------------------------------------------- the pieces

  /** What the pieces are: every pair, every deletion run without partner, every line of the other addition runs. */
  ghost predicate IsPiece(deletions: seq<Span>, additions: seq<Span>, partner: seq<Option<nat>>, paired: set<nat>, piece: Piece)
    requires |partner| == |deletions|
  {
    match piece
    case Replaced(deletion, addition) =>
      exists d :: 0 <= d < |partner| && deletion == deletions[d] && partner[d].Some? && partner[d].value < |additions|
        && addition == additions[partner[d].value]
    case Deleted(run) => exists d :: 0 <= d < |partner| && run == deletions[d] && partner[d].None?
    case Added(line) => exists a :: 0 <= a < |additions| && a !in paired && InRun(additions[a], line)
  }

  lemma {:induction false} ReplacedMembers(deletions: seq<Span>, additions: seq<Span>, partner: seq<Option<nat>>, count: nat, piece: Piece)
    requires count <= |partner| == |deletions|
    ensures piece in ReplacedPieces(deletions, additions, partner, count) <==>
      && piece.Replaced?
      && exists d :: 0 <= d < count && piece.deletion == deletions[d] && partner[d].Some? && partner[d].value < |additions|
           && piece.addition == additions[partner[d].value]
  {
    if count > 0 {
      ReplacedMembers(deletions, additions, partner, count - 1, piece);
    }
  }

  lemma {:induction false} DeletedMembers(deletions: seq<Span>, partner: seq<Option<nat>>, count: nat, piece: Piece)
    requires count <= |partner| == |deletions|
    ensures piece in DeletedPieces(deletions, partner, count) <==>
      piece.Deleted? && exists d :: 0 <= d < count && piece.run == deletions[d] && partner[d].None?
  {
    if count > 0 {
      DeletedMembers(deletions, partner, count - 1, piece);
    }
  }

  lemma LineMembers(first: int, upto: int, piece: Piece)
    requires 0 <= first
    ensures piece in LinePieces(first, upto) <==> piece.Added? && first <= piece.line < upto
  {
    if piece.Added? && first <= piece.line < upto {
      assert LinePieces(first, upto)[piece.line - first] == piece;
    }
  }

  lemma {:induction false} AddedMembers(additions: seq<Span>, paired: set<nat>, count: nat, piece: Piece)
    requires count <= |additions| && forall a :: 0 <= a < |additions| ==> 0 <= additions[a].first
    ensures piece in AddedPieces(additions, paired, count) <==>
      piece.Added? && exists a :: 0 <= a < count && a !in paired && InRun(additions[a], piece.line)
  {
    hide LinePieces;
    if count > 0 {
      AddedMembers(additions, paired, count - 1, piece);
      LineMembers(additions[count - 1].first, additions[count - 1].last + 1, piece);
    }
  }

  lemma PiecesAre(c: Comparison, m: LineMapping, deletions: seq<Span>, additions: seq<Span>,
                  partner: seq<Option<nat>>, paired: set<nat>, piece: Piece)
    requires Paired(c, m, deletions, additions, partner, paired)
    ensures piece in AllPieces(deletions, additions, partner, paired) <==> IsPiece(deletions, additions, partner, paired, piece)
  {
    AdditionsArePositive(c, m, deletions, additions);
    ReplacedMembers(deletions, additions, partner, |partner|, piece);
    DeletedMembers(deletions, partner, |partner|, piece);
    AddedMembers(additions, paired, |additions|, piece);
  }

  /** The piece is one difference of the two files. */
  ghost predicate IsDifference(c: Comparison, piece: Piece) {
    match piece
    case Replaced(deletion, addition) =>
      && DeletedRun(c, deletion.first, deletion.last) && AddedRun(c, addition.first, addition.last)
      && AtSamePlace(c, deletion.first, addition.first)
    case Deleted(run) =>
      && DeletedRun(c, run.first, run.last)
      && forall from, upto :: AddedRun(c, from, upto) ==> !AtSamePlace(c, run.first, from)
    case Added(line) => exists from, upto :: AddsAlone(c, from, upto, line)
  }

  /** A line of a stretch of added lines with no deleted lines at its place. */
  ghost predicate AddsAlone(c: Comparison, from: int, upto: int, line: int) {
    && AddedRun(c, from, upto) && from <= line <= upto
    && forall first, last :: DeletedRun(c, first, last) ==> !AtSamePlace(c, first, from)
  }

  /** The runs on both sides, and who stands at whose place. */
  lemma RunsMeet(c: Comparison, m: LineMapping, deletions: seq<Span>, additions: seq<Span>, d: nat, a: nat)
    requires BothRuns(c, m, deletions, additions) && d < |deletions| && a < |additions|
    ensures DeletedRun(c, deletions[d].first, deletions[d].last) && AddedRun(c, additions[a].first, additions[a].last)
    ensures SameAnchor(m, deletions[d], additions[a]) <==> AtSamePlace(c, deletions[d].first, additions[a].first)
  {
    hide RunsOfUnmatched, DeletedRun, AddedRun, SameAnchor, AtSamePlace;
    DeletedRunsAre(c, m, deletions, additions, deletions[d]);
    AddedRunsAre(c, m, deletions, additions, additions[a]);
    SameAnchorIs(c, m, deletions[d], additions[a]);
  }

  /** A deletion run stays alone exactly when no addition run has its anchor. */
  lemma AloneIs(c: Comparison, m: LineMapping, deletions: seq<Span>, additions: seq<Span>,
                partner: seq<Option<nat>>, paired: set<nat>, d: nat)
    requires Paired(c, m, deletions, additions, partner, paired) && d < |deletions|
    ensures DeletedRun(c, deletions[d].first, deletions[d].last)
    ensures partner[d].None? <==> forall from, upto :: AddedRun(c, from, upto) ==> !AtSamePlace(c, deletions[d].first, from)
  {
    hide BothRuns, DeletedRun, AddedRun, SameAnchor, AtSamePlace;
    DeletedRunsAre(c, m, deletions, additions, deletions[d]);
    if partner[d].Some? {
      RunsMeet(c, m, deletions, additions, d, partner[d].value);
    } else {
      forall from, upto | AddedRun(c, from, upto) ensures !AtSamePlace(c, deletions[d].first, from) {
        AddedRunsAre(c, m, deletions, additions, Span(from, upto));
        var a :| 0 <= a < |additions| && additions[a] == Span(from, upto);
        RunsMeet(c, m, deletions, additions, d, a);
      }
    }
  }

  /** An addition run is left over exactly when no deletion run stands at its place. */
  lemma LeftOverIs(c: Comparison, m: LineMapping, deletions: seq<Span>, additions: seq<Span>,
                   partner: seq<Option<nat>>, paired: set<nat>, a: nat)
    requires Paired(c, m, deletions, additions, partner, paired) && a < |additions|
    ensures AddedRun(c, additions[a].first, additions[a].last)
    ensures a !in paired <==> forall first, last :: DeletedRun(c, first, last) ==> !AtSamePlace(c, first, additions[a].first)
  {
    hide BothRuns, DeletedRun, AddedRun, SameAnchor, AtSamePlace;
    AddedRunsAre(c, m, deletions, additions, additions[a]);
    if a in paired {
      var d :| 0 <= d < |partner| && partner[d] == Some(a);
      RunsMeet(c, m, deletions, additions, d, a);
    } else {
      forall first, last | DeletedRun(c, first, last) ensures !AtSamePlace(c, first, additions[a].first) {
        DeletedRunsAre(c, m, deletions, additions, Span(first, last));
        var d :| 0 <= d < |deletions| && deletions[d] == Span(first, last);
        RunsMeet(c, m, deletions, additions, d, a);
        if SameAnchor(m, deletions[d], additions[a]) {
          OwnPartner(c, m, deletions, additions, partner, d, a);
        }
      }
    }
  }

  lemma OwnPartner(c: Comparison, m: LineMapping, deletions: seq<Span>, additions: seq<Span>, partner: seq<Option<nat>>, d: nat, a: nat)
    requires BothRuns(c, m, deletions, additions) && PairedUpTo(m, deletions, additions, partner)
    requires d < |partner| == |deletions| && a < |additions| && SameAnchor(m, deletions[d], additions[a])
    ensures partner[d] == Some(a)
  {
    hide BothRuns, DeletionAnchor, AdditionAnchor;
    if partner[d] != Some(a) {
      AdditionAnchorsDiffer(c, m, deletions, additions, partner[d].value, a);
    }
  }

  /** The pieces are exactly the differences of the two files. */
  lemma PiecesAreDifferences(c: Comparison, m: LineMapping, deletions: seq<Span>, additions: seq<Span>,
                             partner: seq<Option<nat>>, paired: set<nat>, piece: Piece)
    requires Paired(c, m, deletions, additions, partner, paired)
    ensures IsPiece(deletions, additions, partner, paired, piece) <==> IsDifference(c, piece)
  {
    hide BothRuns, DeletedRun, AddedRun, AtSamePlace, SameAnchor;
    forall d | 0 <= d < |deletions|
      ensures partner[d].None? <==> forall from, upto :: AddedRun(c, from, upto) ==> !AtSamePlace(c, deletions[d].first, from)
      ensures DeletedRun(c, deletions[d].first, deletions[d].last)
    {
      AloneIs(c, m, deletions, additions, partner, paired, d);
    }
    match piece {
      case Replaced(deletion, addition) =>
        ReplacedIsDifference(c, m, deletions, additions, partner, paired, deletion, addition);
      case Deleted(run) =>
        DeletedRunsAre(c, m, deletions, additions, run);
      case Added(line) =>
        AddedIsDifference(c, m, deletions, additions, partner, paired, line);
    }
  }

  lemma AddedIsDifference(c: Comparison, m: LineMapping, deletions: seq<Span>, additions: seq<Span>,
                          partner: seq<Option<nat>>, paired: set<nat>, line: nat)
    requires Paired(c, m, deletions, additions, partner, paired)
    ensures IsPiece(deletions, additions, partner, paired, Added(line)) <==> IsDifference(c, Added(line))
  {
    hide BothRuns, DeletedRun, AddedRun, AtSamePlace, SameAnchor;
    if a: nat :| a < |additions| && a !in paired && InRun(additions[a], line) {
      LeftOverIs(c, m, deletions, additions, partner, paired, a);
      assert AddsAlone(c, additions[a].first, additions[a].last, line);
    }
    if from, upto :| AddsAlone(c, from, upto, line) {
      AddedRunsAre(c, m, deletions, additions, Span(from, upto));
      var a :| 0 <= a < |additions| && additions[a] == Span(from, upto);
      LeftOverIs(c, m, deletions, additions, partner, paired, a);
      assert InRun(additions[a], line);
    }
  }

  lemma ReplacedIsDifference(c: Comparison, m: LineMapping, deletions: seq<Span>, additions: seq<Span>,
                             partner: seq<Option<nat>>, paired: set<nat>, deletion: Span, addition: Span)
    requires Paired(c, m, deletions, additions, partner, paired)
    ensures IsPiece(deletions, additions, partner, paired, Replaced(deletion, addition)) <==> IsDifference(c, Replaced(deletion, addition))
  {
    hide BothRuns, DeletedRun, AddedRun, AtSamePlace, SameAnchor;
    DeletedRunsAre(c, m, deletions, additions, deletion);
    AddedRunsAre(c, m, deletions, additions, addition);
    if d: nat, a: nat :| d < |deletions| && a < |additions| && deletion == deletions[d] && addition == additions[a] {
      RunsMeet(c, m, deletions, additions, d, a);
      if SameAnchor(m, deletions[d], additions[a]) {
        OwnPartner(c, m, deletions, additions, partner, d, a);
      }
    }
    forall d | 0 <= d < |partner| && partner[d].Some? ensures partner[d].value < |additions| && SameAnchor(m, deletions[d], additions[partner[d].value])
      && AtSamePlace(c, deletions[d].first, additions[partner[d].value].first)
    {
      RunsMeet(c, m, deletions, additions, d, partner[d].value);
    }
  }

  // ------------------------------------------------------------------ the units

  /** The unit of a difference tells just that difference. */
  lemma UnitTellsPiece(digests: Digests, c: Comparison, m: LineMapping, piece: Piece)
    requires c.Matches(m) && IsDifference(c, piece)
    ensures TellsDifference(digests, c, UnitOf(digests, c, m, piece))
  {
    var unit := UnitOf(digests, c, m, piece);
    OwnIdOf(digests, c, m, piece);
    match piece {
      case Replaced(deletion, addition) =>
        ReplacedTells(digests, c, m, deletion, addition);
        hide IsReplacement, IsDeletion, IsAddition, HasOwnId, UnitOf;
      case Deleted(run) =>
        DeletedTells(digests, c, m, run);
        hide IsReplacement, IsDeletion, IsAddition, HasOwnId, UnitOf;
      case Added(line) =>
        var from, upto :| AddsAlone(c, from, upto, line);
        AddedTells(digests, c, m, from, upto, line);
        hide IsReplacement, IsDeletion, IsAddition, HasOwnId, UnitOf;
    }
  }

  lemma OwnIdOf(digests: Digests, c: Comparison, m: LineMapping, piece: Piece)
    ensures HasOwnId(digests, c, UnitOf(digests, c, m, piece))
  {
    hide UnitId;
  }

  lemma ReplacedTells(digests: Digests, c: Comparison, m: LineMapping, deletion: Span, addition: Span)
    requires c.Matches(m) && IsDifference(c, Replaced(deletion, addition))
    ensures IsReplacement(digests, c, UnitOf(digests, c, m, Replaced(deletion, addition)), deletion.first, deletion.last, addition.first, addition.last)
  {
    var unit := UnitOf(digests, c, m, Replaced(deletion, addition));
    hide UnitId, DeletedRun, AddedRun, AtSamePlace, RunLines, LineAt, TellsRemoved, TellsAdded, DeletionAnchor, AdditionContent, AdditionFingerprint;
    RemovedTells(digests, c, m, unit, deletion);
    AdditionTells(digests, c, unit, addition);
  }

  lemma RemovedTells(digests: Digests, c: Comparison, m: LineMapping, unit: AttributionUnit, run: Span)
    requires c.Matches(m) && DeletedRun(c, run.first, run.last)
    requires unit.anchor == DeletionAnchor(m, run) && unit.deletion == Some(digests.ofLines(RunLines(c.baseline, run)))
    ensures TellsRemoved(digests, c, unit, run.first, run.last)
  {
    DeletionAnchorIs(c, m, run);
    hide DeletionAnchor;
  }

  lemma AdditionTells(digests: Digests, c: Comparison, unit: AttributionUnit, run: Span)
    requires AddedRun(c, run.first, run.last) && unit.line == Number(run.first) && unit.lineCount == Number(run.last - run.first + 1)
    requires unit.content == AdditionContent(c, run) && unit.fingerprint == AdditionFingerprint(digests, c, run)
    ensures TellsAdded(digests, c, unit, run.first, run.last)
  {
  }

  lemma DeletedTells(digests: Digests, c: Comparison, m: LineMapping, run: Span)
    requires c.Matches(m) && IsDifference(c, Deleted(run))
    ensures IsDeletion(digests, c, UnitOf(digests, c, m, Deleted(run)), run.first, run.last)
  {
    hide UnitId, DeletedRun, AddedRun, AtSamePlace, RunLines, LineAt, TellsRemoved, DeletionAnchor;
    RemovedTells(digests, c, m, UnitOf(digests, c, m, Deleted(run)), run);
  }

  lemma AddedTells(digests: Digests, c: Comparison, m: LineMapping, from: int, upto: int, line: int)
    requires AddsAlone(c, from, upto, line)
    ensures line >= 0 && IsAddition(digests, c, UnitOf(digests, c, m, Added(line)), from, upto, line)
  {
    hide UnitId, DeletedRun, AtSamePlace;
  }

  lemma ReplacementIsUnit(digests: Digests, c: Comparison, m: LineMapping, unit: AttributionUnit, first: int, last: int, from: int, upto: int)
    requires c.Matches(m) && HasOwnId(digests, c, unit) && IsReplacement(digests, c, unit, first, last, from, upto)
    ensures IsDifference(c, Replaced(Span(first, last), Span(from, upto)))
    ensures unit == UnitOf(digests, c, m, Replaced(Span(first, last), Span(from, upto)))
  {
    hide UnitId, DeletionAnchor, RunLines, LineAt, DeletedRun, AddedRun, TellsAdded, TellsRemoved, AtSamePlace, AdditionContent, AdditionFingerprint;
    AddedLinesAre(digests, c, unit, from, upto);
    RemovedLinesAre(digests, c, m, unit, first, last);
  }

  lemma AddedLinesAre(digests: Digests, c: Comparison, unit: AttributionUnit, from: int, upto: int)
    requires AddedRun(c, from, upto) && TellsAdded(digests, c, unit, from, upto)
    ensures unit.content == AdditionContent(c, Span(from, upto)) && unit.fingerprint == AdditionFingerprint(digests, c, Span(from, upto))
    ensures unit.line == Number(from) && unit.lineCount == Number(upto - from + 1)
  {
  }

  lemma RemovedLinesAre(digests: Digests, c: Comparison, m: LineMapping, unit: AttributionUnit, first: int, last: int)
    requires c.Matches(m) && DeletedRun(c, first, last) && TellsRemoved(digests, c, unit, first, last)
    ensures unit.deletion == Some(digests.ofLines(RunLines(c.baseline, Span(first, last)))) && unit.anchor == DeletionAnchor(m, Span(first, last))
  {
    DeletionAnchorIs(c, m, Span(first, last));
    hide DeletionAnchor;
  }

  lemma DeletionIsUnit(digests: Digests, c: Comparison, m: LineMapping, unit: AttributionUnit, first: int, last: int)
    requires c.Matches(m) && HasOwnId(digests, c, unit) && IsDeletion(digests, c, unit, first, last)
    ensures IsDifference(c, Deleted(Span(first, last))) && unit == UnitOf(digests, c, m, Deleted(Span(first, last)))
  {
    hide UnitId;
    DeletionAnchorIs(c, m, Span(first, last));
    hide DeletionAnchor;
  }

  lemma AdditionIsUnit(digests: Digests, c: Comparison, m: LineMapping, unit: AttributionUnit, from: int, upto: int, line: int)
    requires HasOwnId(digests, c, unit) && IsAddition(digests, c, unit, from, upto, line)
    ensures line >= 0 && IsDifference(c, Added(line)) && unit == UnitOf(digests, c, m, Added(line))
  {
    hide UnitId;
    assert AddsAlone(c, from, upto, line);
  }

  /** A unit that tells a difference is the unit of that difference. */
  lemma TellsPiece(digests: Digests, c: Comparison, m: LineMapping, unit: AttributionUnit) returns (piece: Piece)
    requires c.Matches(m) && TellsDifference(digests, c, unit)
    ensures IsDifference(c, piece) && unit == UnitOf(digests, c, m, piece)
  {
    assert HasOwnId(digests, c, unit);
    hide UnitId, HasOwnId, IsReplacement, IsDeletion, IsAddition, IsDifference, UnitOf;
    if first, last, from, upto :| IsReplacement(digests, c, unit, first, last, from, upto) {
      ReplacementIsUnit(digests, c, m, unit, first, last, from, upto);
      piece := Replaced(Span(first, last), Span(from, upto));
    } else if first, last :| IsDeletion(digests, c, unit, first, last) {
      DeletionIsUnit(digests, c, m, unit, first, last);
      piece := Deleted(Span(first, last));
    } else {
      var from, upto, line :| IsAddition(digests, c, unit, from, upto, line);
      AdditionIsUnit(digests, c, m, unit, from, upto, line);
      piece := Added(line);
    }
  }

  /** The stored units are exactly those that tell a difference of the two files, each under its own identifier. */
  lemma StoredUnitsTellDifferences(digests: Digests, c: Comparison, m: LineMapping, deletions: seq<Span>, additions: seq<Span>,
                                   partner: seq<Option<nat>>, paired: set<nat>, unit: AttributionUnit)
    requires Paired(c, m, deletions, additions, partner, paired)
    ensures var pieces := AllPieces(deletions, additions, partner, paired);
      var units := InsertUpTo(digests, c, m, map[], pieces, |pieces|);
      (unit.id in units && units[unit.id] == unit) <==> TellsDifference(digests, c, unit)
  {
    UnitIdsDiffer(digests, c, m, deletions, additions, partner, paired);
    hide AllPieces, UnitOf, IsDifference, TellsDifference, IsPiece, Paired, InsertUpTo;
    var pieces := AllPieces(deletions, additions, partner, paired);
    EveryUnitIsStored(digests, c, m, pieces, |pieces|);
    PairedMatches(c, m, deletions, additions, partner, paired);
    var units := InsertUpTo(digests, c, m, map[], pieces, |pieces|);
    if unit.id in units && units[unit.id] == unit {
      var i :| 0 <= i < |pieces| && UnitOf(digests, c, m, pieces[i]).id == unit.id;
      PiecesAre(c, m, deletions, additions, partner, paired, pieces[i]);
      PiecesAreDifferences(c, m, deletions, additions, partner, paired, pieces[i]);
      UnitTellsPiece(digests, c, m, pieces[i]);
    }
    if TellsDifference(digests, c, unit) {
      var piece := TellsPiece(digests, c, m, unit);
      PiecesAreDifferences(c, m, deletions, additions, partner, paired, piece);
      PiecesAre(c, m, deletions, additions, partner, paired, piece);
      var i :| 0 <= i < |pieces| && pieces[i] == piece;
    }
  }

  lemma PairedMatches(c: Comparison, m: LineMapping, deletions: seq<Span>, additions: seq<Span>, partner: seq<Option<nat>>, paired: set<nat>)
    requires Paired(c, m, deletions, additions, partner, paired)
    ensures c.Matches(m)
  {
  }
}
