/** What presence reversal guarantees, whichever path computes it. */
module DiscardReversalMeaning {
  import opened Wrappers
  import opened LineRanges
  import opened Realized
  import opened BaselineCorrespondence
  import opened DiscardReversal

  // ----------------------------------------------------- what blocks reversal

  /** A removed line whose own text has to come back. */
  predicate NeedsRestoring(request: Request, order: Order, line: nat) {
    Removes(request, order, line) && !Contains(request.structural, line)
  }

  /** A line whose removal brings back a whole hunk. */
  predicate Active(request: Request, order: Order, line: nat) {
    && NeedsRestoring(request, order, line)
    && !Contains(request.independent, line) && !Contains(request.separatelyRestored, line)
  }

  /** A by-hunk region that is wholly owned and meets no trusted line. */
  ghost predicate FreeToRestore(request: Request, region: Region) {
    && !HunkTouchesTrusted(request, region)
    && forall line :: region.first <= line <= region.last ==> Contains(request.presence, line)
  }

  /** Why reversal cannot remove a line. */
  ghost predicate Blocked(request: Request, order: Order, line: nat) {
    && NeedsRestoring(request, order, line)
    && match RegionFor(request.regions, line)
       case None => true
       case Some(region) =>
         match region.kind
         case Insert => false
         case ReplaceByHunk =>
           && Active(request, order, line)
           && !FreeToRestore(request, region)
         case _ => line - region.first >= |region.baseline|
  }

  /** Every restored hunk comes from a region that may be restored. */
  ghost predicate HunksAreFree(request: Request, hunks: set<nat>) {
    forall k :: 0 <= k < |request.regions| && request.regions[k].id in hunks ==> FreeToRestore(request, request.regions[k])
  }

  lemma LineSucceedsUnlessBlocked(request: Request, order: Order, line: nat, hunks: set<nat>)
    requires request.Valid() && HunksAreFree(request, hunks) && NeedsRestoring(request, order, line)
    ensures RestoreLine(request, line, hunks).Ok? <==> !Blocked(request, order, line)
    ensures RestoreLine(request, line, hunks).Ok? ==> HunksAreFree(request, RestoreLine(request, line, hunks).value.hunks)
  {
    hide FreeToRestore, HunksAreFree, RestoreHunk, Active;
    if RegionFor(request.regions, line).Some? && RegionFor(request.regions, line).value.kind == ReplaceByHunk {
      var k :| 0 <= k < |request.regions| && request.regions[k] == RegionFor(request.regions, line).value;
      HunkSucceedsIfFree(request, order, k, line, hunks);
    }
  }

  lemma HunkSucceedsIfFree(request: Request, order: Order, k: nat, line: nat, hunks: set<nat>)
    requires request.Valid() && HunksAreFree(request, hunks) && NeedsRestoring(request, order, line)
    requires k < |request.regions|
    ensures var r := RestoreHunk(request, request.regions[k], line, hunks);
      && (r.Ok? <==> !Active(request, order, line) || FreeToRestore(request, request.regions[k]))
      && (r.Ok? ==> HunksAreFree(request, r.value.hunks))
  {
    hide HunkTouchesTrusted, Removes;
    var region := request.regions[k];
    assert forall j :: 0 <= j < |request.regions| && request.regions[j].id == region.id ==> j == k;
    FullCountMeansAll(request.presence, region.first, region.last);
  }

  /** Whatever the worktree holds, reversal succeeds exactly when it meets no blocked line. */
  lemma {:induction false} SucceedsUnlessBlocked(request: Request, order: Order, entries: seq<Entry>, count: nat)
    requires request.Valid() && count <= |entries|
    ensures ReverseUpTo(request, order, entries, count).Ok?
       <==> forall i :: 0 <= i < count ==> !Blocked(request, order, entries[i].provenance.source)
    ensures ReverseUpTo(request, order, entries, count).Ok? ==>
      HunksAreFree(request, ReverseUpTo(request, order, entries, count).value.hunks)
  {
    hide RestoreLine, HunksAreFree, Blocked, Removes;
    if count > 0 {
      SucceedsUnlessBlocked(request, order, entries, count - 1);
      var line := entries[count - 1].provenance.source;
      var before := ReverseUpTo(request, order, entries, count - 1);
      if before.Ok? {
        if NeedsRestoring(request, order, line) {
          LineSucceedsUnlessBlocked(request, order, line, before.value.hunks);
        } else {
          OnlyRemovalBlocks(request, order, line);
        }
      }
    } else {
      NoHunksAreFree(request);
    }
  }

  lemma OnlyRemovalBlocks(request: Request, order: Order, line: nat)
    ensures Blocked(request, order, line) ==> NeedsRestoring(request, order, line)
  {
  }

  lemma NoHunksAreFree(request: Request)
    ensures HunksAreFree(request, {})
  {
  }

  // ------------------------------------------------- run path and entry path

  predicate BothExempt(request: Request, line: nat) {
    line != 0 && Contains(request.structural, line) && line in request.preserved
  }

  /** How many of the first `count` entries are structural and preserved at once. */
  function CountBothExempt(request: Request, entries: seq<Entry>, count: nat): nat
    requires count <= |entries|
  {
    if count == 0 then 0
    else
      var here := if BothExempt(request, entries[count - 1].provenance.source) then 1 else 0;
      CountBothExempt(request, entries, count - 1) + here
  }

  /** Both paths in step: the same hunks restored, and `extra` entries more by runs. */
  ghost predicate InStep(byRuns: Result<Progress, ReversalError>, byEntries: Result<Progress, ReversalError>, extra: nat) {
    match (byRuns, byEntries)
    case (Ok(a), Ok(b)) =>
      && a.hunks == b.hunks
      && |a.output| == |b.output| + extra
      && (extra == 0 ==> a.output == b.output)
    case (Err(a), Err(b)) => a == b
    case _ => false
  }

  /** The two paths fail together; otherwise one keeps just the doubly exempt entries more. */
  lemma {:induction false} PathsInStep(request: Request, entries: seq<Entry>, count: nat)
    requires count <= |entries|
    ensures InStep(ReverseUpTo(request, PreservedFirst, entries, count), ReverseUpTo(request, StructuralFirst, entries, count),
              CountBothExempt(request, entries, count))
  {
    hide RestoreLine, Contains, Unowned;
    if count > 0 {
      PathsInStep(request, entries, count - 1);
    }
  }

  lemma {:induction false} NoneBothExempt(request: Request, entries: seq<Entry>, count: nat)
    requires count <= |entries|
    ensures CountBothExempt(request, entries, count) == 0
       <==> forall i :: 0 <= i < count ==> !BothExempt(request, entries[i].provenance.source)
  {
    if count > 0 {
      NoneBothExempt(request, entries, count - 1);
    }
  }

  /** The reversal refuses: independent lines that are not trusted, or a line it cannot remove. */
  ghost predicate Refuses(request: Request, entries: seq<Entry>) {
    || !IsSubset(request.independent, request.trusted)
    || exists i :: 0 <= i < |entries| && Blocked(request, StructuralFirst, entries[i].provenance.source)
  }

  /**
   The run path and the entry path return the same entries, or fail alike, exactly
   when no entry is structural and preserved at once, or the request is refused.
   */
  lemma PathsAgree(request: Request, entries: seq<Entry>)
    requires request.Valid()
    ensures ReversalResult(request, PreservedFirst, entries) == ReversalResult(request, StructuralFirst, entries) <==>
      (Refuses(request, entries) || forall i :: 0 <= i < |entries| ==> !BothExempt(request, entries[i].provenance.source))
  {
    hide Blocked, IsSubset, BothExempt;
    PathsInStep(request, entries, |entries|);
    NoneBothExempt(request, entries, |entries|);
    SucceedsUnlessBlocked(request, StructuralFirst, entries, |entries|);
  }

  /** A worktree line that is structural and preserved: the run path keeps it, the entry path drops it. */
  lemma PathsCanDiffer()
    ensures exists request: Request, entries: seq<Entry> ::
      && request.Valid() && entries != [] && request.presence == [Span(1, 1)]
      && ReversalResult(request, PreservedFirst, entries) == Ok(entries)
      && ReversalResult(request, StructuralFirst, entries) == Ok([])
  {
    var one := [Span(1, 1)];
    var request := Request(one, one, [], [], [], {1}, []);
    var entry := Entry(Line("x"), Provenance(1, 1, false));
    assert one[0].first <= 1 <= one[0].last;
    ExemptEntry(request, entry);
    SingleEntryReversal(request, PreservedFirst, entry);
    SingleEntryReversal(request, StructuralFirst, entry);
    assert [entry] != [];
  }

  lemma ExemptEntry(request: Request, entry: Entry)
    requires BothExempt(request, entry.provenance.source)
    ensures Treat(request, PreservedFirst, entry, {}) == Ok(Restored(Kept(entry), {}))
    ensures Treat(request, StructuralFirst, entry, {}) == Ok(Restored(Dropped, {}))
  {
  }

  lemma SingleEntryReversal(request: Request, order: Order, entry: Entry)
    requires IsSubset(request.independent, request.trusted) && Treat(request, order, entry, {}).Ok?
    ensures ReversalResult(request, order, [entry]) == Ok(Render(Treat(request, order, entry, {}).value.piece))
  {
    hide Treat, Render, IsSubset;
    var start := Progress([], [], {});
    assert ReverseUpTo(request, order, [entry], 0) == Ok(start);
    assert ReverseUpTo(request, order, [entry], 1) == Ok(Add(start, Treat(request, order, entry, {}).value));
    assert [] + Render(Treat(request, order, entry, {}).value.piece) == Render(Treat(request, order, entry, {}).value.piece);
  }

  // --------------------------------------------------------- by-hunk regions

  function IsHunk(piece: Piece, id: nat): nat {
    if piece.OldHunk? && piece.region.id == id then 1 else 0
  }

  function HunkCount(pieces: seq<Piece>, count: nat, id: nat): nat
    requires count <= |pieces|
  {
    if count == 0 then 0 else HunkCount(pieces, count - 1, id) + IsHunk(pieces[count - 1], id)
  }

  lemma {:induction false} HunkCountPrefix(pieces: seq<Piece>, piece: Piece, count: nat, id: nat)
    requires count <= |pieces|
    ensures HunkCount(pieces + [piece], count, id) == HunkCount(pieces, count, id)
  {
    if count > 0 {
      HunkCountPrefix(pieces, piece, count - 1, id);
    }
  }

  lemma {:induction false} RenderPrefix(pieces: seq<Piece>, piece: Piece, count: nat)
    requires count <= |pieces|
    ensures RenderUpTo(pieces + [piece], count) == RenderUpTo(pieces, count)
  {
    if count > 0 {
      RenderPrefix(pieces, piece, count - 1);
    }
  }

  /** The output is what the pieces render to, one piece per entry read. */
  lemma {:induction false} OutputIsRendered(request: Request, order: Order, entries: seq<Entry>, count: nat)
    requires count <= |entries| && ReverseUpTo(request, order, entries, count).Ok?
    ensures var progress := ReverseUpTo(request, order, entries, count).value;
      |progress.pieces| == count && progress.output == RenderUpTo(progress.pieces, count)
  {
    hide Treat, Render;
    if count > 0 {
      OutputIsRendered(request, order, entries, count - 1);
      var before := ReverseUpTo(request, order, entries, count - 1).value;
      var after := ReverseUpTo(request, order, entries, count).value;
      RenderPrefix(before.pieces, after.pieces[count - 1], count - 1);
    }
  }

  /** An entry whose removal calls for the whole baseline side of a by-hunk region. */
  ghost predicate CallsForHunk(request: Request, order: Order, region: Region, line: nat) {
    && region.kind == ReplaceByHunk && RegionFor(request.regions, line) == Some(region)
    && Removes(request, order, line) && !Contains(request.structural, line)
    && !Contains(request.independent, line) && !Contains(request.separatelyRestored, line)
  }

  /**
   An old hunk comes from a wholly owned by-hunk region that meets no trusted line;
   a single old line never comes from a by-hunk region.
   */
  ghost predicate SoundPiece(request: Request, piece: Piece) {
    match piece
    case Kept(_) => true
    case Dropped => true
    case OldLine(region, content) => region in request.regions && region.kind != ReplaceByHunk && content in region.baseline
    case OldHunk(region) =>
      region in request.regions && region.kind == ReplaceByHunk && FreeToRestore(request, region)
  }

  /** Each restored hunk stands in the output once, and no other hunk does. */
  ghost predicate HunksOnce(pieces: seq<Piece>, hunks: set<nat>) {
    forall id :: HunkCount(pieces, |pieces|, id) == if id in hunks then 1 else 0
  }

  lemma TreatedPieceIsSound(request: Request, order: Order, entry: Entry, hunks: set<nat>)
    requires Treat(request, order, entry, hunks).Ok?
    ensures var restored := Treat(request, order, entry, hunks).value;
      && SoundPiece(request, restored.piece)
      && restored.hunks == (if restored.piece.OldHunk? then hunks + {restored.piece.region.id} else hunks)
      && (restored.piece.OldHunk? ==> restored.piece.region.id !in hunks)
  {
    var line := entry.provenance.source;
    if Removes(request, order, line) && !Contains(request.structural, line) {
      var region := RegionFor(request.regions, line).value;
      FullCountMeansAll(request.presence, region.first, region.last);
    }
  }

  lemma HunksStayOnce(pieces: seq<Piece>, hunks: set<nat>, piece: Piece)
    requires HunksOnce(pieces, hunks) && (piece.OldHunk? ==> piece.region.id !in hunks)
    ensures HunksOnce(pieces + [piece], if piece.OldHunk? then hunks + {piece.region.id} else hunks)
  {
    var all := pieces + [piece];
    var after := if piece.OldHunk? then hunks + {piece.region.id} else hunks;
    forall id ensures HunkCount(all, |all|, id) == if id in after then 1 else 0 {
      HunkCountPrefix(pieces, piece, |pieces|, id);
    }
  }

  /** By-hunk regions come back whole and at most once, and never from a partly owned region. */
  lemma {:induction false} HunksAreWhole(request: Request, order: Order, entries: seq<Entry>, count: nat)
    requires count <= |entries| && ReverseUpTo(request, order, entries, count).Ok?
    ensures var progress := ReverseUpTo(request, order, entries, count).value;
      && (forall i :: 0 <= i < |progress.pieces| ==> SoundPiece(request, progress.pieces[i]))
      && HunksOnce(progress.pieces, progress.hunks)
  {
    hide Treat, SoundPiece, Render;
    if count > 0 {
      HunksAreWhole(request, order, entries, count - 1);
      var before := ReverseUpTo(request, order, entries, count - 1).value;
      TreatedPieceIsSound(request, order, entries[count - 1], before.hunks);
      HunksStayOnce(before.pieces, before.hunks, Treat(request, order, entries[count - 1], before.hunks).value.piece);
    }
  }

  /** Every removed line that calls for a hunk gets it: exactly one old hunk stands in the output. */
  lemma CalledHunksArrive(request: Request, order: Order, entries: seq<Entry>, count: nat, i: nat, region: Region)
    requires i < count <= |entries| && ReverseUpTo(request, order, entries, count).Ok?
    requires CallsForHunk(request, order, region, entries[i].provenance.source)
    ensures HunkCount(ReverseUpTo(request, order, entries, count).value.pieces, count, region.id) == 1
  {
    hide ReverseUpTo, SoundPiece;
    HunksAreWhole(request, order, entries, count);
    HunkIsRecorded(request, order, entries, count, i, region);
  }

  lemma CalledHunkIsRecorded(request: Request, order: Order, region: Region, entry: Entry, hunks: set<nat>)
    requires CallsForHunk(request, order, region, entry.provenance.source) && Treat(request, order, entry, hunks).Ok?
    ensures region.id in Treat(request, order, entry, hunks).value.hunks
  {
  }

  lemma {:induction false} HunkIsRecorded(request: Request, order: Order, entries: seq<Entry>, count: nat, i: nat, region: Region)
    requires i < count <= |entries| && ReverseUpTo(request, order, entries, count).Ok?
    requires CallsForHunk(request, order, region, entries[i].provenance.source)
    ensures region.id in ReverseUpTo(request, order, entries, count).value.hunks
    decreases count
  {
    hide SoundPiece, Treat;
    var before := ReverseUpTo(request, order, entries, count - 1).value;
    if i == count - 1 {
      CalledHunkIsRecorded(request, order, region, entries[i], before.hunks);
    } else {
      TreatedPieceIsSound(request, order, entries[count - 1], before.hunks);
      HunkIsRecorded(request, order, entries, count - 1, i, region);
    }
  }

  // ------------------------------------------------- what every entry leaves

  /** One of the first entries has already called for the hunk of the region. */
  ghost predicate Started(request: Request, order: Order, region: Region, entries: seq<Entry>, count: nat)
    requires count <= |entries|
  {
    exists j :: 0 <= j < count && Calls(request, order, region, entries[j].provenance.source)
  }

  ghost predicate Calls(request: Request, order: Order, region: Region, line: nat) {
    region.first <= line <= region.last && Active(request, order, line)
  }

  /** What stands in the output for one entry. */
  ghost function Emission(request: Request, order: Order, entries: seq<Entry>, i: nat): seq<Entry>
    requires i < |entries|
  {
    var line := entries[i].provenance.source;
    if !Removes(request, order, line) then [entries[i]]
    else if Contains(request.structural, line) || RegionFor(request.regions, line).None? then []
    else
      var region := RegionFor(request.regions, line).value;
      match region.kind
      case Insert => []
      case ReplaceByHunk =>
        if Active(request, order, line) && !Started(request, order, region, entries, i) then Unowned(region.baseline) else []
      case _ =>
        if line - region.first < |region.baseline| then Unowned([region.baseline[line - region.first]]) else []
  }

  ghost function EmissionsUpTo(request: Request, order: Order, entries: seq<Entry>, count: nat): seq<Entry>
    requires count <= |entries|
  {
    if count == 0 then []
    else EmissionsUpTo(request, order, entries, count - 1) + Emission(request, order, entries, count - 1)
  }

  /** The hunks restored so far are those whose region has seen an active line. */
  ghost predicate HunksTrack(request: Request, order: Order, restoredHunks: set<nat>, entries: seq<Entry>, count: nat)
    requires count <= |entries|
  {
    forall k :: 0 <= k < |request.regions| && request.regions[k].kind == ReplaceByHunk ==>
      (request.regions[k].id in restoredHunks <==> Started(request, order, request.regions[k], entries, count))
  }

  /** None of the first entries comes from a blocked line. */
  ghost predicate Unblocked(request: Request, order: Order, entries: seq<Entry>, count: nat)
    requires count <= |entries|
  {
    forall i :: 0 <= i < count ==> !Blocked(request, order, entries[i].provenance.source)
  }

  lemma HunkEmits(request: Request, order: Order, entries: seq<Entry>, i: nat, hunks: set<nat>, k: nat)
    requires Ordered(request.regions) && i < |entries| && k < |request.regions|
    requires var region := request.regions[k];
      region.kind == ReplaceByHunk && region.first <= entries[i].provenance.source <= region.last
    requires request.regions[k].id in hunks <==> Started(request, order, request.regions[k], entries, i)
    requires NeedsRestoring(request, order, entries[i].provenance.source) && RestoreLine(request, entries[i].provenance.source, hunks).Ok?
    ensures Render(RestoreLine(request, entries[i].provenance.source, hunks).value.piece) == Emission(request, order, entries, i)
  {
    hide Started;
    RegionIsUnique(request.regions, entries[i].provenance.source, k);
  }

  /** A line that can be removed leaves its emission. */
  lemma RestoreEmits(request: Request, order: Order, entries: seq<Entry>, i: nat, hunks: set<nat>)
    requires request.Valid() && i < |entries| && HunksTrack(request, order, hunks, entries, i)
    requires NeedsRestoring(request, order, entries[i].provenance.source) && RestoreLine(request, entries[i].provenance.source, hunks).Ok?
    ensures Render(RestoreLine(request, entries[i].provenance.source, hunks).value.piece) == Emission(request, order, entries, i)
  {
    hide Started;
    var region := RegionFor(request.regions, entries[i].provenance.source).value;
    if region.kind == ReplaceByHunk {
      var k :| 0 <= k < |request.regions| && request.regions[k] == region;
      HunkEmits(request, order, entries, i, hunks, k);
    }
  }

  lemma StartedGrows(request: Request, order: Order, region: Region, entries: seq<Entry>, i: nat)
    requires i < |entries|
    ensures Started(request, order, region, entries, i + 1)
       <==> Started(request, order, region, entries, i) || Calls(request, order, region, entries[i].provenance.source)
  {
    hide Calls;
  }

  lemma TrackStays(request: Request, order: Order, entries: seq<Entry>, i: nat, restoredHunks: set<nat>)
    requires i < |entries| && HunksTrack(request, order, restoredHunks, entries, i)
    requires !Active(request, order, entries[i].provenance.source)
    ensures HunksTrack(request, order, restoredHunks, entries, i + 1)
  {
    hide Started, Active;
    forall k | 0 <= k < |request.regions| && request.regions[k].kind == ReplaceByHunk
      ensures request.regions[k].id in restoredHunks <==> Started(request, order, request.regions[k], entries, i + 1)
    {
      StartedGrows(request, order, request.regions[k], entries, i);
    }
  }

  lemma TrackGrows(request: Request, order: Order, entries: seq<Entry>, i: nat, restoredHunks: set<nat>)
    requires Ordered(request.regions) && i < |entries| && HunksTrack(request, order, restoredHunks, entries, i)
    requires Active(request, order, entries[i].provenance.source) && RestoreLine(request, entries[i].provenance.source, restoredHunks).Ok?
    ensures HunksTrack(request, order, RestoreLine(request, entries[i].provenance.source, restoredHunks).value.hunks, entries, i + 1)
  {
    hide Started;
    var line := entries[i].provenance.source;
    var region := RegionFor(request.regions, line).value;
    var own :| 0 <= own < |request.regions| && request.regions[own] == region;
    var after := RestoreLine(request, line, restoredHunks).value.hunks;
    forall k | 0 <= k < |request.regions| && request.regions[k].kind == ReplaceByHunk
      ensures request.regions[k].id in after <==> Started(request, order, request.regions[k], entries, i + 1)
    {
      StartedGrows(request, order, request.regions[k], entries, i);
      if request.regions[k].first <= line <= request.regions[k].last {
        RegionIsUnique(request.regions, line, k);
      }
      assert k == own || request.regions[k].id != request.regions[own].id;
    }
  }

  /**
   Whatever the worktree holds, reversal succeeds exactly when no entry comes from a blocked line, and
   then writes every entry's emission in worktree order.
   */
  lemma WorktreeReversal(request: Request, order: Order, entries: seq<Entry>, count: nat)
    requires request.Valid() && count <= |entries|
    ensures ReverseUpTo(request, order, entries, count).Ok? <==> Unblocked(request, order, entries, count)
    ensures match ReverseUpTo(request, order, entries, count)
      case Err(_) => true
      case Ok(progress) => progress.output == EmissionsUpTo(request, order, entries, count)
  {
    hide Blocked, ReverseUpTo;
    SucceedsUnlessBlocked(request, order, entries, count);
    if ReverseUpTo(request, order, entries, count).Ok? {
      EntriesEmit(request, order, entries, count);
    }
  }

  lemma {:induction false} EntriesEmit(request: Request, order: Order, entries: seq<Entry>, count: nat)
    requires request.Valid() && count <= |entries| && ReverseUpTo(request, order, entries, count).Ok?
    ensures var progress := ReverseUpTo(request, order, entries, count).value;
      && progress.output == EmissionsUpTo(request, order, entries, count)
      && HunksTrack(request, order, progress.hunks, entries, count)
  {
    hide Treat, Emission, HunksTrack;
    if count > 0 {
      EntriesEmit(request, order, entries, count - 1);
      EntryEmits(request, order, entries, count - 1, ReverseUpTo(request, order, entries, count - 1).value.hunks);
    } else {
      NothingStarted(request, order, entries);
    }
  }

  lemma NothingStarted(request: Request, order: Order, entries: seq<Entry>)
    requires request.Valid()
    ensures HunksTrack(request, order, {}, entries, 0)
  {
  }

  lemma EntryEmits(request: Request, order: Order, entries: seq<Entry>, i: nat, hunks: set<nat>)
    requires request.Valid() && i < |entries| && HunksTrack(request, order, hunks, entries, i)
    requires Treat(request, order, entries[i], hunks).Ok?
    ensures var next := Treat(request, order, entries[i], hunks).value;
      Render(next.piece) == Emission(request, order, entries, i) && HunksTrack(request, order, next.hunks, entries, i + 1)
  {
    hide HunksTrack;
    var line := entries[i].provenance.source;
    if NeedsRestoring(request, order, line) {
      RestoreEmits(request, order, entries, i, hunks);
      if Active(request, order, line) {
        TrackGrows(request, order, entries, i, hunks);
      } else {
        InactiveKeepsHunks(request, order, line, hunks);
        TrackStays(request, order, entries, i, hunks);
      }
    } else {
      TrackStays(request, order, entries, i, hunks);
    }
  }

  lemma InactiveKeepsHunks(request: Request, order: Order, line: nat, hunks: set<nat>)
    requires NeedsRestoring(request, order, line) && !Active(request, order, line)
    ensures match RestoreLine(request, line, hunks)
      case Err(_) => true
      case Ok(added) => added.hunks == hunks
  {
  }

  // ------------------------------------------------ a batch that owns it all

  /** The entries of a worktree that equals its batch source. */
  function SourceEntries(source: seq<Line>): (entries: seq<Entry>)
    ensures |entries| == |source|
  {
    LinearEntries(source, 1, 1, false)
  }

  lemma SourceEntryAt(source: seq<Line>, i: nat)
    requires i < |source|
    ensures SourceEntries(source)[i] == Entry(source[i], Provenance(i + 1, i + 1, false))
  {
  }

  /** What the entry of a source line leaves in a worktree equal to the source. */
  ghost function LineEmission(request: Request, order: Order, source: seq<Line>, line: nat): seq<Entry>
    requires 1 <= line <= |source|
  {
    Emission(request, order, SourceEntries(source), line - 1)
  }

  /** Insertions have no baseline side; line-wise regions have one baseline line per source line. */
  predicate WellShaped(region: Region) {
    && (region.kind == Insert ==> region.baseline == [])
    && (region.kind == Equal || region.kind == ReplaceLineByLine ==> |region.baseline| == region.last - region.first + 1)
  }

  /** Well-shaped regions tile the source lines 1..count. */
  ghost predicate TilesSource(regions: seq<Region>, count: nat) {
    if regions == [] then count == 0
    else
      var last := regions[|regions| - 1];
      1 <= last.first <= last.last == count && WellShaped(last) && TilesSource(regions[..|regions| - 1], last.first - 1)
  }

  function BaselineOf(regions: seq<Region>): seq<Line> {
    if regions == [] then []
    else BaselineOf(regions[..|regions| - 1]) + regions[|regions| - 1].baseline
  }

  /** The request of a batch that owns the first `count` source lines, with nothing else at play. */
  ghost predicate OwnsEverything(request: Request, count: nat) {
    && request.Valid()
    && (forall line :: 1 <= line <= count ==> Contains(request.presence, line))
    && request.structural == [] && request.trusted == [] && request.independent == []
    && request.separatelyRestored == [] && request.preserved == {}
  }

  lemma {:induction false} TilesSourcePrefix(regions: seq<Region>, count: nat, r: nat)
    requires TilesSource(regions, count) && r < |regions|
    ensures 1 <= regions[r].first <= regions[r].last <= count && WellShaped(regions[r])
    ensures regions[r].first - 1 == if r == 0 then 0 else regions[r - 1].last
    ensures r + 1 == |regions| ==> regions[r].last == count
  {
    var init := regions[..|regions| - 1];
    if r + 1 < |regions| {
      TilesSourcePrefix(init, regions[|regions| - 1].first - 1, r);
    } else if r > 0 {
      assert init[|init| - 1] == regions[r - 1];
    }
  }

  /** The baseline lines that the first `done` lines of a fully owned region bring back. */
  function RegionSoFar(region: Region, done: nat): seq<Line> {
    match region.kind
    case Insert => []
    case ReplaceByHunk => if done == 0 then [] else region.baseline
    case _ => if done <= |region.baseline| then region.baseline[..done] else region.baseline
  }

  function BroughtBack(region: Region, done: nat): seq<Entry> {
    Unowned(RegionSoFar(region, done))
  }

  /** What stands in the output after each prefix of a fully owned region. */
  function BuiltBy(region: Region): (built: seq<seq<Entry>>)
    requires region.first <= region.last
    ensures |built| == region.last - region.first + 2
    ensures forall done :: 0 <= done < |built| ==> built[done] == BroughtBack(region, done)
  {
    seq(region.last - region.first + 2, done requires 0 <= done => BroughtBack(region, done))
  }

  lemma UnownedAppend(a: seq<Line>, b: seq<Line>)
    ensures Unowned(a + b) == Unowned(a) + Unowned(b)
  {
    var whole, parts := Unowned(a + b), Unowned(a) + Unowned(b);
    forall i | 0 <= i < |a| + |b| ensures whole[i] == parts[i] {
      if i >= |a| {
        assert (a + b)[i] == b[i - |a|];
      }
    }
  }

  lemma OwnedLineIsActive(request: Request, order: Order, count: nat, line: nat)
    requires OwnsEverything(request, count) && 1 <= line <= count
    ensures Active(request, order, line)
  {
  }

  lemma OwnedHunkEmits(request: Request, order: Order, source: seq<Line>, region: Region, line: nat)
    requires OwnsEverything(request, |source|) && region.kind == ReplaceByHunk
    requires 1 <= region.first <= line <= region.last <= |source| && RegionFor(request.regions, line) == Some(region)
    ensures !Blocked(request, order, line)
    ensures LineEmission(request, order, source, line) == if line == region.first then Unowned(region.baseline) else []
  {
    OwnedLineIsActive(request, order, |source|, line);
    SourceEntryAt(source, line - 1);
    SourceEntryAt(source, region.first - 1);
    if line > region.first {
      OwnedLineIsActive(request, order, |source|, region.first);
      assert Calls(request, order, region, SourceEntries(source)[region.first - 1].provenance.source);
      assert Started(request, order, region, SourceEntries(source), line - 1);
    } else {
      NotStartedAtFirst(request, order, source, region);
    }
  }

  lemma NotStartedAtFirst(request: Request, order: Order, source: seq<Line>, region: Region)
    requires 1 <= region.first <= |source|
    ensures !Started(request, order, region, SourceEntries(source), region.first - 1)
  {
    hide Active;
    forall j | 0 <= j < region.first - 1 ensures !Calls(request, order, region, SourceEntries(source)[j].provenance.source) {
      SourceEntryAt(source, j);
    }
  }

  lemma OwnedOldLineEmits(request: Request, order: Order, source: seq<Line>, region: Region, line: nat)
    requires OwnsEverything(request, |source|) && region.kind in {Equal, ReplaceLineByLine} && WellShaped(region)
    requires 1 <= region.first <= line <= region.last <= |source| && RegionFor(request.regions, line) == Some(region)
    ensures !Blocked(request, order, line)
    ensures LineEmission(request, order, source, line) == Unowned([region.baseline[line - region.first]])
  {
    OwnedLineIsActive(request, order, |source|, line);
    SourceEntryAt(source, line - 1);
  }

  lemma OldLineExtends(region: Region, done: nat)
    requires region.kind in {Equal, ReplaceLineByLine} && done < |region.baseline|
    ensures BroughtBack(region, done) + Unowned([region.baseline[done]]) == BroughtBack(region, done + 1)
  {
    UnownedAppend(region.baseline[..done], [region.baseline[done]]);
    assert region.baseline[..done + 1] == region.baseline[..done] + [region.baseline[done]];
  }

  lemma OwnedInsertEmits(request: Request, order: Order, source: seq<Line>, region: Region, line: nat)
    requires OwnsEverything(request, |source|) && region.kind == Insert
    requires 1 <= region.first <= line <= region.last <= |source| && RegionFor(request.regions, line) == Some(region)
    ensures !Blocked(request, order, line) && LineEmission(request, order, source, line) == []
    ensures forall done :: BroughtBack(region, done) == []
  {
    OwnedLineIsActive(request, order, |source|, line);
    SourceEntryAt(source, line - 1);
  }

  lemma OwnedLineEmits(request: Request, order: Order, source: seq<Line>, r: nat, line: nat)
    requires OwnsEverything(request, |source|) && r < |request.regions| && WellShaped(request.regions[r])
    requires 1 <= request.regions[r].first <= line <= request.regions[r].last <= |source|
    ensures !Blocked(request, order, line)
    ensures BroughtBack(request.regions[r], line - request.regions[r].first) + LineEmission(request, order, source, line)
         == BroughtBack(request.regions[r], line - request.regions[r].first + 1)
  {
    hide LineEmission, Blocked, Active, Unowned;
    var region := request.regions[r];
    var done := line - region.first;
    RegionIsUnique(request.regions, line, r);
    match region.kind {
      case Insert =>
        OwnedInsertEmits(request, order, source, region, line);
      case ReplaceByHunk =>
        OwnedHunkEmits(request, order, source, region, line);
      case _ =>
        OwnedOldLineEmits(request, order, source, region, line);
        OldLineExtends(region, done);
    }
  }

  /** Per-line outputs joined up to a line. */
  function JoinUpTo(outputs: seq<seq<Entry>>, count: nat): seq<Entry>
    requires count <= |outputs|
  {
    if count == 0 then [] else JoinUpTo(outputs, count - 1) + outputs[count - 1]
  }

  lemma {:induction false} EmissionsJoin(request: Request, order: Order, source: seq<Line>, outputs: seq<seq<Entry>>, count: nat)
    requires |outputs| == |source| && count <= |source|
    requires forall line :: 1 <= line <= |source| ==> outputs[line - 1] == LineEmission(request, order, source, line)
    ensures EmissionsUpTo(request, order, SourceEntries(source), count) == JoinUpTo(outputs, count)
  {
    hide Emission;
    if count > 0 {
      EmissionsJoin(request, order, source, outputs, count - 1);
      var line := count;
      assert outputs[line - 1] == LineEmission(request, order, source, line);
    }
  }

  /** One line's output extends what its region has built so far. */
  ghost predicate Extends(outputs: seq<seq<Entry>>, first: nat, built: seq<seq<Entry>>, line: nat)
    requires 1 <= first <= line <= |outputs| && line - first + 1 < |built|
  {
    built[line - first] + outputs[line - 1] == built[line - first + 1]
  }

  /** Line by line, the outputs build up the baseline side of the region. */
  ghost predicate BuildsUp(outputs: seq<seq<Entry>>, region: Region)
    requires 1 <= region.first <= region.last <= |outputs|
  {
    var built := BuiltBy(region);
    forall line :: region.first <= line <= region.last ==> Extends(outputs, region.first, built, line)
  }

  lemma {:induction false} LinesJoin(outputs: seq<seq<Entry>>, first: nat, built: seq<seq<Entry>>, line: nat)
    requires 1 <= first <= line + 1 <= |outputs| + 1 && line - first + 1 < |built| && built[0] == []
    requires forall x :: first <= x <= line ==> Extends(outputs, first, built, x)
    ensures JoinUpTo(outputs, line) == JoinUpTo(outputs, first - 1) + built[line - first + 1]
  {
    if line >= first {
      LinesJoin(outputs, first, built, line - 1);
      assert Extends(outputs, first, built, line);
      var before, sofar := JoinUpTo(outputs, first - 1), built[line - first];
      assert (before + sofar) + outputs[line - 1] == before + (sofar + outputs[line - 1]);
    }
  }

  lemma WholeRegion(region: Region)
    requires WellShaped(region) && region.first <= region.last
    ensures BroughtBack(region, region.last - region.first + 1) == Unowned(region.baseline)
    ensures BroughtBack(region, 0) == []
  {
    assert RegionSoFar(region, region.last - region.first + 1) == region.baseline;
    assert RegionSoFar(region, 0) == [];
  }

  lemma BaselineNext(regions: seq<Region>, r: nat)
    requires r < |regions|
    ensures BaselineOf(regions[..r + 1]) == BaselineOf(regions[..r]) + regions[r].baseline
  {
    assert regions[..r + 1][..r] == regions[..r];
  }

  lemma RegionJoins(outputs: seq<seq<Entry>>, region: Region)
    requires WellShaped(region) && 1 <= region.first <= region.last <= |outputs| && BuildsUp(outputs, region)
    ensures JoinUpTo(outputs, region.last) == JoinUpTo(outputs, region.first - 1) + Unowned(region.baseline)
  {
    hide BuiltBy, BroughtBack, Extends, Unowned, JoinUpTo;
    WholeRegion(region);
    LinesJoin(outputs, region.first, BuiltBy(region), region.last);
  }

  lemma {:induction false} RegionsJoin(outputs: seq<seq<Entry>>, regions: seq<Region>, r: nat)
    requires TilesSource(regions, |outputs|) && r <= |regions|
    requires forall k :: 0 <= k < |regions| ==>
      1 <= regions[k].first <= regions[k].last <= |outputs| && BuildsUp(outputs, regions[k])
    ensures var upto := if r == 0 then 0 else regions[r - 1].last;
      upto <= |outputs| && JoinUpTo(outputs, upto) == Unowned(BaselineOf(regions[..r]))
  {
    if r == 0 {
      assert Unowned([]) == [];
    } else {
      RegionsJoin(outputs, regions, r - 1);
      TilesSourcePrefix(regions, |outputs|, r - 1);
      var region := regions[r - 1];
      RegionJoins(outputs, region);
      BaselineNext(regions, r - 1);
      UnownedAppend(BaselineOf(regions[..r - 1]), region.baseline);
    }
  }

  lemma {:induction false} LineInRegion(regions: seq<Region>, count: nat, line: nat) returns (r: nat)
    requires TilesSource(regions, count) && 1 <= line <= count
    ensures r < |regions| && regions[r].first <= line <= regions[r].last
  {
    var last := regions[|regions| - 1];
    if line >= last.first {
      r := |regions| - 1;
    } else {
      r := LineInRegion(regions[..|regions| - 1], last.first - 1, line);
    }
  }

  lemma OwnedRegionBuildsUp(request: Request, order: Order, source: seq<Line>, outputs: seq<seq<Entry>>, k: nat)
    requires OwnsEverything(request, |source|) && TilesSource(request.regions, |source|) && k < |request.regions|
    requires |outputs| == |source|
    requires forall line :: 1 <= line <= |source| ==> outputs[line - 1] == LineEmission(request, order, source, line)
    ensures 1 <= request.regions[k].first <= request.regions[k].last <= |outputs| && BuildsUp(outputs, request.regions[k])
  {
    hide LineEmission, Blocked, BroughtBack, Unowned;
    TilesSourcePrefix(request.regions, |source|, k);
    var region := request.regions[k];
    var built := BuiltBy(region);
    forall line | region.first <= line <= region.last ensures Extends(outputs, region.first, built, line) {
      OwnedLineEmits(request, order, source, k, line);
    }
  }

  /** Nothing blocks a batch that owns the whole source. */
  lemma OwnedIsUnblocked(request: Request, order: Order, source: seq<Line>)
    requires OwnsEverything(request, |source|) && TilesSource(request.regions, |source|)
    ensures Unblocked(request, order, SourceEntries(source), |source|)
  {
    hide Blocked, LineEmission;
    forall i | 0 <= i < |source| ensures !Blocked(request, order, SourceEntries(source)[i].provenance.source) {
      SourceEntryAt(source, i);
      var line := i + 1;
      var r := LineInRegion(request.regions, |source|, line);
      TilesSourcePrefix(request.regions, |source|, r);
      OwnedLineEmits(request, order, source, r, line);
    }
  }

  ghost function Emissions(request: Request, order: Order, source: seq<Line>): (outputs: seq<seq<Entry>>)
    ensures |outputs| == |source|
    ensures forall line :: 1 <= line <= |source| ==> outputs[line - 1] == LineEmission(request, order, source, line)
  {
    seq(|source|, i requires 0 <= i < |source| => LineEmission(request, order, source, i + 1))
  }

  lemma OwnedEmissions(request: Request, order: Order, source: seq<Line>)
    requires OwnsEverything(request, |source|) && TilesSource(request.regions, |source|)
    ensures EmissionsUpTo(request, order, SourceEntries(source), |source|) == Unowned(BaselineOf(request.regions))
  {
    var outputs, regions := Emissions(request, order, source), request.regions;
    forall k | 0 <= k < |regions|
      ensures 1 <= regions[k].first <= regions[k].last <= |outputs| && BuildsUp(outputs, regions[k])
    {
      OwnedRegionBuildsUp(request, order, source, outputs, k);
    }
    RegionsJoin(outputs, regions, |regions|);
    assert regions[..|regions|] == regions;
    if regions != [] {
      TilesSourcePrefix(regions, |source|, |regions| - 1);
    }
    EmissionsJoin(request, order, source, outputs, |source|);
  }

  /** Reversing a batch that owns the whole source yields the baseline of every region, in source order. */
  lemma FullOwnershipRestoresBaseline(request: Request, order: Order, source: seq<Line>)
    requires OwnsEverything(request, |source|) && TilesSource(request.regions, |source|)
    ensures ReversalResult(request, order, SourceEntries(source)) == Ok(Unowned(BaselineOf(request.regions)))
  {
    hide LineEmission, Blocked, TilesSource, ReverseUpTo, BaselineOf, Unblocked, EmissionsUpTo;
    OwnedEmissions(request, order, source);
    OwnedIsUnblocked(request, order, source);
    WorktreeReversal(request, order, SourceEntries(source), |source|);
  }
}
