/**
 Re-inserting old text at anchored source boundaries (batch/discard.py:1872-2162).
 */
module DiscardRestoration {
  import opened Wrappers
  import opened MappedRecords
  import opened Tags
  import opened Realized
  import opened DiscardReversal
  import opened Ownership

  datatype AnchorError = MissingAnchor(line: nat) | UnclaimedAmbiguity(line: nat, count: nat) | ClaimedAmbiguity(line: nat, count: nat)

  datatype RestoreError = Anchor(error: AnchorError) | AmbiguousReplacement | MissingTrustedTarget | InvalidRange | OutsideSource(line: int)

  // ------------------------------------------------- the source boundary index

  /** A realized source line and the entry boundary right after it. */
  datatype SourceBoundary = SourceBoundary(line: nat, boundary: nat, claimed: bool)

  predicate BoundaryLe(a: SourceBoundary, b: SourceBoundary) {
    || a.line < b.line
    || (a.line == b.line && (a.boundary < b.boundary || (a.boundary == b.boundary && (a.claimed ==> b.claimed))))
  }

  lemma BoundaryLeIsTotal()
    ensures TotalOrder(BoundaryLe)
  {
  }

  /** The records of the first `count` entries, in entry order. */
  function RecordsUpTo(entries: seq<Entry>, count: nat): seq<SourceBoundary>
    requires count <= |entries|
  {
    if count == 0 then []
    else
      var p := entries[count - 1].provenance;
      RecordsUpTo(entries, count - 1) + (if p.source == 0 then [] else [SourceBoundary(p.source, count, p.claimed)])
  }

  /** The sorted index over all realized source lines. */
  function BoundaryIndex(entries: seq<Entry>): seq<SourceBoundary> {
    BoundaryLeIsTotal();
    Sort(RecordsUpTo(entries, |entries|), BoundaryLe)
  }

  function OnLine(records: seq<SourceBoundary>, line: nat): seq<SourceBoundary> {
    if records == [] then []
    else OnLine(records[..|records| - 1], line) + (if records[|records| - 1].line == line then [records[|records| - 1]] else [])
  }

  function Claimed(records: seq<SourceBoundary>): seq<SourceBoundary> {
    if records == [] then []
    else Claimed(records[..|records| - 1]) + (if records[|records| - 1].claimed then [records[|records| - 1]] else [])
  }

  /** The one boundary that a line's realized occurrences single out. */
  function Resolve(found: seq<SourceBoundary>, line: nat): Result<nat, AnchorError> {
    if |found| == 0 then Err(MissingAnchor(line))
    else if |found| == 1 then Ok(found[0].boundary)
    else
      var claimed := Claimed(found);
      if |claimed| == 1 then Ok(claimed[0].boundary)
      else if |claimed| == 0 then Err(UnclaimedAmbiguity(line, |found|))
      else Err(ClaimedAmbiguity(line, |claimed|))
  }

  /** Where the text after an anchor line begins. */
  function AnchorBoundary(entries: seq<Entry>, line: nat): Result<nat, AnchorError> {
    if line == 0 then Ok(0) else Resolve(OnLine(RecordsUpTo(entries, |entries|), line), line)
  }

  lemma {:induction false} OnLineCounts(records: seq<SourceBoundary>, line: nat, r: SourceBoundary)
    ensures multiset(OnLine(records, line))[r] == if r.line == line then multiset(records)[r] else 0
  {
    if records != [] {
      var init, last := records[..|records| - 1], records[|records| - 1];
      OnLineCounts(init, line, r);
      assert records == init + [last];
    }
  }

  lemma {:induction false} OnLineSorted(records: seq<SourceBoundary>, line: nat)
    requires Sorted(records, BoundaryLe)
    ensures Sorted(OnLine(records, line), BoundaryLe)
    ensures forall r :: r in OnLine(records, line) ==> r in records
  {
    if records != [] {
      var init, last := records[..|records| - 1], records[|records| - 1];
      OnLineSorted(init, line);
      forall r | r in OnLine(init, line) ensures BoundaryLe(r, last) {
        var i :| 0 <= i < |init| && init[i] == r;
        assert records[i] == r;
      }
      AppendSorted(OnLine(init, line), last, BoundaryLe);
    }
  }

  lemma {:induction false} RecordsAscend(entries: seq<Entry>, count: nat, line: nat)
    requires count <= |entries|
    ensures Sorted(OnLine(RecordsUpTo(entries, count), line), BoundaryLe)
    ensures forall r :: r in OnLine(RecordsUpTo(entries, count), line) ==> r.line == line && r.boundary <= count
  {
    if count > 0 {
      RecordsAscend(entries, count - 1, line);
      var p, before := entries[count - 1].provenance, RecordsUpTo(entries, count - 1);
      if p.source == 0 {
        assert before + [] == before;
      } else {
        var next := SourceBoundary(p.source, count, p.claimed);
        OnLineAppend(before, next, line);
        if next.line == line {
          AppendSorted(OnLine(before, line), next, BoundaryLe);
        }
      }
    }
  }

  lemma OnLineAppend(records: seq<SourceBoundary>, r: SourceBoundary, line: nat)
    ensures OnLine(records + [r], line) == OnLine(records, line) + (if r.line == line then [r] else [])
  {
    assert (records + [r])[..|records|] == records;
  }

  /** Looking a line up in the sorted index finds its occurrences in entry order. */
  lemma IndexFindsLine(entries: seq<Entry>, line: nat)
    ensures OnLine(BoundaryIndex(entries), line) == OnLine(RecordsUpTo(entries, |entries|), line)
  {
    hide OnLine, RecordsUpTo;
    BoundaryLeIsTotal();
    var records, index := RecordsUpTo(entries, |entries|), BoundaryIndex(entries);
    RecordsAscend(entries, |entries|, line);
    OnLineSorted(index, line);
    forall r ensures multiset(OnLine(index, line))[r] == multiset(OnLine(records, line))[r] {
      OnLineCounts(index, line, r);
      OnLineCounts(records, line, r);
    }
    SortedIsUnique(OnLine(index, line), OnLine(records, line), BoundaryLe);
  }

  /** Index every realized source line, run by run. */
  method BuildSourceBoundaryIndex(entries: RealizedEntries) returns (boundaries: seq<SourceBoundary>)
    requires entries.Valid()
    ensures boundaries == BoundaryIndex(entries.Entries())
  {
    BoundaryLeIsTotal();
    var records: seq<SourceBoundary> := [];
    ghost var all := entries.Entries();
    var r := 0;
    ghost var cursor := 0;
    if entries.runs != [] {
      TilesPrefix(entries.runs, |entries.runs|, |entries.contents|, 0);
    }
    while r < |entries.runs|
      invariant 0 <= r <= |entries.runs|
      invariant cursor == if r < |entries.runs| then entries.runs[r].start else |all|
      invariant cursor <= |all| && records == RecordsUpTo(all, cursor)
    {
      RunsCarry(entries.contents, entries.runs, r);
      TilesPrefix(entries.runs, |entries.runs|, |entries.contents|, r);
      records := IndexRun(entries.runs[r], records, all);
      cursor := entries.runs[r].end;
      r := r + 1;
    }
    boundaries := Sort(records, BoundaryLe);
  }

  method IndexRun(run: Run, before: seq<SourceBoundary>, ghost all: seq<Entry>) returns (records: seq<SourceBoundary>)
    requires run.start < run.end <= |all| && Carries(all, run)
    requires before == RecordsUpTo(all, run.start)
    ensures records == RecordsUpTo(all, run.end)
  {
    records := before;
    if run.source == 0 {
      SkipsUnmapped(all, run, run.end);
      return;
    }
    var offset := 0;
    while offset < run.end - run.start
      invariant 0 <= offset <= run.end - run.start
      invariant records == RecordsUpTo(all, run.start + offset)
    {
      records := records + [SourceBoundary(run.source + offset, run.start + offset + 1, run.claimed)];
      offset := offset + 1;
    }
  }

  lemma {:induction false} SkipsUnmapped(all: seq<Entry>, run: Run, upto: nat)
    requires run.start <= upto <= run.end <= |all| && run.start < run.end && Carries(all, run) && run.source == 0
    ensures RecordsUpTo(all, upto) == RecordsUpTo(all, run.start)
    decreases upto
  {
    if run.start < upto {
      SkipsUnmapped(all, run, upto - 1);
      assert RecordsUpTo(all, upto - 1) + [] == RecordsUpTo(all, upto - 1);
    }
  }

  /** Binary search for the first record on or after a line. */
  method FirstSourceBoundaryRecord(boundaries: seq<SourceBoundary>, line: nat) returns (first: nat)
    requires Sorted(boundaries, BoundaryLe)
    ensures first <= |boundaries|
    ensures forall i :: 0 <= i < first ==> boundaries[i].line < line
    ensures forall i :: first <= i < |boundaries| ==> line <= boundaries[i].line
  {
    var lower, upper := 0, |boundaries|;
    while lower < upper
      invariant 0 <= lower <= upper <= |boundaries|
      invariant forall i :: 0 <= i < lower ==> boundaries[i].line < line
      invariant forall i :: upper <= i < |boundaries| ==> line <= boundaries[i].line
    {
      var middle := (lower + upper) / 2;
      if boundaries[middle].line < line {
        lower := middle + 1;
      } else {
        upper := middle;
      }
    }
    first := lower;
  }

  lemma {:induction false} OnLineOfPrefix(records: seq<SourceBoundary>, line: nat, first: nat, upto: nat)
    requires first <= upto <= |records|
    requires forall i :: 0 <= i < first ==> records[i].line != line
    requires forall i :: first <= i < upto ==> records[i].line == line
    ensures OnLine(records[..upto], line) == records[first..upto]
    decreases upto
  {
    if upto > 0 {
      hide OnLine;
      assert records[..upto] == records[..upto - 1] + [records[upto - 1]];
      OnLineAppend(records[..upto - 1], records[upto - 1], line);
      if first < upto {
        OnLineOfPrefix(records, line, first, upto - 1);
        assert records[first..upto] == records[first..upto - 1] + [records[upto - 1]];
      } else {
        OnLineOfPrefix(records, line, first - 1, upto - 1);
        assert records[first..upto] == [] && records[first - 1..upto - 1] == [];
      }
    }
  }

  lemma {:induction false} OnLineStops(records: seq<SourceBoundary>, line: nat, upto: nat, count: nat)
    requires upto <= count <= |records|
    requires forall i :: upto <= i < |records| ==> records[i].line != line
    ensures OnLine(records[..count], line) == OnLine(records[..upto], line)
    decreases count
  {
    if upto < count {
      OnLineStops(records, line, upto, count - 1);
      assert records[..count][..count - 1] == records[..count - 1];
    }
  }

  /** Resolve one source line in the sorted index: one pass over its records. */
  method IndexedBoundaryAfterSourceLine(boundaries: seq<SourceBoundary>, line: nat) returns (outcome: Result<nat, AnchorError>)
    requires Sorted(boundaries, BoundaryLe)
    ensures outcome == if line == 0 then Ok(0) else Resolve(OnLine(boundaries, line), line)
  {
    hide OnLine, Claimed, Tallies, Resolve;
    if line == 0 {
      return Ok(0);
    }
    var first := FirstSourceBoundaryRecord(boundaries, line);
    var index := first;
    var matching, claimed, matchingBoundary, claimedBoundary := 0, 0, 0, 0;
    TallyNone(boundaries[first..first]);
    while index < |boundaries| && boundaries[index].line == line
      invariant first <= index <= |boundaries|
      invariant forall i :: first <= i < index ==> boundaries[i].line == line
      invariant Tallies(boundaries[first..index], matching, claimed, matchingBoundary, claimedBoundary)
    {
      TallyNext(boundaries, first, index, matching, claimed, matchingBoundary, claimedBoundary);
      matching, matchingBoundary := matching + 1, boundaries[index].boundary;
      if boundaries[index].claimed {
        claimed, claimedBoundary := claimed + 1, boundaries[index].boundary;
      }
      index := index + 1;
    }
    BlockIsOnLine(boundaries, line, first, index);
    TallyResolves(boundaries[first..index], line, matching, claimed, matchingBoundary, claimedBoundary);
    if matching == 0 {
      outcome := Err(MissingAnchor(line));
    } else if matching == 1 {
      outcome := Ok(matchingBoundary);
    } else if claimed == 1 {
      outcome := Ok(claimedBoundary);
    } else if claimed == 0 {
      outcome := Err(UnclaimedAmbiguity(line, matching));
    } else {
      outcome := Err(ClaimedAmbiguity(line, claimed));
    }
  }

  lemma BlockIsOnLine(boundaries: seq<SourceBoundary>, line: nat, first: nat, index: nat)
    requires Sorted(boundaries, BoundaryLe) && first <= index <= |boundaries|
    requires forall i :: 0 <= i < first ==> boundaries[i].line != line
    requires forall i :: first <= i < index ==> boundaries[i].line == line
    requires forall i :: first <= i < |boundaries| ==> line <= boundaries[i].line
    requires index < |boundaries| ==> boundaries[index].line != line
    ensures OnLine(boundaries, line) == boundaries[first..index]
  {
    hide OnLine;
    forall i | index <= i < |boundaries| ensures boundaries[i].line != line {
      assert i == index || BoundaryLe(boundaries[index], boundaries[i]);
    }
    OnLineOfPrefix(boundaries, line, first, index);
    OnLineStops(boundaries, line, index, |boundaries|);
    assert boundaries[..|boundaries|] == boundaries;
  }

  /** Running counts and last positions over the records seen. */
  ghost predicate Tallies(seen: seq<SourceBoundary>, matching: nat, claimed: nat, matchingBoundary: nat, claimedBoundary: nat) {
    && matching == |seen| && claimed == |Claimed(seen)|
    && (seen != [] ==> matchingBoundary == seen[|seen| - 1].boundary)
    && (Claimed(seen) != [] ==> claimedBoundary == Claimed(seen)[|Claimed(seen)| - 1].boundary)
  }

  lemma TallyNone(seen: seq<SourceBoundary>)
    requires seen == []
    ensures Tallies(seen, 0, 0, 0, 0)
  {
  }

  lemma TallyNext(boundaries: seq<SourceBoundary>, first: nat, index: nat,
                  matching: nat, claimed: nat, matchingBoundary: nat, claimedBoundary: nat)
    requires first <= index < |boundaries|
    requires Tallies(boundaries[first..index], matching, claimed, matchingBoundary, claimedBoundary)
    ensures var next := boundaries[index];
      Tallies(boundaries[first..index + 1], matching + 1, if next.claimed then claimed + 1 else claimed,
        next.boundary, if next.claimed then next.boundary else claimedBoundary)
  {
    var seen, extended := boundaries[first..index], boundaries[first..index + 1];
    assert extended[..|extended| - 1] == seen;
  }

  lemma TallyResolves(found: seq<SourceBoundary>, line: nat, matching: nat, claimed: nat, matchingBoundary: nat, claimedBoundary: nat)
    requires Tallies(found, matching, claimed, matchingBoundary, claimedBoundary)
    ensures Resolve(found, line) ==
      if matching == 0 then Err(MissingAnchor(line))
      else if matching == 1 then Ok(matchingBoundary)
      else if claimed == 1 then Ok(claimedBoundary)
      else if claimed == 0 then Err(UnclaimedAmbiguity(line, matching))
      else Err(ClaimedAmbiguity(line, claimed))
  {
  }

  // ------------------------------------------------------- planning insertions

  /**
   What to do with a claim: 0 restores at its anchor, 1 leaves it out, 2 restores it between two
   source lines (0 marks an edge), 3 restores the trusted lines first..last in its place.
   */
  datatype RestoreRecord = RestoreRecord(flag: nat, first: nat, last: nat)

  datatype Restoration = Restoration(
    claims: seq<AbsenceClaim>,
    records: Option<seq<RestoreRecord>>,
    trusted: Option<seq<Line>>)
  {
    /** One record per claim, and trusted slices inside the trusted text. */
    ghost predicate Valid() {
      records.Some? ==>
        && |records.value| == |claims|
        && forall k :: 0 <= k < |claims| && records.value[k].flag == 3 && trusted.Some? ==>
             records.value[k].first <= records.value[k].last <= |trusted.value|
    }

    predicate Skips(k: nat)
      requires Valid() && k < |claims|
    {
      records.Some? && records.value[k].flag == 1
    }

    function Content(k: nat): Result<seq<Line>, RestoreError>
      requires Valid() && k < |claims|
    {
      if records.Some? && records.value[k].flag == 3 then
        if trusted.None? then Err(MissingTrustedTarget)
        else Ok(trusted.value[records.value[k].first..records.value[k].last])
      else Ok(claims[k].content)
    }
  }

  predicate PresentAt(lines: seq<Line>, boundary: nat, content: seq<Line>) {
    boundary + |content| <= |lines| && lines[boundary..boundary + |content|] == content
  }

  /** The boundary that a replacement record pins down from its neighbouring source lines, if any. */
  function ReplacementBoundary(entries: seq<Entry>, work: Restoration, k: nat): Result<Option<nat>, RestoreError>
    requires work.Valid() && k < |work.claims|
  {
    if work.records.None? then Ok(None)
    else
      var record := work.records.value[k];
      if record.flag != 2 || (record.first == 0 && record.last == 0) then Ok(None)
      else
        var after := if record.first == 0 then Err(MissingAnchor(0)) else AnchorBoundary(entries, record.first);
        var before := if record.last == 0 then Err(MissingAnchor(0)) else AnchorBoundary(entries, record.last);
        if after.Err? && !after.error.MissingAnchor? then Err(Anchor(after.error))
        else if before.Err? && !before.error.MissingAnchor? then Err(Anchor(before.error))
        else if after.Ok? && before.Ok? then
          if after.value + 1 != before.value then Err(AmbiguousReplacement) else Ok(Some(after.value))
        else if after.Ok? then Ok(Some(after.value))
        else if before.Ok? && before.value > 0 then Ok(Some(before.value - 1))
        else Ok(None)
  }

  datatype Insertion = Insertion(boundary: nat, claim: nat)

  predicate InsertionLe(a: Insertion, b: Insertion) {
    a.boundary < b.boundary || (a.boundary == b.boundary && a.claim <= b.claim)
  }

  /** Insertions so far, with the offset reached behind the anchor used last. */
  datatype Plan = Plan(insertions: seq<Insertion>, previous: Option<nat>, offset: nat)

  /** The boundary a claim starts from: its record's, else its anchor's; None leaves it out. */
  function ClaimBoundary(entries: seq<Entry>, work: Restoration, k: nat): Result<Option<nat>, RestoreError>
    requires work.Valid() && k < |work.claims|
  {
    match ReplacementBoundary(entries, work, k)
    case Err(error) => Err(error)
    case Ok(Some(boundary)) => Ok(Some(boundary))
    case Ok(None) =>
      match AnchorBoundary(entries, work.claims[k].anchor)
      case Ok(boundary) => Ok(Some(boundary))
      case Err(MissingAnchor(_)) => Ok(None)
      case Err(error) => Err(Anchor(error))
  }

  /** Claims that share an anchor advance past old text that is already there. */
  function Place(lines: seq<Line>, plan: Plan, anchor: nat, boundary: nat, content: seq<Line>, k: nat): Plan {
    var offset := if plan.previous == Some(anchor) then plan.offset else 0;
    if PresentAt(lines, boundary + offset, content) then Plan(plan.insertions, Some(anchor), offset + |content|)
    else Plan(plan.insertions + [Insertion(boundary + offset, k)], Some(anchor), offset)
  }

  function PlanClaim(entries: seq<Entry>, work: Restoration, plan: Plan, k: nat): Result<Plan, RestoreError>
    requires work.Valid() && k < |work.claims|
  {
    if work.Skips(k) then Ok(plan)
    else
      match work.Content(k)
      case Err(error) => Err(error)
      case Ok(content) =>
        match ClaimBoundary(entries, work, k)
        case Err(error) => Err(error)
        case Ok(None) => Ok(plan)
        case Ok(Some(boundary)) => Ok(Place(Contents(entries), plan, work.claims[k].anchor, boundary, content, k))
  }

  function PlanUpTo(entries: seq<Entry>, work: Restoration, count: nat): Result<Plan, RestoreError>
    requires work.Valid() && count <= |work.claims|
  {
    if count == 0 then Ok(Plan([], None, 0))
    else
      match PlanUpTo(entries, work, count - 1)
      case Err(error) => Err(error)
      case Ok(plan) => PlanClaim(entries, work, plan, count - 1)
  }

  lemma {:induction false} PlanErrorStays(entries: seq<Entry>, work: Restoration, upto: nat, count: nat)
    requires work.Valid() && upto <= count <= |work.claims| && PlanUpTo(entries, work, upto).Err?
    ensures PlanUpTo(entries, work, count) == PlanUpTo(entries, work, upto)
    decreases count
  {
    if upto < count {
      PlanErrorStays(entries, work, upto, count - 1);
    }
  }

  /** Every planned insertion names a claim whose content is known. */
  ghost predicate Planned(work: Restoration, insertions: seq<Insertion>)
    requires work.Valid()
  {
    forall i :: 0 <= i < |insertions| ==> insertions[i].claim < |work.claims| && work.Content(insertions[i].claim).Ok?
  }

  lemma {:induction false} PlanIsPlanned(entries: seq<Entry>, work: Restoration, count: nat)
    requires work.Valid() && count <= |work.claims| && PlanUpTo(entries, work, count).Ok?
    ensures Planned(work, PlanUpTo(entries, work, count).value.insertions)
  {
    if count > 0 {
      PlanIsPlanned(entries, work, count - 1);
    }
  }

  // ----------------------------------------------------------------- splicing

  ghost predicate Ascending(insertions: seq<Insertion>, limit: nat) {
    && (forall i :: 0 <= i < |insertions| ==> insertions[i].boundary <= limit)
    && forall i, j :: 0 <= i < j < |insertions| ==> insertions[i].boundary <= insertions[j].boundary
  }

  /** The result once `count` insertions are done and entries are copied up to `upto`. */
  ghost function SpliceTo(entries: seq<Entry>, work: Restoration, insertions: seq<Insertion>, count: nat, upto: nat): seq<Tagged<Entry>>
    requires work.Valid() && Planned(work, insertions) && Ascending(insertions, |entries|)
    requires count <= |insertions| && upto <= |entries| && (count > 0 ==> insertions[count - 1].boundary <= upto)
  {
    if count == 0 then Tag(entries[..upto], false)
    else
      var last := insertions[count - 1];
      SpliceTo(entries, work, insertions, count - 1, last.boundary)
      + Tag(Unowned(work.Content(last.claim).value), true)
      + Tag(entries[last.boundary..upto], false)
  }

  lemma InsertionLeIsTotal()
    ensures TotalOrder(InsertionLe)
  {
  }

  /** The tagged outcome of a restoration. */
  ghost function RestoreTagged(entries: seq<Entry>, work: Restoration): Result<seq<Tagged<Entry>>, RestoreError>
    requires work.Valid()
  {
    match PlanUpTo(entries, work, |work.claims|)
    case Err(error) => Err(error)
    case Ok(plan) =>
      InsertionLeIsTotal();
      PlanIsPlanned(entries, work, |work.claims|);
      var insertions := Sort(plan.insertions, InsertionLe);
      SortKeepsMembers(plan.insertions, InsertionLe);
      SortedIsPlanned(work, plan.insertions);
      if exists i :: 0 <= i < |insertions| && insertions[i].boundary > |entries| then Err(InvalidRange)
      else
        SortedAscends(insertions, |entries|);
        Ok(SpliceTo(entries, work, insertions, |insertions|, |entries|))
  }

  lemma SortedIsPlanned(work: Restoration, insertions: seq<Insertion>)
    requires work.Valid() && TotalOrder(InsertionLe) && Planned(work, insertions)
    ensures Planned(work, Sort(insertions, InsertionLe))
  {
    var sorted := Sort(insertions, InsertionLe);
    SortKeepsMembers(insertions, InsertionLe);
    forall i | 0 <= i < |sorted| ensures sorted[i].claim < |work.claims| && work.Content(sorted[i].claim).Ok? {
      assert sorted[i] in insertions;
    }
  }

  lemma SortedAscends(insertions: seq<Insertion>, limit: nat)
    requires Sorted(insertions, InsertionLe)
    requires forall i :: 0 <= i < |insertions| ==> insertions[i].boundary <= limit
    ensures Ascending(insertions, limit)
  {
    forall i, j | 0 <= i < j < |insertions| ensures insertions[i].boundary <= insertions[j].boundary {
      assert InsertionLe(insertions[i], insertions[j]);
    }
  }

  /** The meaning of restoration. */
  ghost function Restore(entries: seq<Entry>, work: Restoration): Result<seq<Entry>, RestoreError>
    requires work.Valid()
  {
    match RestoreTagged(entries, work)
    case Err(error) => Err(error)
    case Ok(tagged) => Ok(Untag(tagged))
  }

  // -------------------------------------------------------------- the methods

  /** One anchor, looked up in the index instead of in the entries. */
  method FindAnchor(boundaries: seq<SourceBoundary>, line: nat, ghost entries: seq<Entry>) returns (outcome: Result<nat, AnchorError>)
    requires boundaries == BoundaryIndex(entries)
    ensures outcome == AnchorBoundary(entries, line)
  {
    hide Resolve, OnLine, RecordsUpTo, BoundaryIndex;
    IndexIsSorted(entries);
    IndexFindsLine(entries, line);
    outcome := IndexedBoundaryAfterSourceLine(boundaries, line);
  }

  lemma IndexIsSorted(entries: seq<Entry>)
    ensures Sorted(BoundaryIndex(entries), BoundaryLe)
  {
    BoundaryLeIsTotal();
  }

  method ReplacementRestoreBoundary(boundaries: seq<SourceBoundary>, work: Restoration, k: nat, ghost entries: seq<Entry>)
    returns (outcome: Result<Option<nat>, RestoreError>)
    requires work.Valid() && k < |work.claims| && boundaries == BoundaryIndex(entries)
    ensures outcome == ReplacementBoundary(entries, work, k)
  {
    hide AnchorBoundary, BoundaryIndex;
    if work.records.None? {
      return Ok(None);
    }
    var record := work.records.value[k];
    if record.flag != 2 || (record.first == 0 && record.last == 0) {
      return Ok(None);
    }
    var candidate: Option<nat> := None;
    if record.first != 0 {
      var after := FindAnchor(boundaries, record.first, entries);
      if after.Ok? {
        candidate := Some(after.value);
      } else if !after.error.MissingAnchor? {
        return Err(Anchor(after.error));
      }
    }
    if record.last != 0 {
      var before := FindAnchor(boundaries, record.last, entries);
      if before.Ok? {
        if candidate.Some? && candidate.value + 1 != before.value {
          return Err(AmbiguousReplacement);
        }
        if candidate.None? && before.value > 0 {
          candidate := Some(before.value - 1);
        }
      } else if !before.error.MissingAnchor? {
        return Err(Anchor(before.error));
      }
    }
    outcome := Ok(candidate);
  }

  method ResolveClaim(boundaries: seq<SourceBoundary>, work: Restoration, k: nat, ghost entries: seq<Entry>)
    returns (outcome: Result<Option<nat>, RestoreError>)
    requires work.Valid() && k < |work.claims| && boundaries == BoundaryIndex(entries)
    ensures outcome == ClaimBoundary(entries, work, k)
  {
    hide AnchorBoundary, BoundaryIndex, ReplacementBoundary;
    outcome := ReplacementRestoreBoundary(boundaries, work, k, entries);
    if outcome == Ok(None) {
      var anchored := FindAnchor(boundaries, work.claims[k].anchor, entries);
      match anchored {
        case Ok(boundary) => outcome := Ok(Some(boundary));
        case Err(MissingAnchor(_)) => outcome := Ok(None);
        case Err(error) => outcome := Err(Anchor(error));
      }
    }
  }

  /** Plan the insertions claim by claim. */
  method PlanInsertions(lines: seq<Line>, boundaries: seq<SourceBoundary>, work: Restoration, ghost entries: seq<Entry>)
    returns (outcome: Result<seq<Insertion>, RestoreError>)
    requires work.Valid() && lines == Contents(entries) && boundaries == BoundaryIndex(entries)
    ensures match PlanUpTo(entries, work, |work.claims|)
      case Err(error) => outcome == Err(error)
      case Ok(plan) => outcome == Ok(plan.insertions)
  {
    hide ClaimBoundary, BoundaryIndex, Contents, PresentAt;
    var insertions: seq<Insertion> := [];
    var previous: Option<nat>, anchorOffset: nat := None, 0;
    var k := 0;
    while k < |work.claims|
      invariant 0 <= k <= |work.claims|
      invariant PlanUpTo(entries, work, k) == Ok(Plan(insertions, previous, anchorOffset))
    {
      PlanFailsEarly(entries, work, k + 1);
      if work.Skips(k) {
        k := k + 1;
        continue;
      }
      var content := work.Content(k);
      if content.Err? {
        return Err(content.error);
      }
      var resolved := ResolveClaim(boundaries, work, k, entries);
      if resolved.Err? {
        return Err(resolved.error);
      }
      if resolved.value.Some? {
        var anchor := work.claims[k].anchor;
        if previous != Some(anchor) {
          previous, anchorOffset := Some(anchor), 0;
        }
        var boundary := resolved.value.value + anchorOffset;
        if PresentAt(lines, boundary, content.value) {
          anchorOffset := anchorOffset + |content.value|;
        } else {
          insertions := insertions + [Insertion(boundary, k)];
        }
      }
      k := k + 1;
    }
    outcome := Ok(insertions);
  }

  lemma PlanFailsEarly(entries: seq<Entry>, work: Restoration, upto: nat)
    requires work.Valid() && upto <= |work.claims|
    ensures PlanUpTo(entries, work, upto).Err? ==> PlanUpTo(entries, work, |work.claims|) == PlanUpTo(entries, work, upto)
  {
    if PlanUpTo(entries, work, upto).Err? {
      PlanErrorStays(entries, work, upto, |work.claims|);
    }
  }

  /** The claim contents in insertion order, from one insertion on. */
  function JoinedFrom(work: Restoration, insertions: seq<Insertion>, from: nat): seq<Line>
    requires work.Valid() && from <= |insertions| && Planned(work, insertions)
    decreases |insertions| - from
  {
    if from == |insertions| then []
    else work.Content(insertions[from].claim).value + JoinedFrom(work, insertions, from + 1)
  }

  lemma NextInsertion(work: Restoration, insertions: seq<Insertion>, limit: nat, j: nat)
    requires work.Valid() && Planned(work, insertions) && Ascending(insertions, limit) && j < |insertions|
    ensures insertions[j].boundary <= limit && (j > 0 ==> insertions[j - 1].boundary <= insertions[j].boundary)
    ensures insertions[j].claim < |work.claims| && work.Content(insertions[j].claim).Ok?
  {
  }

  /** Copy up to the next insertion and append its lines from the buffer. */
  method SpliceNext(from: RealizedEntries, lines: seq<Line>, copyStart: nat, buffer: seq<Line>, offset: nat, restored: RealizedEntries,
                    work: Restoration, insertions: seq<Insertion>, j: nat)
    returns (next: nat)
    requires from.Valid() && restored.Valid() && from != restored && lines == from.contents
    requires work.Valid() && Planned(work, insertions) && Ascending(insertions, |lines|) && j < |insertions|
    requires copyStart <= |lines| && copyStart == if j == 0 then 0 else insertions[j - 1].boundary
    requires offset <= |buffer| && buffer[offset..] == JoinedFrom(work, insertions, j)
    requires restored.Entries() == Untag(SpliceTo(from.Entries(), work, insertions, j, copyStart))
    modifies restored
    ensures insertions[j].boundary <= |lines| && restored.Valid()
    ensures next <= |buffer| && buffer[next..] == JoinedFrom(work, insertions, j + 1)
    ensures restored.Entries() == Untag(SpliceTo(from.Entries(), work, insertions, j + 1, insertions[j].boundary))
  {
    hide SpliceTo, JoinedFrom, Untag, Ascending, Planned;
    NextInsertion(work, insertions, |lines|, j);
    var boundary := insertions[j].boundary;
    if copyStart < boundary {
      CopyTo(from, lines, copyStart, boundary, restored, work, insertions, j);
    }
    next := offset + |work.Content(insertions[j].claim).value|;
    BufferHolds(work, insertions, j, buffer, offset);
    AppendClaim(from.Entries(), buffer, offset, next, restored, work, insertions, j);
  }

  /** Copy the entries between insertions and append each claim's lines from one joined buffer. */
  method Splice(from: RealizedEntries, lines: seq<Line>, work: Restoration, insertions: seq<Insertion>, buffer: seq<Line>)
    returns (outcome: Result<RealizedEntries, RestoreError>)
    requires from.Valid() && work.Valid() && Planned(work, insertions) && Sorted(insertions, InsertionLe)
    requires lines == from.contents && buffer == JoinedFrom(work, insertions, 0)
    ensures (exists i :: 0 <= i < |insertions| && insertions[i].boundary > |lines|) ==> outcome == Err(InvalidRange)
    ensures (forall i :: 0 <= i < |insertions| ==> insertions[i].boundary <= |lines|) ==>
      && Ascending(insertions, |lines|)
      && outcome.Ok? && fresh(outcome.value) && outcome.value.Valid()
      && outcome.value.Entries() == Untag(SpliceTo(from.Entries(), work, insertions, |insertions|, |lines|))
  {
    hide SpliceTo, JoinedFrom, Untag, Tag, Unowned, Ascending, Planned, Sorted;
    ghost var entries := from.Entries();
    var restored := new RealizedEntries();
    if exists i :: 0 <= i < |insertions| && insertions[i].boundary > |lines| {
      return Err(InvalidRange);
    }
    SortedAscends(insertions, |lines|);
    var copyStart: nat, bufferOffset: nat, j: nat := 0, 0, 0;
    SpliceStart(entries, work, insertions);
    assert buffer[0..] == buffer;
    while j < |insertions|
      invariant 0 <= j <= |insertions| && copyStart <= |lines| && bufferOffset <= |buffer|
      invariant copyStart == if j == 0 then 0 else insertions[j - 1].boundary
      invariant restored.Valid() && fresh(restored)
      invariant buffer[bufferOffset..] == JoinedFrom(work, insertions, j)
      invariant restored.Entries() == Untag(SpliceTo(entries, work, insertions, j, copyStart))
    {
      bufferOffset := SpliceNext(from, lines, copyStart, buffer, bufferOffset, restored, work, insertions, j);
      copyStart := insertions[j].boundary;
      j := j + 1;
    }
    if copyStart < |lines| {
      CopyTo(from, lines, copyStart, |lines|, restored, work, insertions, j);
    }
    outcome := Ok(restored);
  }

  lemma SpliceStart(entries: seq<Entry>, work: Restoration, insertions: seq<Insertion>)
    requires work.Valid() && Planned(work, insertions) && Ascending(insertions, |entries|)
    ensures Untag(SpliceTo(entries, work, insertions, 0, 0)) == []
  {
  }

  lemma BufferHolds(work: Restoration, insertions: seq<Insertion>, j: nat, buffer: seq<Line>, offset: nat)
    requires work.Valid() && Planned(work, insertions) && j < |insertions| && offset <= |buffer|
    requires buffer[offset..] == JoinedFrom(work, insertions, j)
    ensures var content := work.Content(insertions[j].claim).value;
      && offset + |content| <= |buffer| && buffer[offset..offset + |content|] == content
      && buffer[offset + |content|..] == JoinedFrom(work, insertions, j + 1)
  {
    var content, rest := work.Content(insertions[j].claim).value, JoinedFrom(work, insertions, j + 1);
    assert buffer[offset..] == content + rest;
    assert buffer[offset..offset + |content|] == buffer[offset..][..|content|];
    assert buffer[offset + |content|..] == buffer[offset..][|content|..];
  }

  method CopyTo(from: RealizedEntries, lines: seq<Line>, start: nat, stop: nat, restored: RealizedEntries,
                work: Restoration, insertions: seq<Insertion>, j: nat)
    requires from.Valid() && restored.Valid() && from != restored && lines == from.contents
    requires work.Valid() && Planned(work, insertions) && Ascending(insertions, |lines|) && j <= |insertions|
    requires start <= stop <= |lines| && (j > 0 ==> insertions[j - 1].boundary == start) && (j == 0 ==> start == 0)
    requires restored.Entries() == Untag(SpliceTo(from.Entries(), work, insertions, j, start))
    modifies restored
    ensures restored.Valid()
    ensures restored.Entries() == Untag(SpliceTo(from.Entries(), work, insertions, j, stop))
  {
    ghost var entries := from.Entries();
    OwnSlice(from.contents, entries, start, stop);
    SpliceCopies(entries, work, insertions, j, start, stop);
    restored.CopyProvenanceSlice(from, lines, start, stop);
  }

  lemma OwnSlice(contents: seq<Line>, entries: seq<Entry>, start: nat, stop: nat)
    requires start <= stop <= |entries| == |contents|
    requires forall i :: 0 <= i < |entries| ==> entries[i].content == contents[i]
    ensures WithContents(entries[start..stop], contents[start..stop]) == entries[start..stop]
  {
  }

  lemma SpliceCopies(entries: seq<Entry>, work: Restoration, insertions: seq<Insertion>, j: nat, start: nat, stop: nat)
    requires work.Valid() && Planned(work, insertions) && Ascending(insertions, |entries|) && j <= |insertions|
    requires start <= stop <= |entries| && (j > 0 ==> insertions[j - 1].boundary == start) && (j == 0 ==> start == 0)
    ensures Untag(SpliceTo(entries, work, insertions, j, start)) + entries[start..stop]
         == Untag(SpliceTo(entries, work, insertions, j, stop))
  {
    hide Untag, Tag, Unowned;
    TagNothing<Entry>();
    UntagTag(entries[start..stop], false);
    if j > 0 {
      var last := insertions[j - 1];
      var before := SpliceTo(entries, work, insertions, j - 1, last.boundary) + Tag(Unowned(work.Content(last.claim).value), true);
      assert entries[start..start] == [];
      assert SpliceTo(entries, work, insertions, j, start) == before + [] == before;
      UntagAppend(before, Tag(entries[start..stop], false));
    } else {
      assert entries[..0] == [];
      assert entries[start..stop] == entries[..stop];
      UntagTag<Entry>([], false);
    }
  }

  method AppendClaim(ghost entries: seq<Entry>, buffer: seq<Line>, start: nat, end: nat, restored: RealizedEntries,
                     work: Restoration, insertions: seq<Insertion>, j: nat)
    requires restored.Valid() && start <= end <= |buffer|
    requires work.Valid() && Planned(work, insertions) && Ascending(insertions, |entries|) && j < |insertions|
    requires buffer[start..end] == work.Content(insertions[j].claim).value
    requires restored.Entries() == Untag(SpliceTo(entries, work, insertions, j, insertions[j].boundary))
    modifies restored
    ensures restored.Valid()
    ensures restored.Entries() == Untag(SpliceTo(entries, work, insertions, j + 1, insertions[j].boundary))
  {
    UnownedIsLinear(buffer[start..end]);
    SpliceAppends(entries, work, insertions, j);
    restored.AppendLineRange(buffer, start, end, 0, 0, false);
  }

  lemma SpliceAppends(entries: seq<Entry>, work: Restoration, insertions: seq<Insertion>, j: nat)
    requires work.Valid() && Planned(work, insertions) && Ascending(insertions, |entries|) && j < |insertions|
    ensures Untag(SpliceTo(entries, work, insertions, j, insertions[j].boundary)) + Unowned(work.Content(insertions[j].claim).value)
         == Untag(SpliceTo(entries, work, insertions, j + 1, insertions[j].boundary))
  {
    hide Untag, Tag, Unowned;
    var at := insertions[j].boundary;
    var before, added := SpliceTo(entries, work, insertions, j, at), Unowned(work.Content(insertions[j].claim).value);
    assert entries[at..at] == [];
    TagNothing<Entry>();
    assert SpliceTo(entries, work, insertions, j + 1, at) == before + Tag(added, true) + [];
    assert before + Tag(added, true) + [] == before + Tag(added, true);
    UntagAppend(before, Tag(added, true));
    UntagTag(added, true);
  }

  /** Restore absence constraints; entries that already hold every old text are returned as they are. */
  method RestoreAbsenceConstraints(from: RealizedEntries, work: Restoration)
    returns (outcome: Result<RealizedEntries, RestoreError>)
    requires from.Valid() && work.Valid()
    ensures match Restore(from.Entries(), work)
      case Err(error) => outcome == Err(error)
      case Ok(entries) =>
        && outcome.Ok? && outcome.value.Valid() && outcome.value.Entries() == entries
        && (if PlanUpTo(from.Entries(), work, |work.claims|).value.insertions == [] then outcome.value == from else fresh(outcome.value))
  {
    hide SpliceTo, PlanClaim, BoundaryIndex, Untag, Contents;
    ghost var entries := from.Entries();
    ContentsOfZip(from.contents, entries);
    var boundaries := BuildSourceBoundaryIndex(from);
    var plan := PlanInsertions(from.contents, boundaries, work, entries);
    PlanMeets(entries, work);
    if plan.Err? {
      return Err(plan.error);
    }
    if plan.value == [] {
      return Ok(from);
    }
    InsertionLeIsTotal();
    SortedIsPlanned(work, plan.value);
    var insertions := Sort(plan.value, InsertionLe);
    outcome := Splice(from, from.contents, work, insertions, JoinedFrom(work, insertions, 0));
  }

  lemma ContentsOfZip(contents: seq<Line>, entries: seq<Entry>)
    requires |entries| == |contents| && forall i :: 0 <= i < |entries| ==> entries[i].content == contents[i]
    ensures Contents(entries) == contents
  {
  }

  /** With nothing to insert, restoration returns its input. */
  lemma PlanMeets(entries: seq<Entry>, work: Restoration)
    requires work.Valid()
    ensures PlanUpTo(entries, work, |work.claims|).Err? ==>
      Restore(entries, work) == Err(PlanUpTo(entries, work, |work.claims|).error)
    ensures PlanUpTo(entries, work, |work.claims|).Ok? ==>
      Planned(work, PlanUpTo(entries, work, |work.claims|).value.insertions)
    ensures PlanUpTo(entries, work, |work.claims|).Ok? && PlanUpTo(entries, work, |work.claims|).value.insertions == [] ==>
      Restore(entries, work) == Ok(entries)
  {
    if PlanUpTo(entries, work, |work.claims|).Ok? {
      PlanIsPlanned(entries, work, |work.claims|);
      assert entries[..|entries|] == entries;
      assert Untag(Tag(entries, false)) == entries;
    }
  }
}
