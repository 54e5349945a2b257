/**
 How the program computes the restore records: groups, then single units, then old metadata
 (batch/discard.py:1254-1577).
 */
module ReplacementRecords {
  import opened Wrappers
  import opened LineRanges
  import opened Ownership
  import opened DiscardRestoration
  import opened SupersededDeletions
  import opened LegacyReplacements
  import opened ReplacementGroups
  import opened ReplacementClaims

  // ------------------------------------------------ the nearest retained lines

  method SurvivesAt(ownership: BatchOwnership, sides: Sides, line: nat) returns (survives: bool)
    requires ownership.Valid()
    ensures survives <==> Survives(ownership, sides, line)
  {
    var owned := SortedContains(ownership.presence, line);
    survives := (!owned || line in sides.preserved) && sides.toWorking.Target(line).Some?;
  }

  /** Two sweeps record the nearest surviving source line on each side of every line. */
  method SurvivingSourceNeighborLines(ownership: BatchOwnership, sides: Sides) returns (before: array<nat>, after: array<nat>)
    requires ownership.Valid()
    ensures fresh(before) && fresh(after) && before.Length == after.Length == |sides.source|
    ensures forall i :: 0 <= i < |sides.source| ==> NearestBefore(ownership, sides, i + 1, before[i])
    ensures forall i :: 0 <= i < |sides.source| ==> NearestAfter(ownership, sides, i + 1, after[i])
  {
    hide Survives;
    before := SweepForward(ownership, sides);
    after := new nat[|sides.source|];
    var nearest, line: nat := 0, |sides.source|;
    while line > 0
      invariant line <= |sides.source|
      invariant NearestAfter(ownership, sides, line, nearest)
      invariant forall i :: line <= i < |sides.source| ==> NearestAfter(ownership, sides, i + 1, after[i])
      invariant forall i :: 0 <= i < |sides.source| ==> NearestBefore(ownership, sides, i + 1, before[i])
    {
      after[line - 1] := nearest;
      var survives := SurvivesAt(ownership, sides, line);
      if survives {
        nearest := line;
      }
      line := line - 1;
    }
  }

  method SweepForward(ownership: BatchOwnership, sides: Sides) returns (before: array<nat>)
    requires ownership.Valid()
    ensures fresh(before) && before.Length == |sides.source|
    ensures forall i :: 0 <= i < |sides.source| ==> NearestBefore(ownership, sides, i + 1, before[i])
  {
    hide Survives;
    before := new nat[|sides.source|];
    var nearest, line: nat := 0, 1;
    while line <= |sides.source|
      invariant 1 <= line <= |sides.source| + 1
      invariant NearestBefore(ownership, sides, line, nearest)
      invariant forall i :: 0 <= i < line - 1 ==> NearestBefore(ownership, sides, i + 1, before[i])
    {
      before[line - 1] := nearest;
      var survives := SurvivesAt(ownership, sides, line);
      if survives {
        nearest := line;
      }
      line := line + 1;
    }
  }

  // ------------------------------------------------------------- groups of units

  /** The record after the groups among the first `upto` units. */
  ghost predicate IsGroupRecord(ownership: BatchOwnership, sides: Sides, upto: nat, d: nat, record: RestoreRecord)
    requires ownership.Valid() && upto <= |ownership.units|
  {
    match LastClaim(ownership, sides, WithGroup, upto, d)
    case None => record == RestoreRecord(0, 0, 0)
    case Some(u) => IsShare(ownership, sides, u, record)
  }

  ghost predicate GroupRecords(ownership: BatchOwnership, sides: Sides, upto: nat, records: seq<RestoreRecord>, handled: seq<bool>)
    requires ownership.Valid() && upto <= |ownership.units|
  {
    && |records| == |ownership.deletions| && |handled| == |ownership.units|
    && (forall u :: 0 <= u < |handled| ==> (handled[u] <==> u < upto && Grouped(ownership, sides, u)))
    && (forall d :: 0 <= d < |records| ==> IsGroupRecord(ownership, sides, upto, d, records[d]))
  }

  /** The collected ranges hold exactly the lines of the groups among the first `upto` units. */
  ghost predicate GroupSpans(ownership: BatchOwnership, sides: Sides, upto: nat, spans: seq<Span>)
    requires upto <= |ownership.units|
  {
    forall line :: Contains(spans, line) <==> ApartWithGroup(ownership, sides, upto, line)
  }

  /** The end of the run of equal origins that begins at a unit. */
  method FindGroupEnd(ownership: BatchOwnership, start: nat) returns (end: nat)
    requires start < |ownership.units|
    ensures start < end <= |ownership.units|
    ensures ownership.units[start].origin.None? ==> end == start + 1
    ensures ownership.units[start].origin.Some? ==>
      && (forall u :: start <= u < end ==> ownership.units[u].origin == ownership.units[start].origin)
      && (end < |ownership.units| ==> ownership.units[end].origin != ownership.units[start].origin)
  {
    end := start + 1;
    if ownership.units[start].origin.Some? {
      while end < |ownership.units| && ownership.units[end].origin == ownership.units[start].origin
        invariant start < end <= |ownership.units|
        invariant forall u :: start <= u < end ==> ownership.units[u].origin == ownership.units[start].origin
      {
        end := end + 1;
      }
    }
  }

  /** The walk over the units stands at the start of a run. */
  ghost predicate AtRunStart(ownership: BatchOwnership, u: nat) {
    u <= |ownership.units|
    && (0 < u < |ownership.units| && ownership.units[u].origin.Some? ==> ownership.units[u - 1].origin != ownership.units[u].origin)
  }

  lemma RunIsGroup(ownership: BatchOwnership, start: nat, end: nat, a: nat, b: nat)
    requires start < end <= |ownership.units| && AtRunStart(ownership, start)
    requires ownership.units[start].origin.None? ==> end == start + 1
    requires ownership.units[start].origin.Some? ==>
      && (forall u :: start <= u < end ==> ownership.units[u].origin == ownership.units[start].origin)
      && (end < |ownership.units| ==> ownership.units[end].origin != ownership.units[start].origin)
    ensures IsGroup(ownership, start, end) <==> !(ownership.units[start].origin.Some? && end == start + 1)
    ensures IsGroup(ownership, a, b) && a < end && start < b ==> a == start && b == end
    ensures AtRunStart(ownership, end)
  {
    if IsGroup(ownership, a, b) && a < end && start < b {
      var shared := if a < start then start else a;
      assert ownership.units[shared].origin == ownership.units[start].origin;
      assert ownership.units[shared].origin == ownership.units[a].origin;
    }
  }

  lemma GroupSkipped(ownership: BatchOwnership, sides: Sides, start: nat, end: nat, records: seq<RestoreRecord>, handled: seq<bool>,
                     spans: seq<Span>)
    requires ownership.Valid() && start < end <= |ownership.units|
    requires GroupRecords(ownership, sides, start, records, handled) && GroupSpans(ownership, sides, start, spans)
    requires forall u :: start <= u < end ==> !Grouped(ownership, sides, u)
    ensures GroupRecords(ownership, sides, end, records, handled) && GroupSpans(ownership, sides, end, spans)
  {
    hide Grouped, Names, LastClaim, IsShare, InUnit, Contains;
    forall d | 0 <= d < |records| ensures IsGroupRecord(ownership, sides, end, d, records[d]) {
      assert IsGroupRecord(ownership, sides, start, d, records[d]);
      NoClaimBetween(ownership, sides, WithGroup, start, end, d);
    }
    forall line ensures ApartWithGroup(ownership, sides, end, line) <==> ApartWithGroup(ownership, sides, start, line) {
    }
  }

  lemma GroupNames(ownership: BatchOwnership, sides: Sides, start: nat, end: nat)
    requires ownership.Valid() && start < end <= |ownership.units| && Authorized(ownership, sides, start, end)
    ensures var members := MembersUpTo(ownership, sides, start, end).value;
      && |members| == end - start
      && forall u, d: nat :: start <= u < end ==> (Names(ownership, u, d) <==> members[u - start].deletion == d)
  {
    var members := MembersUpTo(ownership, sides, start, end).value;
    MemberAt(ownership, sides, start, end, start);
    forall u, d: nat | start <= u < end ensures Names(ownership, u, d) <==> members[u - start].deletion == d {
      hide MembersUpTo;
      MemberAt(ownership, sides, start, end, u);
    }
  }

  /** A group with its members and the place of its index text. */
  ghost predicate Located(ownership: BatchOwnership, sides: Sides, start: nat, end: nat, members: seq<Member>, low: nat)
    requires ownership.Valid()
  {
    && AuthorizedGroup(ownership, sides, start, end) && GroupBounds(ownership, sides, start, end).Some?
    && members == MembersUpTo(ownership, sides, start, end).value && low == GroupBounds(ownership, sides, start, end).value.0
  }

  lemma WholeGroup(ownership: BatchOwnership, sides: Sides, start: nat, end: nat)
    requires AuthorizedGroup(ownership, sides, start, end)
    ensures forall u :: start <= u < end ==> Grouped(ownership, sides, u)
  {
  }

  /** Each unit of a located group names just its member's deletion, and no two members share one. */
  lemma LocatedIs(ownership: BatchOwnership, sides: Sides, start: nat, end: nat, members: seq<Member>, low: nat)
    requires ownership.Valid() && Located(ownership, sides, start, end, members, low)
    ensures start < end <= |ownership.units| && |members| == end - start
    ensures forall u :: start <= u < end ==> Grouped(ownership, sides, u)
    ensures forall u, d: nat :: start <= u < end ==> (Names(ownership, u, d) <==> members[u - start].deletion == d)
    ensures forall i, j :: 0 <= i < j < |members| ==> members[i].deletion != members[j].deletion
  {
    WholeGroup(ownership, sides, start, end);
    GroupNames(ownership, sides, start, end);
    GroupDeletionsDistinct(ownership, sides, start, end);
    hide Grouped, Names, Authorized, MembersUpTo, GroupBounds, IsGroup;
    GroupInside(ownership, start, end);
  }

  lemma LocatedGives(ownership: BatchOwnership, sides: Sides, start: nat, end: nat, members: seq<Member>, low: nat, i: nat)
    requires ownership.Valid() && Located(ownership, sides, start, end, members, low) && i < |members| && start + i < end
    ensures IsShare(ownership, sides, start + i, ShareOf(members, i, low))
  {
    hide AuthorizedGroup, Authorized, IsGroup, MembersUpTo, GroupBounds, ShareOf;
    assert GivesShare(ownership, sides, start, end, start + i, ShareOf(members, i, low));
  }

  lemma LocatedSpan(ownership: BatchOwnership, sides: Sides, start: nat, end: nat, members: seq<Member>, low: nat, i: nat)
    requires ownership.Valid() && Located(ownership, sides, start, end, members, low) && i < |members| && start + i < end
    ensures end <= |ownership.units| && CollectedRanges(ownership.units[start + i]) == Some([members[i].span])
  {
    hide IsGroup, MembersUpTo, GroupBounds, NormalForm;
    GroupInside(ownership, start, end);
    MemberAt(ownership, sides, start, end, start + i);
  }

  lemma GroupedClaims(ownership: BatchOwnership, sides: Sides, u: nat, d: nat)
    requires u < |ownership.units| && Grouped(ownership, sides, u)
    ensures Claims(ownership, sides, WithGroup, u, d) <==> Names(ownership, u, d)
  {
  }

  /** No later unit of the group names the same deletion. */
  lemma ShareIsLast(ownership: BatchOwnership, sides: Sides, start: nat, end: nat, members: seq<Member>, low: nat, i: nat)
    requires ownership.Valid() && Located(ownership, sides, start, end, members, low) && i < |members|
    ensures end <= |ownership.units| && start + i < end
    ensures LastClaim(ownership, sides, WithGroup, end, members[i].deletion) == Some(start + i)
  {
    hide *;
    LocatedIs(ownership, sides, start, end, members, low);
    GroupedClaims(ownership, sides, start + i, members[i].deletion);
    forall u | start + i < u < end ensures !Claims(ownership, sides, WithGroup, u, members[i].deletion) {
      GroupedClaims(ownership, sides, u, members[i].deletion);
      assert members[u - start].deletion != members[i].deletion;
    }
    LastClaimIs(ownership, sides, WithGroup, end, members[i].deletion, start + i);
  }

  lemma LastClaimIs(ownership: BatchOwnership, sides: Sides, claim: Claim, upto: nat, d: nat, u: nat)
    requires u < upto <= |ownership.units| && Claims(ownership, sides, claim, u, d)
    requires forall v :: u < v < upto ==> !Claims(ownership, sides, claim, v, d)
    ensures LastClaim(ownership, sides, claim, upto, d) == Some(u)
  {
    hide Claims, LastClaim;
    var last := LastClaim(ownership, sides, claim, upto, d);
    assert last.Some? && last.value >= u;
  }

  /** One group changes the records of exactly its own deletions. */
  lemma RecordAfterGroup(ownership: BatchOwnership, sides: Sides, start: nat, end: nat, members: seq<Member>, low: nat,
                         before: seq<RestoreRecord>, after: seq<RestoreRecord>, d: nat)
    requires ownership.Valid() && Located(ownership, sides, start, end, members, low)
    requires SplitUpTo(members, |members|, low, before, after) && d < |after| == |before|
    requires start <= |ownership.units| && IsGroupRecord(ownership, sides, start, d, before[d])
    ensures end <= |ownership.units| && IsGroupRecord(ownership, sides, end, d, after[d])
  {
    hide Located, Grouped, Names, LastClaim, IsShare, ShareOf, Claims, SplitUpTo, Untouched;
    LocatedIs(ownership, sides, start, end, members, low);
    UntouchedAt(members, low, before, after, d);
    if Untouched(members, |members|, d) {
      forall u | start <= u < end ensures !Claims(ownership, sides, WithGroup, u, d) {
        GroupedClaims(ownership, sides, u, d);
        UntouchedMember(members, d, u - start);
      }
      NoClaimBetween(ownership, sides, WithGroup, start, end, d);
    } else {
      var i := TouchedMember(members, d);
      ShareAt(members, low, before, after, i);
      LocatedGives(ownership, sides, start, end, members, low, i);
      ShareIsLast(ownership, sides, start, end, members, low, i);
    }
  }

  lemma UntouchedMember(members: seq<Member>, d: nat, i: nat)
    requires i < |members| && Untouched(members, |members|, d)
    ensures members[i].deletion != d
  {
  }

  lemma TouchedMember(members: seq<Member>, d: nat) returns (i: nat)
    requires !Untouched(members, |members|, d)
    ensures i < |members| && members[i].deletion == d
  {
    i :| i < |members| && members[i].deletion == d;
  }

  lemma GroupSplit(ownership: BatchOwnership, sides: Sides, start: nat, end: nat, members: seq<Member>, low: nat,
                   before: seq<RestoreRecord>, handledBefore: seq<bool>, after: seq<RestoreRecord>, handled: seq<bool>)
    requires ownership.Valid() && Located(ownership, sides, start, end, members, low) && start <= |ownership.units|
    requires GroupRecords(ownership, sides, start, before, handledBefore)
    requires SplitUpTo(members, |members|, low, before, after) && |handled| == |handledBefore|
    requires forall u :: 0 <= u < |handled| ==> handled[u] == (handledBefore[u] || start <= u < end)
    ensures end <= |ownership.units| && GroupRecords(ownership, sides, end, after, handled)
  {
    hide *;
    GroupHandled(ownership, sides, start, end, members, low, before, handledBefore, handled);
    GroupRecordsHold(ownership, sides, start, before, handledBefore);
    UntouchedAt(members, low, before, after, 0);
    forall d | 0 <= d < |after| ensures IsGroupRecord(ownership, sides, end, d, after[d]) {
      RecordAfterGroup(ownership, sides, start, end, members, low, before, after, d);
    }
    MakeGroupRecords(ownership, sides, end, after, handled);
  }

  lemma GroupRecordsHold(ownership: BatchOwnership, sides: Sides, upto: nat, records: seq<RestoreRecord>, handled: seq<bool>)
    requires ownership.Valid() && upto <= |ownership.units| && GroupRecords(ownership, sides, upto, records, handled)
    ensures |records| == |ownership.deletions|
    ensures forall d :: 0 <= d < |records| ==> IsGroupRecord(ownership, sides, upto, d, records[d])
  {
    hide IsGroupRecord, Grouped;
  }

  lemma MakeGroupRecords(ownership: BatchOwnership, sides: Sides, upto: nat, records: seq<RestoreRecord>, handled: seq<bool>)
    requires ownership.Valid() && upto <= |ownership.units| && |records| == |ownership.deletions| && |handled| == |ownership.units|
    requires forall u :: 0 <= u < |handled| ==> (handled[u] <==> u < upto && Grouped(ownership, sides, u))
    requires forall d :: 0 <= d < |records| ==> IsGroupRecord(ownership, sides, upto, d, records[d])
    ensures GroupRecords(ownership, sides, upto, records, handled)
  {
    hide IsGroupRecord, Grouped;
  }

  lemma GroupHandled(ownership: BatchOwnership, sides: Sides, start: nat, end: nat, members: seq<Member>, low: nat,
                     before: seq<RestoreRecord>, handledBefore: seq<bool>, handled: seq<bool>)
    requires ownership.Valid() && Located(ownership, sides, start, end, members, low) && start <= |ownership.units|
    requires GroupRecords(ownership, sides, start, before, handledBefore) && |handled| == |handledBefore|
    requires forall u :: 0 <= u < |handled| ==> handled[u] == (handledBefore[u] || start <= u < end)
    ensures end <= |ownership.units| == |handled|
    ensures forall u :: 0 <= u < |handled| ==> (handled[u] <==> u < end && Grouped(ownership, sides, u))
  {
    LocatedIs(ownership, sides, start, end, members, low);
    hide Grouped, IsGroupRecord, Located, Names;
  }

  /** Restore every authorized group from the index text. */
  method RestoreGroups(ownership: BatchOwnership, sides: Sides, records: array<RestoreRecord>, handled: array<bool>)
    returns (outcome: Result<seq<Span>, RestoreError>)
    requires ownership.Valid() && sides.Valid() && records as object != handled
    requires records.Length == |ownership.deletions| && handled.Length == |ownership.units|
    requires GroupRecords(ownership, sides, 0, records[..], handled[..])
    modifies records, handled
    ensures outcome.Err? <==> exists start: nat, end: nat :: LostGroup(ownership, sides, start, end)
    ensures outcome.Err? ==> outcome.error == AmbiguousReplacement
    ensures outcome.Ok? ==> GroupRecords(ownership, sides, |ownership.units|, records[..], handled[..])
    ensures outcome.Ok? ==> SpansValid(outcome.value) && GroupSpans(ownership, sides, |ownership.units|, outcome.value)
  {
    hide GroupRecords, GroupBounds, Authorized, SpansValid, IsGroup, GroupSpans;
    var spans: seq<Span> := [];
    NoSpans(ownership, sides);
    var u := 0;
    while u < |ownership.units|
      invariant AtRunStart(ownership, u)
      invariant records.Length == |ownership.deletions| && handled.Length == |ownership.units|
      invariant GroupRecords(ownership, sides, u, records[..], handled[..]) && SpansValid(spans) && GroupSpans(ownership, sides, u, spans)
      invariant forall start: nat, end: nat :: LostGroup(ownership, sides, start, end) ==> u <= start
    {
      var end := FindGroupEnd(ownership, u);
      forall a: nat, b: nat | IsGroup(ownership, a, b) ensures a < b && (a < end && u < b ==> a == u && b == end) {
        GroupInside(ownership, a, b);
        RunIsGroup(ownership, u, end, a, b);
      }
      RunIsGroup(ownership, u, end, 0, 0);
      forall x | u <= x < end && Grouped(ownership, sides, x) ensures AuthorizedGroup(ownership, sides, u, end) {
        var a: nat, b: nat :| a <= x < b && AuthorizedGroup(ownership, sides, a, b);
      }
      if ownership.units[u].origin.Some? && end == u + 1 {
        GroupSkipped(ownership, sides, u, end, records[..], handled[..], spans);
        u := end;
        continue;
      }
      var authorized, bounds := GroupRestoreBounds(ownership, sides, u, end);
      if authorized {
        if bounds.None? {
          assert LostGroup(ownership, sides, u, end);
          return Err(AmbiguousReplacement);
        }
        var split := RestoreGroup(ownership, sides, u, end, bounds.value.0, bounds.value.1, records, handled, spans);
        spans := split;
      } else {
        GroupSkipped(ownership, sides, u, end, records[..], handled[..], spans);
      }
      u := end;
    }
    forall start: nat, end: nat ensures !LostGroup(ownership, sides, start, end) {
      if LostGroup(ownership, sides, start, end) {
        GroupInside(ownership, start, end);
      }
    }
    outcome := Ok(spans);
  }

  ghost predicate SpansValid(spans: seq<Span>) {
    forall i :: 0 <= i < |spans| ==> 1 <= spans[i].first <= spans[i].last
  }

  lemma NoSpans(ownership: BatchOwnership, sides: Sides)
    ensures SpansValid([]) && GroupSpans(ownership, sides, 0, [])
  {
  }

  lemma GroupInside(ownership: BatchOwnership, start: nat, end: nat)
    ensures IsGroup(ownership, start, end) ==> start < end <= |ownership.units|
  {
  }

  lemma {:induction false} MemberSpansValid(ownership: BatchOwnership, sides: Sides, start: nat, end: nat, count: nat)
    requires ownership.Valid() && start < end <= |ownership.units| && MembersUpTo(ownership, sides, start, end).Some?
    requires count <= |MembersUpTo(ownership, sides, start, end).value|
    ensures SpansValid(SpansOf(MembersUpTo(ownership, sides, start, end).value, count))
  {
    hide MembersUpTo, MemberOf;
    if count > 0 {
      MemberSpansValid(ownership, sides, start, end, count - 1);
      MembersAre(ownership, sides, start, end);
      MemberSpan(ownership, sides, start + (count - 1));
    }
  }

  lemma SpansStayValid(a: seq<Span>, b: seq<Span>)
    requires SpansValid(a) && SpansValid(b)
    ensures SpansValid(a + b)
  {
  }

  /** A line of one of the units from..upto. */
  ghost predicate InUnits(ownership: BatchOwnership, from: nat, upto: nat, line: int)
    requires upto <= |ownership.units|
  {
    exists u :: from <= u < upto && InUnit(ownership, u, line)
  }

  lemma InUnitsNext(ownership: BatchOwnership, from: nat, u: nat, line: int)
    requires from <= u < |ownership.units|
    ensures InUnits(ownership, from, u + 1, line) <==> InUnits(ownership, from, u, line) || InUnit(ownership, u, line)
  {
    hide InUnit;
  }

  /** A group's ranges hold exactly the lines of its units. */
  lemma {:induction false} MemberSpansSelect(ownership: BatchOwnership, sides: Sides, start: nat, end: nat, members: seq<Member>, low: nat,
                                             count: nat, line: int)
    requires ownership.Valid() && Located(ownership, sides, start, end, members, low)
    requires end <= |ownership.units| && count <= |members| == end - start
    ensures Contains(SpansOf(members, count), line) <==> InUnits(ownership, start, start + count, line)
  {
    hide *;
    SpansNext(members, count);
    if count > 0 {
      MemberSpansSelect(ownership, sides, start, end, members, low, count - 1, line);
      LocatedSpan(ownership, sides, start, end, members, low, count - 1);
      SpanOfUnit(ownership, start + (count - 1), members[count - 1].span, line);
      ContainsAppend(SpansOf(members, count - 1), members[count - 1].span, line);
      InUnitsNext(ownership, start, start + (count - 1), line);
    } else {
      NothingSelected(line);
      NoUnits(ownership, start, line);
    }
  }

  lemma SpansNext(members: seq<Member>, count: nat)
    requires count <= |members|
    ensures SpansOf(members, count) == if count == 0 then [] else SpansOf(members, count - 1) + [members[count - 1].span]
  {
  }

  lemma NoUnits(ownership: BatchOwnership, from: nat, line: int)
    requires from <= |ownership.units|
    ensures !InUnits(ownership, from, from, line)
  {
  }

  lemma NothingSelected(line: int)
    ensures !Contains([], line)
  {
  }

  lemma SpanOfUnit(ownership: BatchOwnership, u: nat, span: Span, line: int)
    requires ownership.Valid() && u < |ownership.units| && CollectedRanges(ownership.units[u]) == Some([span])
    ensures InUnit(ownership, u, line) <==> span.first <= line <= span.last
  {
    hide NormalForm;
    NormalFormMeaning(ownership.units[u].presence.value);
    assert Contains([span], line) <==> span.first <= line <= span.last by {
      assert [span][0] == span;
    }
  }

  lemma GroupSpansGrow(ownership: BatchOwnership, sides: Sides, start: nat, end: nat, members: seq<Member>, low: nat, spans: seq<Span>)
    requires ownership.Valid() && Located(ownership, sides, start, end, members, low) && start <= |ownership.units|
    requires GroupSpans(ownership, sides, start, spans)
    ensures end <= |ownership.units| && GroupSpans(ownership, sides, end, spans + SpansOf(members, |members|))
  {
    LocatedIs(ownership, sides, start, end, members, low);
    hide Located, InUnit, Grouped, Contains, SpansOf, Names;
    var own := SpansOf(members, |members|);
    forall line ensures Contains(spans + own, line) <==> ApartWithGroup(ownership, sides, end, line) {
      MemberSpansSelect(ownership, sides, start, end, members, low, |members|, line);
      ContainsConcat(spans, own, line);
    }
  }

  /** Restore one located group and keep the account of all groups so far. */
  method RestoreGroup(ownership: BatchOwnership, sides: Sides, start: nat, end: nat, low: nat, high: nat,
                      records: array<RestoreRecord>, handled: array<bool>, spans: seq<Span>)
    returns (restored: seq<Span>)
    requires ownership.Valid() && sides.Valid() && records as object != handled
    requires records.Length == |ownership.deletions| && handled.Length == |ownership.units|
    requires AuthorizedGroup(ownership, sides, start, end) && GroupBounds(ownership, sides, start, end) == Some((low, high))
    requires GroupRecords(ownership, sides, start, records[..], handled[..])
    requires SpansValid(spans) && GroupSpans(ownership, sides, start, spans)
    modifies records, handled
    ensures GroupRecords(ownership, sides, end, records[..], handled[..])
    ensures SpansValid(restored) && GroupSpans(ownership, sides, end, restored)
  {
    ghost var before, handledBefore := records[..], handled[..];
    var outcome := SplitGroup(ownership, sides, start, end, low, high, records, handled, spans);
    restored := outcome.value;
    ghost var members := MembersUpTo(ownership, sides, start, end).value;
    hide GroupRecords, AuthorizedGroup, GroupBounds, MembersUpTo, SplitUpTo, SpansOf, GroupSpans, SpansValid;
    MemberSpansValid(ownership, sides, start, end, |members|);
    SpansStayValid(spans, SpansOf(members, |members|));
    assert Located(ownership, sides, start, end, members, low);
    GroupSpansGrow(ownership, sides, start, end, members, low, spans);
    GroupSplit(ownership, sides, start, end, members, low, before, handledBefore, records[..], handled[..]);
  }

  // ------------------------------------------------------------ the single units

  /** What one unit says about each of its deletions. */
  datatype Verdict = Verdict(flag: nat, low: nat, high: nat, before: nat, after: nat)

  /** Index text beats a live replacement, which beats an absent one; a superseded text stays out. */
  function Apply(record: RestoreRecord, verdict: Verdict, superseded: bool): RestoreRecord {
    if verdict.flag == 3 || (record.flag != 3 && (verdict.flag == 2 || record.flag == 0)) then
      if verdict.flag == 3 then RestoreRecord(3, verdict.low, verdict.high)
      else RestoreRecord(if verdict.flag == 2 && superseded then 1 else verdict.flag, verdict.before, verdict.after)
    else record
  }

  ghost predicate IsVerdict(ownership: BatchOwnership, sides: Sides, u: nat, verdict: Verdict)
    requires ownership.Valid() && u < |ownership.units|
  {
    && verdict.flag == (if Exact(ownership, sides, u) then 3 else if Live(ownership, sides, u) then 2 else 1)
    && (verdict.flag == 3 ==> ExactBounds(ownership, sides, u) == Some((verdict.low, verdict.high)))
    && (if Live(ownership, sides, u) then BetweenNeighbors(ownership, sides, u, verdict.before, verdict.after)
        else verdict.before == verdict.after == 0)
  }

  predicate AnyLive(sides: Sides, ranges: seq<Span>) {
    exists i :: 0 <= i < |ranges| && exists line :: ranges[i].first <= line <= ranges[i].last && line >= 0 && LiveLine(sides.toWorking, sides.preserved, line)
  }

  lemma AnyLiveIsLive(ownership: BatchOwnership, sides: Sides, u: nat)
    requires ownership.Valid() && u < |ownership.units| && ownership.units[u].presence.Some?
    ensures AnyLive(sides, NormalForm(ownership.units[u].presence.value)) <==> Live(ownership, sides, u)
  {
    hide LiveLine, NormalForm;
    var raw := ownership.units[u].presence.value;
    NormalFormMeaning(raw);
    var ranges := NormalForm(raw);
    if AnyLive(sides, ranges) {
      var i :| 0 <= i < |ranges| && exists line :: ranges[i].first <= line <= ranges[i].last && line >= 0 && LiveLine(sides.toWorking, sides.preserved, line);
      var line: nat :| ranges[i].first <= line <= ranges[i].last && LiveLine(sides.toWorking, sides.preserved, line);
      assert Contains(ranges, line);
    }
    if Live(ownership, sides, u) {
      var line: nat :| Contains(raw, line) && LiveLine(sides.toWorking, sides.preserved, line);
      assert Contains(ranges, line);
    }
  }

  /** Judge one unit on its own. */
  method JudgeUnit(ownership: BatchOwnership, sides: Sides, u: nat, before: array<nat>, after: array<nat>)
    returns (outcome: Result<Verdict, RestoreError>, live: bool)
    requires ownership.Valid() && sides.Valid() && u < |ownership.units|
    requires before.Length == after.Length == |sides.source|
    requires forall i :: 0 <= i < |sides.source| ==> NearestBefore(ownership, sides, i + 1, before[i])
    requires forall i :: 0 <= i < |sides.source| ==> NearestAfter(ownership, sides, i + 1, after[i])
    ensures outcome.Err? <==> Fails(ownership, sides, u)
    ensures outcome.Err? ==> outcome.error == AmbiguousReplacement || outcome.error.OutsideSource?
    ensures outcome.Ok? ==> IsVerdict(ownership, sides, u, outcome.value)
    ensures live <==> Live(ownership, sides, u)
  {
    hide NormalForm, AnyLive, NearestBefore, NearestAfter, Enclosing, AllWithin;
    var ranges := CollectedRanges(ownership.units[u]);
    live := false;
    var nearestBefore, nearestAfter := 0, 0;
    if ranges.Some? {
      CollectedRangesAre(ownership, u);
      AnyLiveIsLive(ownership, sides, u);
      live := AnyLive(sides, ranges.value);
      if live && |ranges.value| == 1 {
        var span := ranges.value[0];
        if span.last > |sides.source| {
          return Err(OutsideSource(span.last)), live;
        }
        nearestBefore, nearestAfter := before[span.first - 1], after[span.last - 1];
      }
    }
    if Exact(ownership, sides, u) {
      var bounds := ExactBounds(ownership, sides, u);
      if bounds.None? {
        return Err(AmbiguousReplacement), live;
      }
      return Ok(Verdict(3, bounds.value.0, bounds.value.1, nearestBefore, nearestAfter)), live;
    }
    outcome := Ok(Verdict(if live then 2 else 1, 0, 0, nearestBefore, nearestAfter));
  }

  lemma GroupedUnitSkipped(ownership: BatchOwnership, sides: Sides, u: nat, d: nat, record: RestoreRecord)
    requires ownership.Valid() && u < |ownership.units| && d < |ownership.deletions|
    requires IsUnitRecord(ownership, sides, u, d, record) && (Grouped(ownership, sides, u) || !Names(ownership, u, d))
    ensures IsUnitRecord(ownership, sides, u + 1, d, record)
  {
    hide Grouped, Exact, Live, BetweenNeighbors, Superseded, Names, IsShare, IsPreimage;
  }

  /** A verdict moves a record to what one more unit makes of it. */
  lemma VerdictApplies(ownership: BatchOwnership, sides: Sides, u: nat, d: nat, record: RestoreRecord, verdict: Verdict)
    requires ownership.Valid() && sides.Valid() && u < |ownership.units| && d < |ownership.deletions|
    requires !Grouped(ownership, sides, u) && Names(ownership, u, d)
    requires IsUnitRecord(ownership, sides, u, d, record) && IsVerdict(ownership, sides, u, verdict)
    ensures IsUnitRecord(ownership, sides, u + 1, d, Apply(record, verdict, Superseded(ownership, d)))
  {
    if verdict.flag == 3 {
      hide Grouped, Live, Superseded, Names;
    } else {
      UnitRecordTells(ownership, sides, u, d, record);
      hide Grouped, Exact, Live, BetweenNeighbors, Superseded, Names, IsShare, IsPreimage, Fits, ExactBounds;
    }
  }

  /** Apply a verdict to every deletion that the unit validly names. */
  method ApplyVerdict(ownership: BatchOwnership, u: nat, verdict: Verdict, superseded: array<bool>, records: array<RestoreRecord>)
    requires u < |ownership.units| && records.Length == superseded.Length == |ownership.deletions|
    requires records as object != superseded
    modifies records
    ensures forall d :: 0 <= d < records.Length ==>
      records[d] == if Names(ownership, u, d) then Apply(old(records[d]), verdict, superseded[d]) else old(records[d])
  {
    var indices := ownership.units[u].deletionIndices;
    var p := 0;
    while p < |indices|
      invariant 0 <= p <= |indices|
      invariant forall d :: 0 <= d < records.Length ==>
        records[d] == if d in indices[..p] then Apply(old(records[d]), verdict, superseded[d]) else old(records[d])
    {
      assert indices[..p + 1] == indices[..p] + [indices[p]];
      if 0 <= indices[p] < records.Length {
        records[indices[p]] := Apply(records[indices[p]], verdict, superseded[indices[p]]);
      }
      p := p + 1;
    }
    assert indices[..p] == indices;
  }

  predicate RestoresSome(ownership: BatchOwnership, u: nat, records: seq<RestoreRecord>)
    requires u < |ownership.units| && |records| == |ownership.deletions|
  {
    var indices := ownership.units[u].deletionIndices;
    exists p :: 0 <= p < |indices| && SupersededDeletions.Valid(ownership, indices[p])
      && (records[indices[p]].flag == 2 || records[indices[p]].flag == 3)
  }

  ghost predicate UnitRecords(ownership: BatchOwnership, sides: Sides, upto: nat, records: seq<RestoreRecord>)
    requires ownership.Valid() && upto <= |ownership.units|
  {
    && |records| == |ownership.deletions|
    && forall d :: 0 <= d < |records| ==> IsUnitRecord(ownership, sides, upto, d, records[d])
  }

  /** The collected ranges hold exactly the lines of all groups and of the first units that restore text alone. */
  ghost predicate UnitSpans(ownership: BatchOwnership, sides: Sides, upto: nat, spans: seq<Span>)
    requires upto <= |ownership.units|
  {
    forall line :: Contains(spans, line) <==>
      ApartWithGroup(ownership, sides, |ownership.units|, line) || ApartAlone(ownership, sides, upto, line)
  }

  lemma UnitsStart(ownership: BatchOwnership, sides: Sides, records: seq<RestoreRecord>, handled: seq<bool>, spans: seq<Span>)
    requires ownership.Valid() && GroupRecords(ownership, sides, |ownership.units|, records, handled)
    requires GroupSpans(ownership, sides, |ownership.units|, spans)
    ensures UnitRecords(ownership, sides, 0, records) && UnitSpans(ownership, sides, 0, spans)
    ensures forall u :: 0 <= u < |ownership.units| ==> (handled[u] <==> Grouped(ownership, sides, u))
  {
    hide Grouped, IsShare, IsPreimage, BetweenNeighbors, Superseded, Contains, InUnit, Claims;
    forall d | 0 <= d < |records| ensures IsUnitRecord(ownership, sides, 0, d, records[d]) {
      assert IsGroupRecord(ownership, sides, |ownership.units|, d, records[d]);
    }
  }

  /** Whether the program finds restored text in the records is whether the unit restores text alone. */
  lemma RestoresSomeIs(ownership: BatchOwnership, sides: Sides, u: nat, records: seq<RestoreRecord>)
    requires ownership.Valid() && sides.Valid() && u < |ownership.units| && UnitRecords(ownership, sides, u + 1, records)
    requires !Grouped(ownership, sides, u)
    ensures RestoresAlone(ownership, sides, u) <==> Live(ownership, sides, u) && RestoresSome(ownership, u, records)
  {
    hide Grouped, Live, IsUnitRecord, Superseded, LastClaim, RestoresSome;
    if Live(ownership, sides, u) {
      RestoresSomeNames(ownership, u, records);
      forall d | 0 <= d < |records| && Names(ownership, u, d)
        ensures records[d].flag == 2 || records[d].flag == 3 <==> ComesBack(ownership, sides, u, d)
      {
        UnitRecordTells(ownership, sides, u + 1, d, records[d]);
        LiveUnitClaims(ownership, sides, u, d);
      }
    }
  }

  lemma LiveUnitClaims(ownership: BatchOwnership, sides: Sides, u: nat, d: nat)
    requires u < |ownership.units| && !Grouped(ownership, sides, u) && Live(ownership, sides, u) && Names(ownership, u, d)
    ensures LastClaim(ownership, sides, ByLiveText, u + 1, d) == Some(u)
  {
  }

  lemma RestoresSomeNames(ownership: BatchOwnership, u: nat, records: seq<RestoreRecord>)
    requires u < |ownership.units| && |records| == |ownership.deletions|
    ensures RestoresSome(ownership, u, records) <==>
      exists d :: 0 <= d < |records| && Names(ownership, u, d) && (records[d].flag == 2 || records[d].flag == 3)
  {
    var indices := ownership.units[u].deletionIndices;
    if d :| 0 <= d < |records| && Names(ownership, u, d) && (records[d].flag == 2 || records[d].flag == 3) {
      var p :| 0 <= p < |indices| && indices[p] == d;
      assert SupersededDeletions.Valid(ownership, indices[p]);
    }
    if RestoresSome(ownership, u, records) {
      var p :| 0 <= p < |indices| && SupersededDeletions.Valid(ownership, indices[p])
        && (records[indices[p]].flag == 2 || records[indices[p]].flag == 3);
      assert Names(ownership, u, indices[p]);
    }
  }

  lemma UnitSpansNext(ownership: BatchOwnership, sides: Sides, u: nat, spans: seq<Span>, added: seq<Span>)
    requires ownership.Valid() && u < |ownership.units| && UnitSpans(ownership, sides, u, spans)
    requires RestoresAlone(ownership, sides, u) ==> CollectedRanges(ownership.units[u]) == Some(added)
    requires !RestoresAlone(ownership, sides, u) ==> added == []
    ensures UnitSpans(ownership, sides, u + 1, spans + added)
  {
    hide RestoresAlone, NormalForm, ApartWithGroup, Contains;
    if RestoresAlone(ownership, sides, u) {
      NormalFormMeaning(ownership.units[u].presence.value);
      forall line ensures Contains(spans + added, line) <==>
        ApartWithGroup(ownership, sides, |ownership.units|, line) || ApartAlone(ownership, sides, u + 1, line)
      {
        ContainsConcat(spans, added, line);
      }
    } else {
      assert spans + added == spans;
    }
  }

  /** Judge and record one unit outside any group. */
  method RestoreUnit(ownership: BatchOwnership, sides: Sides, u: nat, before: array<nat>, after: array<nat>,
                     superseded: array<bool>, records: array<RestoreRecord>, spans: seq<Span>)
    returns (outcome: Result<seq<Span>, RestoreError>)
    requires ownership.Valid() && sides.Valid() && u < |ownership.units| && !Grouped(ownership, sides, u)
    requires before.Length == after.Length == |sides.source|
    requires forall i :: 0 <= i < |sides.source| ==> NearestBefore(ownership, sides, i + 1, before[i])
    requires forall i :: 0 <= i < |sides.source| ==> NearestAfter(ownership, sides, i + 1, after[i])
    requires records.Length == superseded.Length == |ownership.deletions|
    requires records as object != superseded && records as object != before && records as object != after
    requires forall d :: 0 <= d < superseded.Length ==> (superseded[d] <==> Superseded(ownership, d))
    requires UnitRecords(ownership, sides, u, records[..]) && SpansValid(spans) && UnitSpans(ownership, sides, u, spans)
    modifies records
    ensures outcome.Err? <==> Fails(ownership, sides, u)
    ensures outcome.Ok? ==> UnitRecords(ownership, sides, u + 1, records[..])
    ensures outcome.Ok? ==> SpansValid(outcome.value) && UnitSpans(ownership, sides, u + 1, outcome.value)
  {
    hide Fails, IsVerdict, IsUnitRecord, Superseded, NormalForm, Grouped, NearestBefore, NearestAfter, Live, Apply, UnitSpans;
    var verdict, live := JudgeUnit(ownership, sides, u, before, after);
    if verdict.Err? {
      return Err(verdict.error);
    }
    ghost var were := records[..];
    ApplyVerdict(ownership, u, verdict.value, superseded, records);
    forall d | 0 <= d < records.Length ensures IsUnitRecord(ownership, sides, u + 1, d, records[d]) {
      if Names(ownership, u, d) {
        VerdictApplies(ownership, sides, u, d, were[d], verdict.value);
      } else {
        GroupedUnitSkipped(ownership, sides, u, d, were[d]);
      }
    }
    RestoresSomeIs(ownership, sides, u, records[..]);
    LiveHasLines(ownership, sides, u);
    hide RestoresAlone, RestoresSome, UnitRecords, Names;
    var ranges := CollectedRanges(ownership.units[u]);
    if live && ranges.Some? && RestoresSome(ownership, u, records[..]) {
      CollectedRangesAre(ownership, u);
      UnitSpansNext(ownership, sides, u, spans, ranges.value);
      return Ok(spans + ranges.value);
    }
    UnitSpansNext(ownership, sides, u, spans, []);
    assert spans + [] == spans;
    outcome := Ok(spans);
  }

  lemma LiveHasLines(ownership: BatchOwnership, sides: Sides, u: nat)
    requires u < |ownership.units|
    ensures Live(ownership, sides, u) ==> CollectedRanges(ownership.units[u]).Some?
  {
  }

  // ------------------------------------------------------------- all records

  /** A single sorted, disjoint selection has one range around a line. */
  lemma OneRangePrecedes(ownership: BatchOwnership, d: nat, r: nat, q: nat)
    requires ownership.Valid() && d < |ownership.deletions| && r < |ownership.presence| && q < |ownership.presence|
    requires Precedes(ownership, d, r) && Precedes(ownership, d, q)
    ensures r == q
  {
  }

  lemma LegacyDecides(ownership: BatchOwnership, sides: Sides, before: seq<RestoreRecord>, after: seq<RestoreRecord>, candidates: seq<Candidate>)
    requires ownership.Valid() && sides.Valid() && UnitRecords(ownership, sides, |ownership.units|, before)
    requires CandidatesOf(ownership, before, |ownership.deletions|, candidates)
    requires Scannable(ownership, candidates, |ownership.deletions|)
    requires Decided(ownership, sides.toWorking, sides.preserved, candidates, 0, before, after)
    ensures FinalRecords(ownership, sides, after)
  {
    CandidatesAreUncoupled(ownership, sides, before);
    hide LiveSuffix, IsUnitRecord, Contains, Precedes, Uncoupled, IsCandidate, FinalRecord, LegacyRecord;
    forall d | 0 <= d < |after| ensures FinalRecord(ownership, sides, d, after[d]) {
      if IsCandidate(ownership, before, d) {
        var i :| 0 <= i < |candidates| && candidates[i].deletion == d;
        CandidateIsFinal(ownership, sides, before, candidates, i);
      } else {
        forall i | 0 <= i < |candidates| ensures candidates[i].deletion != d {
          assert IsCandidate(ownership, before, candidates[i].deletion);
        }
        OtherIsFinal(ownership, sides, d, before[d]);
      }
    }
  }

  lemma OtherIsFinal(ownership: BatchOwnership, sides: Sides, d: nat, record: RestoreRecord)
    requires ownership.Valid() && d < |ownership.deletions| && !Uncoupled(ownership, d)
    requires IsUnitRecord(ownership, sides, |ownership.units|, d, record)
    ensures FinalRecord(ownership, sides, d, record)
  {
    hide IsUnitRecord, Uncoupled;
  }

  /** What the scan decides for a candidate is what becomes of its deletion. */
  lemma CandidateIsFinal(ownership: BatchOwnership, sides: Sides, before: seq<RestoreRecord>, candidates: seq<Candidate>, i: nat)
    requires ownership.Valid() && |before| == |ownership.deletions| && i < |candidates|
    requires CandidatesOf(ownership, before, |ownership.deletions|, candidates)
    requires candidates[i].deletion < |ownership.deletions| && Uncoupled(ownership, candidates[i].deletion)
    ensures candidates[i].range < |ownership.presence|
    ensures FinalRecord(ownership, sides, candidates[i].deletion, LegacyRecord(ownership, sides.toWorking, sides.preserved, candidates[i]))
  {
    hide LiveSuffix, Contains, Precedes, Uncoupled, IsCandidate, IsUnitRecord;
    var c, d := candidates[i], candidates[i].deletion;
    forall r | 0 <= r < |ownership.presence| && Precedes(ownership, d, r) ensures r == c.range {
      OneRangePrecedes(ownership, d, r, c.range);
    }
    assert LegacyLive(ownership, sides, d) <==> LiveBehind(ownership, sides, d, c.range);
  }

  /** The legacy scan takes up exactly the deletions that no unit names. */
  lemma CandidatesAreUncoupled(ownership: BatchOwnership, sides: Sides, records: seq<RestoreRecord>)
    requires ownership.Valid() && sides.Valid() && UnitRecords(ownership, sides, |ownership.units|, records)
    ensures forall d :: 0 <= d < |records| ==> (IsCandidate(ownership, records, d) <==> Uncoupled(ownership, d))
  {
    hide IsUnitRecord, Named, Contains;
    forall d | 0 <= d < |records| ensures IsCandidate(ownership, records, d) <==> Uncoupled(ownership, d) {
      UndecidedAreUnnamed(ownership, sides, d, records[d]);
    }
  }

  lemma {:induction false} LiveSpansValid(ownership: BatchOwnership, sides: Sides, candidates: seq<Candidate>, from: nat)
    requires from <= |candidates| && Scannable(ownership, candidates, |ownership.deletions|)
    ensures SpansValid(LiveSpans(ownership, sides.toWorking, sides.preserved, candidates, from))
    decreases |candidates| - from
  {
    hide LiveSuffix;
    if from < |candidates| {
      LiveSpansValid(ownership, sides, candidates, from + 1);
    }
  }

  /** A live candidate's stretch holds the line. */
  ghost predicate LiveStretch(ownership: BatchOwnership, sides: Sides, c: Candidate, line: int)
    requires c.range < |ownership.presence|
  {
    && LiveSuffix(sides.toWorking, sides.preserved, c.start, ownership.presence[c.range].last)
    && c.start <= line <= ownership.presence[c.range].last
  }

  lemma {:induction false} LiveSpansSelect(ownership: BatchOwnership, sides: Sides, candidates: seq<Candidate>, from: nat, line: int)
    requires from <= |candidates| && Scannable(ownership, candidates, |ownership.deletions|)
    ensures Contains(LiveSpans(ownership, sides.toWorking, sides.preserved, candidates, from), line)
       <==> exists i :: from <= i < |candidates| && LiveStretch(ownership, sides, candidates[i], line)
    decreases |candidates| - from
  {
    hide LiveSuffix, Contains;
    if from < |candidates| {
      LiveSpansSelect(ownership, sides, candidates, from + 1, line);
      var c := candidates[from];
      var end := ownership.presence[c.range].last;
      var rest := LiveSpans(ownership, sides.toWorking, sides.preserved, candidates, from + 1);
      ContainsAppend(rest, Span(c.start, end), line);
      assert rest + [] == rest;
    } else {
      NothingSelected(line);
    }
  }

  /** The stretches of the live candidates hold exactly the lines behind uncoupled deletions. */
  lemma StretchesAreApart(ownership: BatchOwnership, sides: Sides, records: seq<RestoreRecord>, candidates: seq<Candidate>, line: int)
    requires ownership.Valid() && sides.Valid() && UnitRecords(ownership, sides, |ownership.units|, records)
    requires CandidatesOf(ownership, records, |ownership.deletions|, candidates)
    requires Scannable(ownership, candidates, |ownership.deletions|)
    ensures Contains(LiveSpans(ownership, sides.toWorking, sides.preserved, candidates, 0), line) <==> ApartByLegacy(ownership, sides, line)
  {
    LiveSpansSelect(ownership, sides, candidates, 0, line);
    CandidatesAreUncoupled(ownership, sides, records);
    hide *;
    if i :| 0 <= i < |candidates| && LiveStretch(ownership, sides, candidates[i], line) {
      StretchIsApart(ownership, sides, records, candidates, i, line);
    }
    if ApartByLegacy(ownership, sides, line) {
      ApartIsStretch(ownership, sides, records, candidates, line);
    }
  }

  lemma StretchIsApart(ownership: BatchOwnership, sides: Sides, records: seq<RestoreRecord>, candidates: seq<Candidate>, i: nat, line: int)
    requires |records| == |ownership.deletions| && CandidatesOf(ownership, records, |ownership.deletions|, candidates)
    requires i < |candidates| && candidates[i].range < |ownership.presence| && LiveStretch(ownership, sides, candidates[i], line)
    requires forall d :: 0 <= d < |records| ==> (IsCandidate(ownership, records, d) <==> Uncoupled(ownership, d))
    ensures ApartByLegacy(ownership, sides, line)
  {
    hide LiveSuffix, Uncoupled, IsCandidate, Precedes;
    var c := candidates[i];
    assert BehindUncoupled(ownership, sides, c.deletion, c.range, line);
  }

  lemma ApartIsStretch(ownership: BatchOwnership, sides: Sides, records: seq<RestoreRecord>, candidates: seq<Candidate>, line: int)
    requires ownership.Valid() && |records| == |ownership.deletions| && CandidatesOf(ownership, records, |ownership.deletions|, candidates)
    requires Scannable(ownership, candidates, |ownership.deletions|) && ApartByLegacy(ownership, sides, line)
    requires forall d :: 0 <= d < |records| ==> (IsCandidate(ownership, records, d) <==> Uncoupled(ownership, d))
    ensures exists i :: 0 <= i < |candidates| && LiveStretch(ownership, sides, candidates[i], line)
  {
    hide LiveSuffix, Uncoupled, IsCandidate, Precedes, Scannable;
    var d, r :| 0 <= d < |ownership.deletions| && 0 <= r < |ownership.presence| && BehindUncoupled(ownership, sides, d, r, line);
    var i :| 0 <= i < |candidates| && candidates[i].deletion == d;
    OneRangePrecedes(ownership, d, r, candidates[i].range);
    assert LiveStretch(ownership, sides, candidates[i], line);
  }

  /** Restore the groups and then the units outside them. */
  method RestoreUnits(hashes: Hashes, ownership: BatchOwnership, sides: Sides, records: array<RestoreRecord>)
    returns (outcome: Result<seq<Span>, RestoreError>)
    requires ownership.Valid() && sides.Valid() && records.Length == |ownership.deletions|
    requires forall d :: 0 <= d < records.Length ==> records[d] == RestoreRecord(0, 0, 0)
    modifies records
    ensures outcome.Err? <==> CannotRestore(ownership, sides)
    ensures outcome.Ok? ==> UnitRecords(ownership, sides, |ownership.units|, records[..])
    ensures outcome.Ok? ==> SpansValid(outcome.value) && UnitSpans(ownership, sides, |ownership.units|, outcome.value)
  {
    hide LostGroup, Fails, Grouped, UnitRecords, SpansValid, NearestBefore, NearestAfter, Superseded, UnitSpans, GroupSpans;
    var handled := new bool[|ownership.units|](_ => false);
    var before, after := SurvivingSourceNeighborLines(ownership, sides);
    var superseded := SupersededReplacementDeletions(hashes, ownership);
    NothingGrouped(ownership, sides, records[..], handled[..]);
    var groups := RestoreGroups(ownership, sides, records, handled);
    if groups.Err? {
      return groups;
    }
    UnitsStart(ownership, sides, records[..], handled[..], groups.value);
    hide GroupRecords;
    var spans := groups.value;
    var u := 0;
    while u < |ownership.units|
      invariant 0 <= u <= |ownership.units|
      invariant UnitRecords(ownership, sides, u, records[..]) && SpansValid(spans) && UnitSpans(ownership, sides, u, spans)
      invariant forall x :: 0 <= x < u && !Grouped(ownership, sides, x) ==> !Fails(ownership, sides, x)
      modifies records
    {
      if handled[u] {
        GroupedUnits(ownership, sides, u, records[..], spans);
      } else {
        var unit := RestoreUnit(ownership, sides, u, before, after, superseded, records, spans);
        if unit.Err? {
          return unit;
        }
        spans := unit.value;
      }
      u := u + 1;
    }
    outcome := Ok(spans);
  }

  lemma GroupedUnits(ownership: BatchOwnership, sides: Sides, u: nat, records: seq<RestoreRecord>, spans: seq<Span>)
    requires ownership.Valid() && u < |ownership.units| && Grouped(ownership, sides, u)
    requires UnitRecords(ownership, sides, u, records) && UnitSpans(ownership, sides, u, spans)
    ensures UnitRecords(ownership, sides, u + 1, records) && UnitSpans(ownership, sides, u + 1, spans)
  {
    hide IsUnitRecord;
    forall d | 0 <= d < |records| ensures IsUnitRecord(ownership, sides, u + 1, d, records[d]) {
      GroupedUnitSkipped(ownership, sides, u, d, records[d]);
    }
    UnitSpansNext(ownership, sides, u, spans, []);
    assert spans + [] == spans;
  }

  lemma NothingGrouped(ownership: BatchOwnership, sides: Sides, records: seq<RestoreRecord>, handled: seq<bool>)
    requires ownership.Valid() && |records| == |ownership.deletions| && |handled| == |ownership.units|
    requires forall d :: 0 <= d < |records| ==> records[d] == RestoreRecord(0, 0, 0)
    requires forall u :: 0 <= u < |handled| ==> !handled[u]
    ensures GroupRecords(ownership, sides, 0, records, handled)
  {
  }

  /** Sort and compact the collected ranges in a record vector. */
  method NormalizeRanges(spans: seq<Span>) returns (normal: seq<Span>)
    ensures normal == NormalForm(spans)
  {
    hide NormalForm;
    var ranges := new MappedRanges(|spans|);
    var i := 0;
    while i < |spans|
      invariant 0 <= i <= |spans| && ranges.Valid() && fresh(ranges) && fresh(ranges.slots)
      invariant ranges.slots.Length == |spans| && ranges.Ranges() == spans[..i] && ranges.count == i
    {
      ranges.Append(spans[i]);
      i := i + 1;
    }
    assert spans[..i] == spans;
    ranges.NormalizeInPlace();
    normal := ranges.Ranges();
  }

  lemma SpansAreApart(ownership: BatchOwnership, sides: Sides, records: seq<RestoreRecord>, candidates: seq<Candidate>, units: seq<Span>)
    requires ownership.Valid() && sides.Valid() && UnitRecords(ownership, sides, |ownership.units|, records)
    requires CandidatesOf(ownership, records, |ownership.deletions|, candidates)
    requires Scannable(ownership, candidates, |ownership.deletions|)
    requires SpansValid(units) && UnitSpans(ownership, sides, |ownership.units|, units)
    ensures var spans := units + LiveSpans(ownership, sides.toWorking, sides.preserved, candidates, 0);
      Normalized(NormalForm(spans)) && forall line :: Contains(NormalForm(spans), line) <==> RestoredApart(ownership, sides, line)
  {
    var legacy := LiveSpans(ownership, sides.toWorking, sides.preserved, candidates, 0);
    LiveSpansValid(ownership, sides, candidates, 0);
    hide *;
    assert forall i :: 0 <= i < |units + legacy| ==> (units + legacy)[i].first <= (units + legacy)[i].last by {
      SpansStayValid(units, legacy);
      ValidSpansAreOrdered(units + legacy);
    }
    NormalFormMeaning(units + legacy);
    forall line ensures Contains(NormalForm(units + legacy), line) <==> RestoredApart(ownership, sides, line) {
      StretchesAreApart(ownership, sides, records, candidates, line);
      ContainsConcat(units, legacy, line);
      ApartSplits(ownership, sides, units, line);
    }
  }

  lemma ValidSpansAreOrdered(spans: seq<Span>)
    requires SpansValid(spans)
    ensures forall i :: 0 <= i < |spans| ==> spans[i].first <= spans[i].last
  {
  }

  lemma ApartSplits(ownership: BatchOwnership, sides: Sides, units: seq<Span>, line: int)
    requires UnitSpans(ownership, sides, |ownership.units|, units)
    ensures RestoredApart(ownership, sides, line) <==> Contains(units, line) || ApartByLegacy(ownership, sides, line)
  {
    hide Contains, ApartByLegacy, ApartAlone, ApartWithGroup;
  }

  /**
   Record what undo does with each deleted version, and which presence lines are restored apart.
   Undo fails exactly when an authorized group or an exact unit cannot be located, or a live
   unit reaches past the source.
   */
  method ReplacementDeletionRestoreRecords(hashes: Hashes, ownership: BatchOwnership, sides: Sides)
    returns (outcome: Result<(seq<RestoreRecord>, seq<Span>), RestoreError>)
    requires ownership.Valid() && sides.Valid()
    ensures outcome.Err? <==> CannotRestore(ownership, sides)
    ensures outcome.Ok? ==> FinalRecords(ownership, sides, outcome.value.0) && Normalized(outcome.value.1)
    ensures outcome.Ok? ==> forall line :: Contains(outcome.value.1, line) <==> RestoredApart(ownership, sides, line)
  {
    hide *;
    var records := new RestoreRecord[|ownership.deletions|](_ => RestoreRecord(0, 0, 0));
    var units := RestoreUnits(hashes, ownership, sides, records);
    if units.Err? {
      return Err(units.error);
    }
    ghost var before := records[..];
    var spans, candidates, probes :=
      AppendLiveLegacyReplacementRestoreRecords(ownership, sides.toWorking, sides.preserved, records, units.value);
    LegacyDecides(ownership, sides, before, records[..], candidates);
    SpansAreApart(ownership, sides, before, candidates, units.value);
    var normal := NormalizeRanges(spans);
    outcome := Ok((records[..], normal));
  }
}
