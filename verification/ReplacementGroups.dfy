/**
 Groups of replacement units that together stand for one stretch of index text
 (batch/discard.py:1121-1251, 1336-1385).
 */
module ReplacementGroups {
  import opened Wrappers
  import opened LineRanges
  import opened Sequences
  import opened Realized
  import opened LineMatching
  import opened Ownership
  import opened DiscardRestoration

  /** The trusted index text and its alignments. */
  datatype Trusted = Trusted(lines: seq<Line>, fromSource: LineMapping, toWorking: LineMapping)

  /** The texts and alignments that restore records are computed from. */
  datatype Sides = Sides(
    source: seq<Line>,
    working: seq<Line>,
    toWorking: LineMapping,
    trusted: Option<Trusted>,
    anchored: seq<Span>,
    preimage: seq<Span>,
    preserved: set<nat>)
  {
    ghost predicate Valid() {
      && Normalized(preimage) && Normalized(anchored) && toWorking.Within(|source|, |working|)
      && (trusted.Some? ==>
            && trusted.value.fromSource.Within(|source|, |trusted.value.lines|)
            && trusted.value.toWorking.Within(|trusted.value.lines|, |working|))
    }
  }

  /** A unit that may stand in a group: one old text after a known baseline line, one range of index lines. */
  datatype Member = Member(deletion: nat, span: Span, after: nat, lines: seq<Line>)

  /** The unit's presence lines, parsed and normalized. */
  function CollectedRanges(unit: ReplacementUnit): Option<seq<Span>> {
    if unit.presence.None? then None else Some(NormalForm(unit.presence.value))
  }

  lemma CollectedRangesAre(ownership: BatchOwnership, u: nat)
    requires ownership.Valid() && u < |ownership.units| && ownership.units[u].presence.Some?
    ensures var ranges := NormalForm(ownership.units[u].presence.value);
      Normalized(ranges) && forall i :: 0 <= i < |ranges| ==> 1 <= ranges[i].first <= ranges[i].last
  {
    var raw := ownership.units[u].presence.value;
    NormalFormMeaning(raw);
    var ranges := NormalForm(raw);
    forall i | 0 <= i < |ranges| ensures 1 <= ranges[i].first <= ranges[i].last {
      assert Contains(ranges, ranges[i].first);
    }
  }

  /** The baseline line a claim's reference puts it after. */
  function AfterLine(claim: AbsenceClaim): Option<nat> {
    if claim.reference.Some? && claim.reference.value.after.Known? then claim.reference.value.after.line else None
  }

  predicate AllWithin(ranges: seq<Span>, span: Span) {
    forall line :: span.first <= line <= span.last ==> Contains(ranges, line)
  }

  function MemberOf(ownership: BatchOwnership, sides: Sides, u: nat): Option<Member>
    requires u < |ownership.units|
  {
    var indices := ownership.units[u].deletionIndices;
    if |indices| != 1 || indices[0] < 0 || indices[0] >= |ownership.deletions| then None
    else
      var claim := ownership.deletions[indices[0]];
      var ranges := CollectedRanges(ownership.units[u]);
      if claim.content == [] || AfterLine(claim).None? then None
      else if ranges.None? || |ranges.value| != 1 then None
      else if ranges.value[0].last > |sides.source| || !AllWithin(sides.preimage, ranges.value[0]) then None
      else Some(Member(indices[0], ranges.value[0], AfterLine(claim).value, claim.content))
  }

  /** One member continues another in the source and in the baseline. */
  predicate Follows(previous: Member, next: Member) {
    next.span.first == previous.span.last + 1 && next.after == previous.after + |previous.lines|
  }

  /** The members start..end of a group, when all are eligible and each follows the one before. */
  function MembersUpTo(ownership: BatchOwnership, sides: Sides, start: nat, end: nat): Option<seq<Member>>
    requires start <= end <= |ownership.units|
  {
    if start == end then Some([])
    else
      var before, last := MembersUpTo(ownership, sides, start, end - 1), MemberOf(ownership, sides, end - 1);
      if before.None? || last.None? then None
      else if before.value != [] && !Follows(before.value[|before.value| - 1], last.value) then None
      else Some(before.value + [last.value])
  }

  /** Old lines of the first members. */
  function OldCount(members: seq<Member>, count: nat): nat
    requires count <= |members|
  {
    if count == 0 then 0 else OldCount(members, count - 1) + |members[count - 1].lines|
  }

  /** The group as a whole claims one stretch of index text. */
  predicate Authorized(ownership: BatchOwnership, sides: Sides, start: nat, end: nat)
    requires start < end <= |ownership.units|
  {
    && sides.trusted.Some? && sides.preimage != []
    && MembersUpTo(ownership, sides, start, end).Some?
    && var members := MembersUpTo(ownership, sides, start, end).value;
      members != [] && members[0].span.first > 1 && members[|members| - 1].span.last + 1 <= |sides.source|
  }

  /** A source line maps to where it would stand if the lines from `first` on followed `workingBefore`. */
  predicate StandsVerbatim(sides: Sides, first: int, workingBefore: nat, line: int) {
    var at := workingBefore + line - first + 1;
    && 1 <= line <= |sides.source| && 1 <= at <= |sides.working|
    && sides.toWorking.Target(line) == Some(at)
    && sides.source[line - 1] == sides.working[at - 1]
  }

  /** The lines first..next of the source stand verbatim, and freshly introduced, in the worktree. */
  predicate StandsLive(sides: Sides, first: int, next: int, workingBefore: nat)
    requires sides.trusted.Some?
  {
    forall line :: first <= line < next ==>
      StandsVerbatim(sides, first, workingBefore, line) && sides.trusted.value.fromSource.Target(line) == None
  }

  /**
   The neighbours of the lines first..next enclose exactly those lines in the worktree, and the same
   neighbours stand in the index text: the worktree line before, and the index lines before and after.
   */
  function Enclosing(sides: Sides, first: int, next: int): Option<(nat, nat, nat)>
    requires sides.trusted.Some? && 1 < first <= next
  {
    var trusted := sides.trusted.value;
    var workingBefore, workingAfter := sides.toWorking.Target(first - 1), sides.toWorking.Target(next);
    var trustedBefore, trustedAfter := trusted.fromSource.Target(first - 1), trusted.fromSource.Target(next);
    if workingBefore.None? || workingAfter.None? || trustedBefore.None? || trustedAfter.None? then None
    else if workingAfter.value - workingBefore.value - 1 != next - first then None
    else if trusted.toWorking.Target(trustedBefore.value) != workingBefore then None
    else if trusted.toWorking.Target(trustedAfter.value) != workingAfter then None
    else Some((workingBefore.value, trustedBefore.value, trustedAfter.value))
  }

  /** The index slice that stands where the lines first..next stand in the worktree. */
  function SliceBetween(sides: Sides, first: int, next: int, oldCount: nat): Option<(nat, nat)>
    requires sides.trusted.Some? && 1 < first <= next
  {
    var around := Enclosing(sides, first, next);
    if around.None? || around.value.2 - around.value.1 - 1 != oldCount then None
    else if !StandsLive(sides, first, next, around.value.0) then None
    else Some((around.value.1, around.value.2 - 1))
  }

  /** The group's slice of the index text. */
  function GroupBounds(ownership: BatchOwnership, sides: Sides, start: nat, end: nat): Option<(nat, nat)>
    requires start < end <= |ownership.units| && ownership.Valid() && Authorized(ownership, sides, start, end)
  {
    var members := MembersUpTo(ownership, sides, start, end).value;
    MembersAre(ownership, sides, start, end);
    SliceBetween(sides, members[0].span.first, members[|members| - 1].span.last + 1, OldCount(members, |members|))
  }

  lemma {:induction false} MembersAre(ownership: BatchOwnership, sides: Sides, start: nat, end: nat)
    requires start < end <= |ownership.units| && ownership.Valid() && MembersUpTo(ownership, sides, start, end).Some?
    ensures var members := MembersUpTo(ownership, sides, start, end).value;
      && |members| == end - start
      && (forall i :: 0 <= i < |members| ==> MemberOf(ownership, sides, start + i) == Some(members[i]))
      && (forall i :: 0 < i < |members| ==> Follows(members[i - 1], members[i]))
      && members[0].span.first <= members[|members| - 1].span.last
    decreases end
  {
    hide MemberOf;
    MemberSpan(ownership, sides, end - 1);
    if start < end - 1 {
      MembersAre(ownership, sides, start, end - 1);
    }
  }

  lemma MemberSpan(ownership: BatchOwnership, sides: Sides, u: nat)
    requires u < |ownership.units| && ownership.Valid()
    ensures MemberOf(ownership, sides, u).Some? ==>
      var member := MemberOf(ownership, sides, u).value;
      && member.deletion < |ownership.deletions| && member.lines == ownership.deletions[member.deletion].content != []
      && ownership.units[u].deletionIndices == [member.deletion]
      && ownership.units[u].presence.Some? && NormalForm(ownership.units[u].presence.value) == [member.span]
      && 1 <= member.span.first <= member.span.last
  {
    hide NormalForm, AllWithin;
    if ownership.units[u].presence.Some? {
      CollectedRangesAre(ownership, u);
    }
  }

  lemma {:induction false} MembersFailEarly(ownership: BatchOwnership, sides: Sides, start: nat, upto: nat, end: nat)
    requires start <= upto <= end <= |ownership.units| && MembersUpTo(ownership, sides, start, upto).None?
    ensures MembersUpTo(ownership, sides, start, end).None?
    decreases end
  {
    hide MemberOf;
    if upto < end {
      MembersFailEarly(ownership, sides, start, upto, end - 1);
    }
  }

  /** The checks on one unit of a group, with the line its predecessor leaves off at. */
  method NextMember(ownership: BatchOwnership, sides: Sides, u: nat, nextBaseline: Option<nat>, nextLine: Option<int>)
    returns (member: Option<Member>)
    requires u < |ownership.units|
    ensures member ==
      var found := MemberOf(ownership, sides, u);
      if found.Some? && (nextBaseline.Some? ==> found.value.after == nextBaseline.value)
         && (nextLine.Some? ==> found.value.span.first == nextLine.value)
      then found else None
  {
    hide NormalForm, AllWithin;
    var indices := ownership.units[u].deletionIndices;
    if |indices| != 1 || indices[0] < 0 || indices[0] >= |ownership.deletions| {
      return None;
    }
    var claim := ownership.deletions[indices[0]];
    var after := AfterLine(claim);
    if claim.content == [] || after.None? || (nextBaseline.Some? && after != nextBaseline) {
      return None;
    }
    var ranges := CollectedRanges(ownership.units[u]);
    if ranges.None? || |ranges.value| != 1 {
      return None;
    }
    var span := ranges.value[0];
    if span.last > |sides.source| || (nextLine.Some? && span.first != nextLine.value) || !AllWithin(sides.preimage, span) {
      return None;
    }
    member := Some(Member(indices[0], span, after.value, claim.content));
  }

  /** Verify and locate one collectively authorized group, unit by unit. */
  method GroupRestoreBounds(ownership: BatchOwnership, sides: Sides, start: nat, end: nat)
    returns (authorized: bool, bounds: Option<(nat, nat)>)
    requires ownership.Valid() && start < end <= |ownership.units|
    ensures authorized <==> Authorized(ownership, sides, start, end)
    ensures authorized ==> bounds == GroupBounds(ownership, sides, start, end)
    ensures !authorized ==> bounds == None
  {
    hide MemberOf, Enclosing, StandsLive;
    if sides.trusted.None? || sides.preimage == [] {
      return false, None;
    }
    var firstLine: Option<int>, nextLine: Option<int>, nextBaseline: Option<nat> := None, None, None;
    var oldCount := 0;
    ghost var members: seq<Member> := [];
    var u := start;
    while u < end
      invariant start <= u <= end && MembersUpTo(ownership, sides, start, u) == Some(members) && |members| == u - start
      invariant u == start ==> firstLine == None && nextLine == None && nextBaseline == None
      invariant u > start ==>
        var last := members[u - start - 1];
        firstLine == Some(members[0].span.first) && nextLine == Some(last.span.last + 1) && nextBaseline == Some(last.after + |last.lines|)
      invariant oldCount == OldCount(members, |members|)
    {
      var member := NextMember(ownership, sides, u, nextBaseline, nextLine);
      if member.None? {
        MembersFailEarly(ownership, sides, start, u + 1, end);
        return false, None;
      }
      OldCountNext(members, member.value);
      members := members + [member.value];
      if firstLine.None? {
        firstLine := Some(member.value.span.first);
      }
      nextLine, nextBaseline := Some(member.value.span.last + 1), Some(member.value.after + |member.value.lines|);
      oldCount := oldCount + |member.value.lines|;
      u := u + 1;
    }
    if firstLine.value <= 1 || nextLine.value > |sides.source| {
      return false, None;
    }
    MembersAre(ownership, sides, start, end);
    return true, SliceBetween(sides, firstLine.value, nextLine.value, oldCount);
  }

  lemma {:induction false} OldCountPrefix(members: seq<Member>, next: Member, count: nat)
    requires count <= |members|
    ensures OldCount(members + [next], count) == OldCount(members, count)
  {
    if count > 0 {
      OldCountPrefix(members, next, count - 1);
    }
  }

  lemma OldCountNext(members: seq<Member>, next: Member)
    ensures OldCount(members + [next], |members| + 1) == OldCount(members, |members|) + |next.lines|
  {
    OldCountPrefix(members, next, |members|);
  }

  // --------------------------------------------- splitting the slice of a group

  lemma {:induction false} LaterAfterLines(members: seq<Member>, i: nat, j: nat)
    requires i < j < |members|
    requires forall k :: 0 < k < |members| ==> Follows(members[k - 1], members[k])
    requires forall k :: 0 <= k < |members| ==> members[k].lines != []
    ensures members[i].after < members[j].after
    decreases j
  {
    assert Follows(members[j - 1], members[j]);
    if i < j - 1 {
      LaterAfterLines(members, i, j - 1);
    }
  }

  /** The deletions of an authorized group are pairwise different. */
  lemma GroupDeletionsDistinct(ownership: BatchOwnership, sides: Sides, start: nat, end: nat)
    requires start < end <= |ownership.units| && ownership.Valid() && Authorized(ownership, sides, start, end)
    ensures forall u, v :: start <= u < v < end ==>
      ownership.units[u].deletionIndices != ownership.units[v].deletionIndices
    ensures var members := MembersUpTo(ownership, sides, start, end).value;
      forall i, j :: 0 <= i < j < |members| ==> members[i].deletion != members[j].deletion
  {
    hide MemberOf;
    MembersAre(ownership, sides, start, end);
    var members := MembersUpTo(ownership, sides, start, end).value;
    forall k | 0 <= k < |members| ensures members[k].lines != [] {
      MemberSpan(ownership, sides, start + k);
    }
    forall i, j | 0 <= i < j < |members| ensures members[i].deletion != members[j].deletion {
      LaterAfterLines(members, i, j);
      AfterOfMember(ownership, sides, start + i);
      AfterOfMember(ownership, sides, start + j);
    }
    forall u, v | start <= u < v < end ensures ownership.units[u].deletionIndices != ownership.units[v].deletionIndices {
      assert members[u - start].deletion != members[v - start].deletion;
      MemberSpan(ownership, sides, start + (u - start));
      MemberSpan(ownership, sides, start + (v - start));
    }
  }

  lemma AfterOfMember(ownership: BatchOwnership, sides: Sides, u: nat)
    requires u < |ownership.units| && MemberOf(ownership, sides, u).Some?
    ensures var member := MemberOf(ownership, sides, u).value;
      member.deletion < |ownership.deletions| && AfterLine(ownership.deletions[member.deletion]) == Some(member.after)
  {
  }

  /** The located slice has room for exactly the group's old lines, inside the index text. */
  lemma SliceHasRoom(ownership: BatchOwnership, sides: Sides, start: nat, end: nat)
    requires start < end <= |ownership.units| && ownership.Valid() && sides.Valid() && Authorized(ownership, sides, start, end)
    requires GroupBounds(ownership, sides, start, end).Some?
    ensures var (low, high) := GroupBounds(ownership, sides, start, end).value;
      var members := MembersUpTo(ownership, sides, start, end).value;
      low + OldCount(members, |members|) == high && high <= |sides.trusted.value.lines|
  {
    hide MembersUpTo, StandsLive;
  }

  /** A member's share of a slice that begins at `low`: as many index lines as it has old lines. */
  function ShareOf(members: seq<Member>, i: nat, low: nat): RestoreRecord
    requires i < |members|
  {
    RestoreRecord(3, low + OldCount(members, i), low + OldCount(members, i + 1))
  }

  /** None of the first members stands for the deletion. */
  predicate Untouched(members: seq<Member>, count: nat, d: nat)
    requires count <= |members|
  {
    forall i :: 0 <= i < count ==> members[i].deletion != d
  }

  /** Consecutive shares of the slice in member order, all other records untouched. */
  ghost predicate SplitUpTo(members: seq<Member>, count: nat, low: nat, before: seq<RestoreRecord>, after: seq<RestoreRecord>)
    requires count <= |members|
  {
    && |before| == |after|
    && (forall i :: 0 <= i < count ==>
          members[i].deletion < |after| && after[members[i].deletion] == ShareOf(members, i, low))
    && (forall d :: 0 <= d < |before| && Untouched(members, count, d) ==> after[d] == before[d])
  }

  lemma ShareAt(members: seq<Member>, low: nat, before: seq<RestoreRecord>, after: seq<RestoreRecord>, i: nat)
    requires SplitUpTo(members, |members|, low, before, after) && i < |members|
    ensures members[i].deletion < |after| && after[members[i].deletion] == ShareOf(members, i, low)
  {
    hide ShareOf, Untouched;
  }

  lemma UntouchedAt(members: seq<Member>, low: nat, before: seq<RestoreRecord>, after: seq<RestoreRecord>, d: nat)
    requires SplitUpTo(members, |members|, low, before, after)
    ensures |after| == |before|
    ensures d < |before| && Untouched(members, |members|, d) ==> after[d] == before[d]
  {
    hide ShareOf, Untouched;
  }

  lemma {:induction false} OldCountGrows(members: seq<Member>, count: nat, end: nat)
    requires count <= end <= |members|
    ensures OldCount(members, count) <= OldCount(members, end)
    decreases end
  {
    if count < end {
      OldCountGrows(members, count, end - 1);
    }
  }

  lemma SplitNext(members: seq<Member>, count: nat, low: nat, before: seq<RestoreRecord>, after: seq<RestoreRecord>)
    requires count < |members| && SplitUpTo(members, count, low, before, after)
    requires members[count].deletion < |before|
    requires forall i :: 0 <= i < count ==> members[i].deletion != members[count].deletion
    ensures SplitUpTo(members, count + 1, low, before, after[members[count].deletion := ShareOf(members, count, low)])
  {
    hide ShareOf, Untouched;
    var next := after[members[count].deletion := ShareOf(members, count, low)];
    forall e | 0 <= e < |before| && Untouched(members, count + 1, e) ensures next[e] == before[e] {
      UntouchedNext(members, count, e);
    }
  }

  lemma UntouchedNext(members: seq<Member>, count: nat, d: nat)
    requires count < |members|
    ensures Untouched(members, count + 1, d) <==> Untouched(members, count, d) && members[count].deletion != d
  {
  }

  function SpansOf(members: seq<Member>, count: nat): seq<Span>
    requires count <= |members|
  {
    if count == 0 then [] else SpansOf(members, count - 1) + [members[count - 1].span]
  }

  /**
   Split a located slice among the group's deletions.  Running out of room or leaving some of
   it over would be an error; neither can happen.
   */
  method SplitGroup(ownership: BatchOwnership, sides: Sides, start: nat, end: nat, low: nat, high: nat,
                    records: array<RestoreRecord>, handled: array<bool>, spans: seq<Span>)
    returns (outcome: Result<seq<Span>, RestoreError>)
    requires start < end <= |ownership.units| && ownership.Valid() && sides.Valid() && Authorized(ownership, sides, start, end)
    requires GroupBounds(ownership, sides, start, end) == Some((low, high))
    requires records.Length == |ownership.deletions| && handled.Length == |ownership.units| && records as object != handled
    modifies records, handled
    ensures var members := MembersUpTo(ownership, sides, start, end).value;
      && outcome == Ok(spans + SpansOf(members, |members|))
      && SplitUpTo(members, |members|, low, old(records[..]), records[..])
    ensures forall u :: 0 <= u < handled.Length ==> handled[u] == (old(handled[u]) || start <= u < end)
  {
    hide MembersUpTo, MemberOf, SplitUpTo, GroupBounds, NormalForm;
    ghost var members := MembersUpTo(ownership, sides, start, end).value;
    hide Authorized;
    ghost var before := records[..];
    SplitStarts(ownership, sides, start, end, low, before);
    var position, restored := low, spans;
    var u := start;
    assert spans + [] == spans;
    while u < end
      invariant start <= u <= end
      invariant position == low + OldCount(members, u - start)
      invariant SplitUpTo(members, u - start, low, before, records[..])
      invariant restored == spans + SpansOf(members, u - start)
      invariant forall v :: 0 <= v < handled.Length ==> handled[v] == (old(handled[v]) || start <= v < u)
    {
      MemberAt(ownership, sides, start, end, u);
      OldCountGrows(members, u - start + 1, end - start);
      var deletion := ownership.units[u].deletionIndices[0];
      var next := position + |ownership.deletions[deletion].content|;
      if next > high {
        return Err(AmbiguousReplacement);
      }
      SplitNext(members, u - start, low, before, records[..]);
      ghost var now := records[..];
      records[deletion] := RestoreRecord(3, position, next);
      assert records[..] == now[deletion := RestoreRecord(3, position, next)];
      handled[u] := true;
      Reassociate(spans, SpansOf(members, u - start), [members[u - start].span]);
      restored := restored + CollectedRanges(ownership.units[u]).value;
      position := next;
      u := u + 1;
    }
    if position != high {
      return Err(AmbiguousReplacement);
    }
    outcome := Ok(restored);
  }

  lemma SplitStarts(ownership: BatchOwnership, sides: Sides, start: nat, end: nat, low: nat, records: seq<RestoreRecord>)
    requires start < end <= |ownership.units| && ownership.Valid() && sides.Valid() && Authorized(ownership, sides, start, end)
    requires GroupBounds(ownership, sides, start, end).Some?
    requires GroupBounds(ownership, sides, start, end).value.0 == low
    ensures var members := MembersUpTo(ownership, sides, start, end).value;
      && |members| == end - start && SplitUpTo(members, 0, low, records, records)
      && low + OldCount(members, |members|) == GroupBounds(ownership, sides, start, end).value.1
  {
    hide MemberOf, GroupBounds;
    MembersAre(ownership, sides, start, end);
    SliceHasRoom(ownership, sides, start, end);
  }

  lemma MemberAt(ownership: BatchOwnership, sides: Sides, start: nat, end: nat, u: nat)
    requires start <= u < end <= |ownership.units| && ownership.Valid() && Authorized(ownership, sides, start, end)
    ensures var members := MembersUpTo(ownership, sides, start, end).value;
      && |members| == end - start
      && members[u - start].deletion < |ownership.deletions|
      && members[u - start].lines == ownership.deletions[members[u - start].deletion].content
      && ownership.units[u].deletionIndices == [members[u - start].deletion]
      && CollectedRanges(ownership.units[u]) == Some([members[u - start].span])
      && (forall i :: 0 <= i < u - start ==> members[i].deletion != members[u - start].deletion)
  {
    hide MemberOf, NormalForm;
    MembersAre(ownership, sides, start, end);
    GroupDeletionsDistinct(ownership, sides, start, end);
    MemberSpan(ownership, sides, start + (u - start));
  }
}
