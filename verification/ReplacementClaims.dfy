/**
 What every deleted version's units claim for it, and which lines undo restores apart
 (batch/discard.py:1015-1118, 1254-1528): the meaning of the restore records.
 */
module ReplacementClaims {
  import opened Wrappers
  import opened LineRanges
  import opened Ownership
  import opened DiscardRestoration
  import opened SupersededDeletions
  import opened LegacyReplacements
  import opened ReplacementGroups

  // ------------------------------------------------ the nearest retained lines

  /** A source line that stays in the worktree once the batch is undone. */
  predicate Survives(ownership: BatchOwnership, sides: Sides, line: nat) {
    (!Contains(ownership.presence, line) || line in sides.preserved) && sides.toWorking.Target(line).Some?
  }

  /** `nearest` is the closest surviving line before `line`, or 0. */
  ghost predicate NearestBefore(ownership: BatchOwnership, sides: Sides, line: nat, nearest: nat) {
    && (nearest != 0 ==> 1 <= nearest < line && Survives(ownership, sides, nearest))
    && forall x: nat :: nearest < x < line ==> !Survives(ownership, sides, x)
  }

  /** `nearest` is the closest surviving line after `line` among the source lines, or 0. */
  ghost predicate NearestAfter(ownership: BatchOwnership, sides: Sides, line: nat, nearest: nat) {
    && (nearest != 0 ==> line < nearest <= |sides.source| && Survives(ownership, sides, nearest))
    && forall x: nat :: line < x <= |sides.source| && (nearest == 0 || x < nearest) ==> !Survives(ownership, sides, x)
  }

  // ------------------------------------------------------------- groups of units

  /** The units start..end are one group: a maximal run of one origin, or a unit without any. */
  ghost predicate IsGroup(ownership: BatchOwnership, start: nat, end: nat) {
    && start < end <= |ownership.units|
    && if ownership.units[start].origin.None? then end == start + 1
       else
         && start + 1 < end
         && (forall u :: start <= u < end ==> ownership.units[u].origin == ownership.units[start].origin)
         && (start > 0 ==> ownership.units[start - 1].origin != ownership.units[start].origin)
         && (end < |ownership.units| ==> ownership.units[end].origin != ownership.units[start].origin)
  }

  /** A group that claims index text. */
  ghost predicate AuthorizedGroup(ownership: BatchOwnership, sides: Sides, start: nat, end: nat) {
    IsGroup(ownership, start, end) && Authorized(ownership, sides, start, end)
  }

  /** A group whose index text cannot be located. */
  ghost predicate LostGroup(ownership: BatchOwnership, sides: Sides, start: nat, end: nat)
    requires ownership.Valid()
  {
    AuthorizedGroup(ownership, sides, start, end) && GroupBounds(ownership, sides, start, end).None?
  }

  /** Unit u is restored with its group. */
  ghost predicate Grouped(ownership: BatchOwnership, sides: Sides, u: nat) {
    exists start: nat, end: nat :: start <= u < end && AuthorizedGroup(ownership, sides, start, end)
  }

  predicate Names(ownership: BatchOwnership, u: nat, d: nat)
    requires u < |ownership.units|
  {
    d in ownership.units[u].deletionIndices
  }

  // ------------------------------------------------------------ the single units

  /** Some presence line of the unit is live. */
  ghost predicate Live(ownership: BatchOwnership, sides: Sides, u: nat)
    requires u < |ownership.units|
  {
    ownership.units[u].presence.Some?
    && exists line: nat :: Contains(ownership.units[u].presence.value, line) && LiveLine(sides.toWorking, sides.preserved, line)
  }

  /** The unit takes its complete origin: as many new and old lines as the region it was cut from. */
  predicate CoversOrigin(origin: Origin, presenceCount: int, deletionCount: int) {
    && 1 <= origin.oldStart <= origin.oldEnd && 1 <= origin.newStart <= origin.newEnd
    && presenceCount == origin.newEnd - origin.newStart + 1
    && deletionCount == origin.oldEnd - origin.oldStart + 1
  }

  /** The unit names one complete replacement whose new lines all replaced index text. */
  predicate Exact(ownership: BatchOwnership, sides: Sides, u: nat)
    requires u < |ownership.units|
  {
    var unit := ownership.units[u];
    var ranges := CollectedRanges(unit);
    && sides.preimage != [] && ranges.Some? && |ranges.value| == 1
    && unit.origin.Some? && |unit.deletionIndices| == 1 && SupersededDeletions.Valid(ownership, unit.deletionIndices[0])
    && CoversOrigin(unit.origin.value, ranges.value[0].last - ranges.value[0].first + 1,
         |ownership.deletions[unit.deletionIndices[0]].content|)
    && AllWithin(sides.preimage, ranges.value[0])
  }

  /** The index text that an exact unit replaced. */
  function ExactBounds(ownership: BatchOwnership, sides: Sides, u: nat): Option<(nat, nat)>
    requires ownership.Valid() && u < |ownership.units| && Exact(ownership, sides, u)
  {
    CollectedRangesAre(ownership, u);
    var span := CollectedRanges(ownership.units[u]).value[0];
    var claim := ownership.deletions[ownership.units[u].deletionIndices[0]];
    if sides.trusted.None? || claim.reference != ownership.units[u].origin.value.reference then None
    else if span.first <= 1 || span.last >= |sides.source| || !AllWithin(sides.anchored, span) then None
    else
      var around := Enclosing(sides, span.first, span.last + 1);
      if around.None? || around.value.2 <= around.value.1 then None
      else if !(forall line :: span.first <= line <= span.last ==> StandsVerbatim(sides, span.first, around.value.0, line)) then None
      else Some((around.value.1, around.value.2 - 1))
  }

  /** A live unit with one range that reaches past the source. */
  ghost predicate Overruns(ownership: BatchOwnership, sides: Sides, u: nat)
    requires u < |ownership.units|
  {
    var ranges := CollectedRanges(ownership.units[u]);
    Live(ownership, sides, u) && ranges.Some? && |ranges.value| == 1 && ranges.value[0].last > |sides.source|
  }

  /** Undo cannot go on at this unit. */
  ghost predicate Fails(ownership: BatchOwnership, sides: Sides, u: nat)
    requires ownership.Valid() && u < |ownership.units|
  {
    Overruns(ownership, sides, u) || (Exact(ownership, sides, u) && ExactBounds(ownership, sides, u).None?)
  }

  /** Between which retained lines a live unit's old text belongs: only one range has such neighbours. */
  ghost predicate BetweenNeighbors(ownership: BatchOwnership, sides: Sides, u: nat, before: nat, after: nat)
    requires u < |ownership.units|
  {
    var ranges := CollectedRanges(ownership.units[u]);
    if ranges.Some? && |ranges.value| == 1 then
      var span := ranges.value[0];
      span.first > 0 && span.last > 0
      && NearestBefore(ownership, sides, span.first, before) && NearestAfter(ownership, sides, span.last, after)
    else before == 0 && after == 0
  }

  // ------------------------------------------------------- claims on deletions

  /** Why a unit says something about a deletion that it names. */
  datatype Claim = WithGroup | ByPreimage | ByLiveText | ByMention

  ghost predicate Claims(ownership: BatchOwnership, sides: Sides, claim: Claim, u: nat, d: nat)
    requires u < |ownership.units|
  {
    && Names(ownership, u, d)
    && match claim
       case WithGroup => Grouped(ownership, sides, u)
       case ByPreimage => !Grouped(ownership, sides, u) && Exact(ownership, sides, u)
       case ByLiveText => !Grouped(ownership, sides, u) && Live(ownership, sides, u)
       case ByMention => !Grouped(ownership, sides, u)
  }

  /** The last of the first units with such a claim on the deletion. */
  ghost function LastClaim(ownership: BatchOwnership, sides: Sides, claim: Claim, upto: nat, d: nat): (last: Option<nat>)
    requires upto <= |ownership.units|
    ensures last.Some? ==> last.value < upto && Claims(ownership, sides, claim, last.value, d)
    ensures forall u :: (if last.Some? then last.value + 1 else 0) <= u < upto ==> !Claims(ownership, sides, claim, u, d)
  {
    if upto == 0 then None
    else if Claims(ownership, sides, claim, upto - 1, d) then Some(upto - 1)
    else LastClaim(ownership, sides, claim, upto - 1, d)
  }

  lemma {:induction false} NoClaimBetween(ownership: BatchOwnership, sides: Sides, claim: Claim, from: nat, upto: nat, d: nat)
    requires from <= upto <= |ownership.units|
    requires forall u :: from <= u < upto ==> !Claims(ownership, sides, claim, u, d)
    ensures LastClaim(ownership, sides, claim, upto, d) == LastClaim(ownership, sides, claim, from, d)
  {
    hide Claims;
    if from < upto {
      NoClaimBetween(ownership, sides, claim, from, upto - 1, d);
    }
  }

  /** The record is the unit's share of the index slice of its group. */
  ghost predicate GivesShare(ownership: BatchOwnership, sides: Sides, start: nat, end: nat, u: nat, record: RestoreRecord)
    requires ownership.Valid()
  {
    && start <= u < end && AuthorizedGroup(ownership, sides, start, end) && GroupBounds(ownership, sides, start, end).Some?
    && var members := MembersUpTo(ownership, sides, start, end).value;
      u - start < |members| && record == ShareOf(members, u - start, GroupBounds(ownership, sides, start, end).value.0)
  }

  ghost predicate IsShare(ownership: BatchOwnership, sides: Sides, u: nat, record: RestoreRecord)
    requires ownership.Valid()
  {
    exists start: nat, end: nat :: GivesShare(ownership, sides, start, end, u, record)
  }

  /** The record is the index slice between the neighbours of an exact unit. */
  ghost predicate IsPreimage(ownership: BatchOwnership, sides: Sides, u: nat, record: RestoreRecord)
    requires ownership.Valid() && u < |ownership.units|
  {
    && Exact(ownership, sides, u) && ExactBounds(ownership, sides, u).Some?
    && record == RestoreRecord(3, ExactBounds(ownership, sides, u).value.0, ExactBounds(ownership, sides, u).value.1)
  }

  /**
   What the first units make of a deletion: the index text of the last exact unit, else of the last
   group, else the old text between the neighbours of the last live unit unless a stored version
   supersedes it, else nothing for a deletion that is only mentioned.
   */
  ghost predicate IsUnitRecord(ownership: BatchOwnership, sides: Sides, upto: nat, d: nat, record: RestoreRecord)
    requires ownership.Valid() && upto <= |ownership.units| && d < |ownership.deletions|
  {
    var preimage := LastClaim(ownership, sides, ByPreimage, upto, d);
    var group := LastClaim(ownership, sides, WithGroup, |ownership.units|, d);
    var live := LastClaim(ownership, sides, ByLiveText, upto, d);
    if preimage.Some? then IsPreimage(ownership, sides, preimage.value, record)
    else if group.Some? then IsShare(ownership, sides, group.value, record)
    else if live.Some? then
      && record.flag == (if Superseded(ownership, d) then 1 else 2)
      && BetweenNeighbors(ownership, sides, live.value, record.first, record.last)
    else record == RestoreRecord(if LastClaim(ownership, sides, ByMention, upto, d).Some? then 1 else 0, 0, 0)
  }

  /** Some unit names the deletion. */
  ghost predicate Named(ownership: BatchOwnership, d: nat) {
    exists u :: 0 <= u < |ownership.units| && Names(ownership, u, d)
  }

  /** A deletion that no unit names, right before an owned line: old metadata did not couple the two. */
  ghost predicate Uncoupled(ownership: BatchOwnership, d: nat)
    requires d < |ownership.deletions|
  {
    !Named(ownership, d) && ownership.deletions[d].content != [] && Contains(ownership.presence, ownership.deletions[d].anchor + 1)
  }

  /** The owned lines right after the deletion are still live in the worktree. */
  ghost predicate LegacyLive(ownership: BatchOwnership, sides: Sides, d: nat)
    requires d < |ownership.deletions|
  {
    exists r :: 0 <= r < |ownership.presence| && LiveBehind(ownership, sides, d, r)
  }

  ghost predicate LiveBehind(ownership: BatchOwnership, sides: Sides, d: nat, r: nat)
    requires d < |ownership.deletions| && r < |ownership.presence|
  {
    && Precedes(ownership, d, r)
    && LiveSuffix(sides.toWorking, sides.preserved, ownership.deletions[d].anchor + 1, ownership.presence[r].last)
  }

  /** What becomes of one deletion: its units decide; old metadata couples it with the owned lines after it. */
  ghost predicate FinalRecord(ownership: BatchOwnership, sides: Sides, d: nat, record: RestoreRecord)
    requires ownership.Valid() && d < |ownership.deletions|
  {
    if Uncoupled(ownership, d) then record == RestoreRecord(if LegacyLive(ownership, sides, d) then 2 else 1, 0, 0)
    else IsUnitRecord(ownership, sides, |ownership.units|, d, record)
  }

  ghost predicate FinalRecords(ownership: BatchOwnership, sides: Sides, records: seq<RestoreRecord>)
    requires ownership.Valid()
  {
    && |records| == |ownership.deletions|
    && forall d :: 0 <= d < |records| ==> FinalRecord(ownership, sides, d, records[d])
  }

  /** Undo cannot restore some group or some single unit. */
  ghost predicate CannotRestore(ownership: BatchOwnership, sides: Sides)
    requires ownership.Valid()
  {
    || (exists start: nat, end: nat :: LostGroup(ownership, sides, start, end))
    || exists u :: 0 <= u < |ownership.units| && !Grouped(ownership, sides, u) && Fails(ownership, sides, u)
  }

  // ------------------------------------------------------ lines restored apart

  ghost predicate InUnit(ownership: BatchOwnership, u: nat, line: int)
    requires u < |ownership.units|
  {
    ownership.units[u].presence.Some? && Contains(ownership.units[u].presence.value, line)
  }

  /** A line of one of the first units, restored with its group. */
  ghost predicate ApartWithGroup(ownership: BatchOwnership, sides: Sides, upto: nat, line: int)
    requires upto <= |ownership.units|
  {
    exists u :: 0 <= u < upto && Grouped(ownership, sides, u) && InUnit(ownership, u, line)
  }

  /** The deletion's text comes back by the time a live unit that names it has been recorded. */
  ghost predicate ComesBack(ownership: BatchOwnership, sides: Sides, u: nat, d: nat)
    requires u < |ownership.units| && d < |ownership.deletions|
  {
    || LastClaim(ownership, sides, ByPreimage, u + 1, d).Some?
    || LastClaim(ownership, sides, WithGroup, |ownership.units|, d).Some?
    || !Superseded(ownership, d)
  }

  /** A live unit outside any group with old text to put back. */
  ghost predicate RestoresAlone(ownership: BatchOwnership, sides: Sides, u: nat)
    requires u < |ownership.units|
  {
    && !Grouped(ownership, sides, u) && Live(ownership, sides, u)
    && exists d :: 0 <= d < |ownership.deletions| && Names(ownership, u, d) && ComesBack(ownership, sides, u, d)
  }

  ghost predicate ApartAlone(ownership: BatchOwnership, sides: Sides, upto: nat, line: int)
    requires upto <= |ownership.units|
  {
    exists u :: 0 <= u < upto && RestoresAlone(ownership, sides, u) && InUnit(ownership, u, line)
  }

  /** A line behind an uncoupled deletion, up to the end of its live presence range. */
  ghost predicate BehindUncoupled(ownership: BatchOwnership, sides: Sides, d: nat, r: nat, line: int)
    requires d < |ownership.deletions| && r < |ownership.presence|
  {
    && Uncoupled(ownership, d) && LiveBehind(ownership, sides, d, r)
    && ownership.deletions[d].anchor + 1 <= line <= ownership.presence[r].last
  }

  ghost predicate ApartByLegacy(ownership: BatchOwnership, sides: Sides, line: int) {
    exists d, r :: 0 <= d < |ownership.deletions| && 0 <= r < |ownership.presence| && BehindUncoupled(ownership, sides, d, r, line)
  }

  /** The lines whose old text comes back through a restore record and not through their region. */
  ghost predicate RestoredApart(ownership: BatchOwnership, sides: Sides, line: int) {
    || ApartWithGroup(ownership, sides, |ownership.units|, line)
    || ApartAlone(ownership, sides, |ownership.units|, line)
    || ApartByLegacy(ownership, sides, line)
  }

  // -------------------------------------------------------------- consequences

  /** A record that restores index text takes a slice of it. */
  ghost predicate Fits(sides: Sides, record: RestoreRecord) {
    record.flag == 3 ==> sides.trusted.Some? && record.first <= record.last <= |sides.trusted.value.lines|
  }

  lemma ExactBoundsFit(ownership: BatchOwnership, sides: Sides, u: nat)
    requires ownership.Valid() && sides.Valid() && u < |ownership.units| && Exact(ownership, sides, u)
    requires ExactBounds(ownership, sides, u).Some?
    ensures Fits(sides, RestoreRecord(3, ExactBounds(ownership, sides, u).value.0, ExactBounds(ownership, sides, u).value.1))
  {
    CollectedRangesAre(ownership, u);
  }

  lemma {:induction false} ShareFits(members: seq<Member>, i: nat, low: nat)
    requires i < |members|
    ensures low + OldCount(members, i) <= low + OldCount(members, i + 1) <= low + OldCount(members, |members|)
  {
    OldCountGrows(members, i, i + 1);
    OldCountGrows(members, i + 1, |members|);
  }

  lemma GivenShareFits(ownership: BatchOwnership, sides: Sides, start: nat, end: nat, u: nat, record: RestoreRecord)
    requires ownership.Valid() && sides.Valid() && GivesShare(ownership, sides, start, end, u, record)
    ensures record.flag == 3 && Fits(sides, record)
  {
    var members, low := MembersUpTo(ownership, sides, start, end).value, GroupBounds(ownership, sides, start, end).value.0;
    hide IsGroup, MembersUpTo, GroupBounds, OldCount, Authorized;
    assert end <= |ownership.units| && sides.trusted.Some? by {
      AuthorizedHasText(ownership, sides, start, end);
    }
    SliceHasRoom(ownership, sides, start, end);
    ShareFits(members, u - start, low);
  }

  lemma AuthorizedHasText(ownership: BatchOwnership, sides: Sides, start: nat, end: nat)
    requires AuthorizedGroup(ownership, sides, start, end)
    ensures end <= |ownership.units| && sides.trusted.Some?
  {
  }

  lemma ShareFitsText(ownership: BatchOwnership, sides: Sides, u: nat, record: RestoreRecord)
    requires ownership.Valid() && sides.Valid() && IsShare(ownership, sides, u, record)
    ensures record.flag == 3 && Fits(sides, record)
  {
    hide GivesShare, Fits;
    var start: nat, end: nat :| GivesShare(ownership, sides, start, end, u, record);
    GivenShareFits(ownership, sides, start, end, u, record);
  }

  /** What the flag of a record tells, and that a recorded index slice lies inside the index text. */
  lemma UnitRecordTells(ownership: BatchOwnership, sides: Sides, upto: nat, d: nat, record: RestoreRecord)
    requires ownership.Valid() && sides.Valid() && upto <= |ownership.units| && d < |ownership.deletions|
    requires IsUnitRecord(ownership, sides, upto, d, record)
    ensures Fits(sides, record)
    ensures record.flag == 3 <==>
      LastClaim(ownership, sides, ByPreimage, upto, d).Some? || LastClaim(ownership, sides, WithGroup, |ownership.units|, d).Some?
    ensures record.flag == 2 || record.flag == 1 || record.flag == 0 || record.flag == 3
    ensures record.flag != 3 && LastClaim(ownership, sides, ByLiveText, upto, d).Some? ==>
      record.flag == if Superseded(ownership, d) then 1 else 2
    ensures record.flag == 2 ==> LastClaim(ownership, sides, ByLiveText, upto, d).Some?
  {
    hide Superseded, BetweenNeighbors, IsShare, Exact, ExactBounds, LastClaim, Fits;
    var preimage := LastClaim(ownership, sides, ByPreimage, upto, d);
    var group := LastClaim(ownership, sides, WithGroup, |ownership.units|, d);
    if preimage.Some? {
      ExactBoundsFit(ownership, sides, preimage.value);
    } else if group.Some? {
      ShareFitsText(ownership, sides, group.value, record);
    } else {
      OnlyIndexTextFits(sides, record);
    }
  }

  lemma OnlyIndexTextFits(sides: Sides, record: RestoreRecord)
    ensures record.flag != 3 ==> Fits(sides, record)
  {
  }

  lemma ClaimNames(ownership: BatchOwnership, sides: Sides, claim: Claim, d: nat)
    ensures LastClaim(ownership, sides, claim, |ownership.units|, d).Some? ==> Named(ownership, d)
    ensures Named(ownership, d) ==>
      || LastClaim(ownership, sides, WithGroup, |ownership.units|, d).Some?
      || LastClaim(ownership, sides, ByMention, |ownership.units|, d).Some?
  {
    hide Grouped, Exact, Live, Names, LastClaim;
    if Named(ownership, d) {
      var u :| 0 <= u < |ownership.units| && Names(ownership, u, d);
      assert Claims(ownership, sides, if Grouped(ownership, sides, u) then WithGroup else ByMention, u, d);
    }
  }

  /** Exactly the deletions that no unit names are left undecided by the units. */
  lemma UndecidedAreUnnamed(ownership: BatchOwnership, sides: Sides, d: nat, record: RestoreRecord)
    requires ownership.Valid() && sides.Valid() && d < |ownership.deletions|
    requires IsUnitRecord(ownership, sides, |ownership.units|, d, record)
    ensures record.flag == 0 <==> !Named(ownership, d)
  {
    UnitRecordTells(ownership, sides, |ownership.units|, d, record);
    hide Superseded, Named, BetweenNeighbors, IsShare, IsPreimage, Fits, LastClaim;
    ClaimNames(ownership, sides, ByPreimage, d);
    ClaimNames(ownership, sides, WithGroup, d);
    ClaimNames(ownership, sides, ByLiveText, d);
    ClaimNames(ownership, sides, ByMention, d);
  }

  /** The recorded index slices stay inside the index text, so restoration may take them. */
  lemma RecordsFit(ownership: BatchOwnership, sides: Sides, records: seq<RestoreRecord>)
    requires ownership.Valid() && sides.Valid() && FinalRecords(ownership, sides, records)
    ensures Restoration(ownership.deletions, Some(records),
              if sides.trusted.Some? then Some(sides.trusted.value.lines) else None).Valid()
    ensures forall d :: 0 <= d < |records| && records[d].flag == 3 ==> sides.trusted.Some?
  {
    hide IsUnitRecord, Uncoupled, LegacyLive;
    forall d | 0 <= d < |records| ensures Fits(sides, records[d]) {
      assert FinalRecord(ownership, sides, d, records[d]);
      if !Uncoupled(ownership, d) {
        UnitRecordTells(ownership, sides, |ownership.units|, d, records[d]);
      }
    }
  }

  /** Two groups around one unit are the same group. */
  lemma GroupIsUnique(ownership: BatchOwnership, start: nat, end: nat, a: nat, b: nat, u: nat)
    requires IsGroup(ownership, start, end) && IsGroup(ownership, a, b) && start <= u < end && a <= u < b
    ensures start == a && end == b
  {
    assert ownership.units[u].origin == ownership.units[start].origin == ownership.units[a].origin;
  }

  /** So a unit's share is one definite slice. */
  lemma ShareIsUnique(ownership: BatchOwnership, sides: Sides, u: nat, a: RestoreRecord, b: RestoreRecord)
    requires ownership.Valid() && IsShare(ownership, sides, u, a) && IsShare(ownership, sides, u, b)
    ensures a == b
  {
    hide IsGroup, Authorized, GroupBounds, MembersUpTo, ShareOf;
    var start: nat, end: nat :| GivesShare(ownership, sides, start, end, u, a);
    var first: nat, last: nat :| GivesShare(ownership, sides, first, last, u, b);
    GroupIsUnique(ownership, start, end, first, last, u);
  }

  lemma NeighborsAreUnique(ownership: BatchOwnership, sides: Sides, u: nat, a: nat, b: nat, c: nat, e: nat)
    requires u < |ownership.units| && BetweenNeighbors(ownership, sides, u, a, b) && BetweenNeighbors(ownership, sides, u, c, e)
    ensures a == c && b == e
  {
  }

  /** The records are fixed: nothing is left to the order of the program's steps. */
  lemma FinalRecordsAreUnique(ownership: BatchOwnership, sides: Sides, a: seq<RestoreRecord>, b: seq<RestoreRecord>)
    requires ownership.Valid() && FinalRecords(ownership, sides, a) && FinalRecords(ownership, sides, b)
    ensures a == b
  {
    hide Superseded, BetweenNeighbors, IsShare, IsPreimage, Uncoupled, LegacyLive, LastClaim, Exact, ExactBounds;
    forall d | 0 <= d < |a| ensures a[d] == b[d] {
      assert FinalRecord(ownership, sides, d, a[d]) && FinalRecord(ownership, sides, d, b[d]);
      RecordIsUnique(ownership, sides, d, a[d], b[d]);
    }
  }

  lemma RecordIsUnique(ownership: BatchOwnership, sides: Sides, d: nat, a: RestoreRecord, b: RestoreRecord)
    requires ownership.Valid() && d < |ownership.deletions|
    requires FinalRecord(ownership, sides, d, a) && FinalRecord(ownership, sides, d, b)
    ensures a == b
  {
    hide Superseded, BetweenNeighbors, IsShare, Uncoupled, LegacyLive, LastClaim, Exact, ExactBounds;
    var preimage := LastClaim(ownership, sides, ByPreimage, |ownership.units|, d);
    var group := LastClaim(ownership, sides, WithGroup, |ownership.units|, d);
    var live := LastClaim(ownership, sides, ByLiveText, |ownership.units|, d);
    if !Uncoupled(ownership, d) && preimage.None? {
      if group.Some? {
        ShareIsUnique(ownership, sides, group.value, a, b);
      } else if live.Some? {
        NeighborsAreUnique(ownership, sides, live.value, a.first, a.last, b.first, b.last);
      }
    }
  }
}
