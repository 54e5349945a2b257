/**
 Undo that brings index text back (batch/discard.py:1015-1251, 1336-1385): which index lines a group or a
 complete replacement stands for, and what the worktree holds after its undo.
 */
module DiscardIndexText {
  import opened Wrappers
  import opened LineRanges
  import opened Realized
  import opened LineMatching
  import opened BaselineCorrespondence
  import opened DiscardReversal
  import opened DiscardReversalMeaning
  import opened Ownership
  import opened DiscardRestoration
  import opened DiscardRestorationMeaning
  import opened ReplacementGroups
  import opened SupersededDeletions
  import opened ReplacementClaims
  import opened Discard
  import opened DiscardInWorktree

  // ---------------------------------------------------- where the slice lies

  /**
   The source neighbours of the lines first..last stand in the worktree with room for just those lines
   between them, and the same two worktree lines stand in the index, right around the lines low..high.
   */
  ghost predicate Encloses(sides: Sides, first: int, last: int, before: nat, low: nat, high: nat) {
    && sides.trusted.Some? && 1 < first <= last
    && sides.toWorking.Target(first - 1) == Some(before)
    && sides.toWorking.Target(last + 1) == Some(before + (last - first + 1) + 1)
    && sides.trusted.value.fromSource.Target(first - 1) == Some(low)
    && sides.trusted.value.fromSource.Target(last + 1) == Some(high + 1)
    && sides.trusted.value.toWorking.Target(low) == Some(before)
    && sides.trusted.value.toWorking.Target(high + 1) == Some(before + (last - first + 1) + 1)
  }

  /** A source line stands verbatim where it would stand if the lines from `first` on followed a worktree line. */
  ghost predicate StandsBehind(sides: Sides, first: int, before: nat, line: nat) {
    && 1 <= line <= |sides.source| && 0 <= before + line - first < |sides.working|
    && line in sides.toWorking.toTarget && sides.toWorking.toTarget[line] == before + 1 + line - first
    && sides.source[line - 1] == sides.working[before + line - first]
  }

  /** The lines first..last stand one after another, and verbatim, behind a worktree line. */
  ghost predicate StandVerbatim(sides: Sides, first: int, last: int, before: nat) {
    forall line: nat :: first <= line <= last ==> StandsBehind(sides, first, before, line)
  }

  lemma EnclosingIs(sides: Sides, first: int, last: int, before: nat, low: nat, high: nat)
    requires sides.Valid() && sides.trusted.Some? && 1 < first <= last
    ensures Enclosing(sides, first, last + 1) == Some((before, low, high + 1)) <==> Encloses(sides, first, last, before, low, high)
    ensures Enclosing(sides, first, last + 1).Some? ==> Enclosing(sides, first, last + 1).value.2 > 0
  {
    hide Normalized;
  }

  lemma VerbatimLineIs(sides: Sides, first: int, before: nat, line: nat)
    ensures StandsBehind(sides, first, before, line) <==> StandsVerbatim(sides, first, before, line)
  {
  }

  lemma VerbatimIs(sides: Sides, first: int, last: int, before: nat)
    requires 1 < first <= last
    ensures StandVerbatim(sides, first, last, before) <==>
      forall line :: first <= line <= last ==> StandsVerbatim(sides, first, before, line)
  {
    hide StandsBehind, StandsVerbatim;
    forall line: nat | first <= line <= last
      ensures StandsBehind(sides, first, before, line) <==> StandsVerbatim(sides, first, before, line)
    {
      VerbatimLineIs(sides, first, before, line);
    }
    if StandVerbatim(sides, first, last, before) {
      forall line | first <= line <= last ensures StandsVerbatim(sides, first, before, line) {
        var x: nat := line;
        assert StandsBehind(sides, first, before, x);
      }
    }
  }

  /** The source lines that a group replaces. */
  ghost predicate Replaces(ownership: BatchOwnership, sides: Sides, start: nat, end: nat, first: int, last: int) {
    && start < end <= |ownership.units| && MembersUpTo(ownership, sides, start, end).Some?
    && var members := MembersUpTo(ownership, sides, start, end).value;
      members != [] && first == members[0].span.first && last == members[|members| - 1].span.last
  }

  lemma SliceIs(sides: Sides, first: int, last: int, oldCount: nat, low: nat, high: nat)
    requires sides.Valid() && sides.trusted.Some? && 1 < first <= last
    ensures SliceBetween(sides, first, last + 1, oldCount) == Some((low, high)) <==>
      && (exists before: nat :: Encloses(sides, first, last, before, low, high) && StandVerbatim(sides, first, last, before))
      && (forall line: nat :: first <= line <= last ==> line !in sides.trusted.value.fromSource.toTarget)
      && low + oldCount == high
  {
    hide Encloses, Enclosing, StandsVerbatim, StandVerbatim;
    var around := Enclosing(sides, first, last + 1);
    if around.Some? {
      VerbatimIs(sides, first, last, around.value.0);
      EnclosingIs(sides, first, last, around.value.0, around.value.1, if around.value.2 > 0 then around.value.2 - 1 else 0);
    }
    forall before: nat | Encloses(sides, first, last, before, low, high) ensures around == Some((before, low, high + 1)) {
      EnclosingIs(sides, first, last, before, low, high);
    }
    LiveIs(sides, first, last, if around.Some? then around.value.0 else 0);
  }

  lemma LiveIs(sides: Sides, first: int, last: int, before: nat)
    requires sides.trusted.Some? && 1 < first <= last
    ensures StandsLive(sides, first, last + 1, before) <==>
      && (forall line :: first <= line <= last ==> StandsVerbatim(sides, first, before, line))
      && forall line: nat :: first <= line <= last ==> line !in sides.trusted.value.fromSource.toTarget
  {
    hide StandsVerbatim;
    if StandsLive(sides, first, last + 1, before) {
      forall line: nat | first <= line <= last ensures line !in sides.trusted.value.fromSource.toTarget {
        assert sides.trusted.value.fromSource.Target(line) == None;
      }
    }
  }

  /**
   A group is located at low..high exactly when its lines stand alone and verbatim in the worktree, none of
   them in the index, and the index holds as many lines as the group's old texts have, just those between
   the index images of the group's two source neighbours.
   */
  lemma GroupSliceLies(ownership: BatchOwnership, sides: Sides, start: nat, end: nat, first: int, last: int, low: nat, high: nat)
    requires start < end <= |ownership.units| && ownership.Valid() && sides.Valid() && Authorized(ownership, sides, start, end)
    requires Replaces(ownership, sides, start, end, first, last)
    ensures |MembersUpTo(ownership, sides, start, end).value| == end - start
    ensures GroupBounds(ownership, sides, start, end) == Some((low, high)) <==>
      && (exists before: nat :: Encloses(sides, first, last, before, low, high) && StandVerbatim(sides, first, last, before))
      && (forall line: nat :: first <= line <= last ==> line !in sides.trusted.value.fromSource.toTarget)
      && low + OldCount(MembersUpTo(ownership, sides, start, end).value, end - start) == high
  {
    hide MembersUpTo, MemberOf, Encloses, StandVerbatim, SliceBetween;
    MembersAre(ownership, sides, start, end);
    var members := MembersUpTo(ownership, sides, start, end).value;
    SliceIs(sides, first, last, OldCount(members, |members|), low, high);
  }

  /** A complete replacement stands for the index lines between the index images of its two source neighbours. */
  lemma ExactSliceLies(ownership: BatchOwnership, sides: Sides, u: nat, low: nat, high: nat)
    requires ownership.Valid() && sides.Valid() && sides.trusted.Some? && u < |ownership.units| && Exact(ownership, sides, u)
    ensures var unit := ownership.units[u];
      var span := CollectedRanges(unit).value[0];
      ExactBounds(ownership, sides, u) == Some((low, high)) <==>
      && ownership.deletions[unit.deletionIndices[0]].reference == unit.origin.value.reference
      && (forall line :: span.first <= line <= span.last ==> Contains(sides.anchored, line))
      && low <= high && span.last < |sides.source|
      && exists before: nat :: Encloses(sides, span.first, span.last, before, low, high) && StandVerbatim(sides, span.first, span.last, before)
  {
    hide NormalForm, Encloses, Enclosing, StandsVerbatim, StandVerbatim, CoversOrigin, Contains;
    CollectedRangesAre(ownership, u);
    var span := CollectedRanges(ownership.units[u]).value[0];
    if span.first > 1 {
      var around := Enclosing(sides, span.first, span.last + 1);
      if around.Some? {
        VerbatimIs(sides, span.first, span.last, around.value.0);
        EnclosingIs(sides, span.first, span.last, around.value.0, around.value.1, if around.value.2 > 0 then around.value.2 - 1 else 0);
      }
      forall before: nat | Encloses(sides, span.first, span.last, before, low, high) ensures around == Some((before, low, high + 1)) {
        EnclosingIs(sides, span.first, span.last, before, low, high);
      }
    } else {
      forall before: nat ensures !Encloses(sides, span.first, span.last, before, low, high) {
        NotFromOne(sides, span.first, span.last, before, low, high);
      }
    }
  }

  lemma NotFromOne(sides: Sides, first: int, last: int, before: nat, low: nat, high: nat)
    ensures Encloses(sides, first, last, before, low, high) ==> first > 1
  {
  }

  // ------------------------------------------------------------ the undone text

  /** Every old text is recorded as index lines, the consecutive shares of low..high, behind one and the same line. */
  ghost predicate SharesSlice(ownership: BatchOwnership, setting: Setting, records: seq<RestoreRecord>, anchor: nat, low: nat, high: nat) {
    && |records| == |ownership.deletions| && records != [] && setting.sides.trusted.Some?
    && (forall k :: 0 <= k < |records| ==>
          records[k].flag == 3 && records[k].first <= records[k].last <= high && ownership.deletions[k].anchor == anchor)
    && (forall k :: 0 < k < |records| ==> records[k].first == records[k - 1].last)
    && records[0].first == low && records[|records| - 1].last == high && high <= |setting.sides.trusted.value.lines|
  }

  lemma {:induction false} SharesJoin(ownership: BatchOwnership, setting: Setting, records: seq<RestoreRecord>, anchor: nat,
                                      low: nat, high: nat, count: nat)
    requires SharesSlice(ownership, setting, records, anchor, low, high) && WorkOf(ownership, setting, records).Valid()
    requires 0 < count <= |records|
    ensures low <= records[count - 1].last
    ensures JoinedClaims(WorkOf(ownership, setting, records), count) == setting.sides.trusted.value.lines[low..records[count - 1].last]
  {
    var work, lines := WorkOf(ownership, setting, records), setting.sides.trusted.value.lines;
    var record := records[count - 1];
    ShareText(ownership, setting, records, anchor, low, high, count - 1);
    assert count > 1 ==> record.first == records[count - 2].last;
    assert count == 1 ==> record.first == low;
    if count > 1 {
      SharesJoin(ownership, setting, records, anchor, low, high, count - 1);
      hide SharesSlice, TextOf, WorkOf;
      assert lines[low..record.first] + lines[record.first..record.last] == lines[low..record.last];
    } else {
      hide SharesSlice, TextOf, WorkOf;
      assert JoinedClaims(work, 0) == [];
      assert [] + lines[low..record.last] == lines[low..record.last];
    }
  }

  lemma ShareText(ownership: BatchOwnership, setting: Setting, records: seq<RestoreRecord>, anchor: nat, low: nat, high: nat, k: nat)
    requires SharesSlice(ownership, setting, records, anchor, low, high) && WorkOf(ownership, setting, records).Valid() && k < |records|
    ensures records[k].first <= records[k].last <= |setting.sides.trusted.value.lines|
    ensures TextOf(WorkOf(ownership, setting, records), k) == setting.sides.trusted.value.lines[records[k].first..records[k].last]
  {
  }

  /** Text with the stretch at..at + drop replaced. */
  function Replaced(lines: seq<Line>, at: nat, drop: nat, text: seq<Line>): seq<Line>
    requires at + drop <= |lines|
  {
    lines[..at] + text + lines[at + drop..]
  }

  /** What the shares already find of themselves behind a place in the text. */
  function FoundAt(ownership: BatchOwnership, setting: Setting, records: seq<RestoreRecord>, lines: seq<Line>, at: nat): seq<Line>
    requires WorkOf(ownership, setting, records).Valid()
  {
    FoundUpTo(lines, at, WorkOf(ownership, setting, records), |ownership.deletions|)
  }

  /**
   When all old texts share one slice of the index, undo puts exactly that slice behind their anchor, in
   place of those shares that stand there already.
   */
  lemma SliceComesBack(ownership: BatchOwnership, setting: Setting, records: seq<RestoreRecord>, spans: seq<Span>,
                       anchor: nat, low: nat, high: nat)
    requires Matched(ownership, setting) && RestorePlan(ownership, setting.sides, records, spans)
    requires forall t :: 1 <= t <= |setting.sides.working| ==> !BlockedAt(ownership, setting, spans, t)
    requires SharesSlice(ownership, setting, records, anchor, low, high)
    requires anchor != 0 && StandsAt(ownership, setting, anchor).Some?
    ensures WorkOf(ownership, setting, records).Valid() && low <= high <= |setting.sides.trusted.value.lines|
    ensures var lines := Contents(ReversedTo(ownership, setting, spans, |setting.sides.working|));
      var at := |ReversedTo(ownership, setting, spans, StandsAt(ownership, setting, anchor).value)|;
      var found := FoundAt(ownership, setting, records, lines, at);
      && PresentAt(lines, at, found)
      && Undone(ownership, setting, records, spans) == Ok(Replaced(lines, at, |found|, setting.sides.trusted.value.lines[low..high]))
  {
    PlanSettles(ownership, setting, records, spans);
    SharesShareAnchor(ownership, setting, records, spans, anchor, low, high);
    var reversed := ReversedTo(ownership, setting, spans, |setting.sides.working|);
    var at := |ReversedTo(ownership, setting, spans, StandsAt(ownership, setting, anchor).value)|;
    hide StandsAt, ReversedTo, BlockedAt, Matched, RestorePlan, SharesSlice, SharedAnchor, Undone, Restore, ReversalResult, Contents;
    hide Replaced, FoundUpTo, FoundAt, PresentAt, WorkOf, RequestOf;
    ReversalInWorktree(ownership, setting, spans);
    UndoneIs(ownership, setting, records, spans);
    RestoredSlice(ownership, setting, records, reversed, anchor, at, low, high);
  }

  lemma RestoredSlice(ownership: BatchOwnership, setting: Setting, records: seq<RestoreRecord>, reversed: seq<Entry>,
                      anchor: nat, at: nat, low: nat, high: nat)
    requires SharesSlice(ownership, setting, records, anchor, low, high) && WorkOf(ownership, setting, records).Valid()
    requires SharedAnchor(reversed, WorkOf(ownership, setting, records), anchor, at)
    ensures low <= high <= |setting.sides.trusted.value.lines|
    ensures var lines, restored := Contents(reversed), Restore(reversed, WorkOf(ownership, setting, records));
      var found := FoundAt(ownership, setting, records, lines, at);
      && PresentAt(lines, at, found) && restored.Ok?
      && Contents(restored.value) == Replaced(lines, at, |found|, setting.sides.trusted.value.lines[low..high])
  {
    SharesJoin(ownership, setting, records, anchor, low, high, |records|);
    SliceEnds(ownership, setting, records, anchor, low, high);
    hide SharesSlice, SharedAnchor, Restore, JoinedClaims, FoundUpTo, Contents;
    SharedAnchorRestores(reversed, WorkOf(ownership, setting, records), anchor, at);
  }

  lemma SliceEnds(ownership: BatchOwnership, setting: Setting, records: seq<RestoreRecord>, anchor: nat, low: nat, high: nat)
    requires SharesSlice(ownership, setting, records, anchor, low, high)
    ensures |records| > 0 && records[|records| - 1].last == high && |records| == |ownership.deletions| && setting.sides.trusted.Some?
    ensures WorkOf(ownership, setting, records).claims == ownership.deletions
  {
  }

  lemma SharesShareAnchor(ownership: BatchOwnership, setting: Setting, records: seq<RestoreRecord>, spans: seq<Span>,
                          anchor: nat, low: nat, high: nat)
    requires Matched(ownership, setting) && SharesSlice(ownership, setting, records, anchor, low, high)
    requires anchor != 0 && StandsAt(ownership, setting, anchor).Some? && WorkOf(ownership, setting, records).Valid()
    ensures var reversed := ReversedTo(ownership, setting, spans, |setting.sides.working|);
      SharedAnchor(reversed, WorkOf(ownership, setting, records), anchor,
        |ReversedTo(ownership, setting, spans, StandsAt(ownership, setting, anchor).value)|)
  {
    LineIsFound(ownership, setting, spans, anchor);
    hide StandsAt, ReversedTo, Matched, UniqueAnchor;
  }

  // ------------------------------------------------------------------- a group

  /** A batch that is one located group: each unit couples the deleted version of its own index with its lines. */
  ghost predicate LoneGroup(ownership: BatchOwnership, setting: Setting, first: int, last: int, low: nat, high: nat)
    requires ownership.Valid()
  {
    && AuthorizedGroup(ownership, setting.sides, 0, |ownership.units|)
    && Replaces(ownership, setting.sides, 0, |ownership.units|, first, last)
    && GroupBounds(ownership, setting.sides, 0, |ownership.units|) == Some((low, high))
    && |ownership.deletions| == |ownership.units|
    && forall u :: 0 <= u < |ownership.units| ==>
         ownership.units[u].deletionIndices == [u] && ownership.deletions[u].anchor == first - 1
  }

  /** The lines are owned, in no inherited copy, and no region writes old text of its own for them. */
  ghost predicate OwnsLines(ownership: BatchOwnership, setting: Setting, first: int, last: int) {
    forall line: nat :: first <= line <= last ==>
      && Contains(ownership.presence, line) && line !in setting.sides.preserved
      && RegionFor(setting.regions, line).Some? && RegionFor(setting.regions, line).value.kind in {Insert, ReplaceByHunk}
  }

  lemma OnlyGroup(ownership: BatchOwnership, setting: Setting, start: nat, end: nat, first: int, last: int, low: nat, high: nat)
    requires ownership.Valid() && LoneGroup(ownership, setting, first, last, low, high)
    requires AuthorizedGroup(ownership, setting.sides, start, end)
    ensures start == 0 && end == |ownership.units|
  {
    GroupIsUnique(ownership, start, end, 0, |ownership.units|, start);
  }

  lemma GroupMember(ownership: BatchOwnership, setting: Setting, first: int, last: int, low: nat, high: nat, u: nat)
    requires ownership.Valid() && LoneGroup(ownership, setting, first, last, low, high) && u < |ownership.units|
    ensures var members := MembersUpTo(ownership, setting.sides, 0, |ownership.units|).value;
      |members| == |ownership.units| && members[u].deletion == u
    ensures Grouped(ownership, setting.sides, u)
  {
    hide MemberOf, IsGroup, GroupBounds, MembersUpTo;
    MemberAt(ownership, setting.sides, 0, |ownership.units|, u);
  }

  /** The one claim on each deleted version of the group. */
  lemma GroupRecord(ownership: BatchOwnership, setting: Setting, first: int, last: int, low: nat, high: nat, d: nat, record: RestoreRecord)
    requires ownership.Valid() && LoneGroup(ownership, setting, first, last, low, high) && d < |ownership.deletions|
    requires FinalRecord(ownership, setting.sides, d, record)
    ensures var members := MembersUpTo(ownership, setting.sides, 0, |ownership.units|).value;
      d < |members| && record == ShareOf(members, d, low)
  {
    hide IsGroup, GroupBounds, MembersUpTo, MemberOf, ShareOf, LastClaim, Exact, ExactBounds, Superseded, BetweenNeighbors, Live, Authorized, Grouped;
    GroupMember(ownership, setting, first, last, low, high, d);
    assert Names(ownership, d, d);
    assert Named(ownership, d);
    assert Claims(ownership, setting.sides, WithGroup, d, d);
    var preimage := LastClaim(ownership, setting.sides, ByPreimage, |ownership.units|, d);
    if preimage.Some? {
      GroupMember(ownership, setting, first, last, low, high, preimage.value);
    }
    var group := LastClaim(ownership, setting.sides, WithGroup, |ownership.units|, d);
    assert group.Some? && group.value == d;
    var start: nat, end: nat :| GivesShare(ownership, setting.sides, start, end, d, record);
    OnlyGroup(ownership, setting, start, end, first, last, low, high);
  }

  lemma GroupShareFits(ownership: BatchOwnership, setting: Setting, first: int, last: int, low: nat, high: nat, d: nat, record: RestoreRecord)
    requires ownership.Valid() && setting.Valid() && LoneGroup(ownership, setting, first, last, low, high)
    requires d < |ownership.deletions| && FinalRecord(ownership, setting.sides, d, record)
    ensures var members := MembersUpTo(ownership, setting.sides, 0, |ownership.units|).value;
      && |members| == |ownership.units| && record == ShareOf(members, d, low)
      && OldCount(members, d) <= OldCount(members, d + 1) && low + OldCount(members, d + 1) <= high
      && high == low + OldCount(members, |members|) && high <= |setting.sides.trusted.value.lines|
  {
    GroupRecord(ownership, setting, first, last, low, high, d, record);
    GroupMember(ownership, setting, first, last, low, high, d);
    hide FinalRecord, IsGroup, GroupBounds, MembersUpTo, MemberOf, OldCount;
    var members := MembersUpTo(ownership, setting.sides, 0, |ownership.units|).value;
    SliceHasRoom(ownership, setting.sides, 0, |ownership.units|);
    ShareFits(members, d, low);
    OldCountGrows(members, d, d + 1);
  }

  ghost predicate HoldsShare(records: seq<RestoreRecord>, members: seq<Member>, low: nat, d: nat) {
    d < |members| && d < |records| && records[d] == ShareOf(members, d, low)
  }

  /** Each record ends where the next one begins. */
  lemma ShareFollows(records: seq<RestoreRecord>, members: seq<Member>, low: nat, d: nat)
    requires HoldsShare(records, members, low, d)
    ensures records[d].flag == 3 && records[d].first <= records[d].last <= low + OldCount(members, |members|)
    ensures d == 0 ==> records[d].first == low
    ensures d > 0 && HoldsShare(records, members, low, d - 1) ==> records[d].first == records[d - 1].last
    ensures d + 1 == |members| ==> records[d].last == low + OldCount(members, |members|)
  {
    ShareFits(members, d, low);
  }

  /** Consecutive shares in recorded order fill the slice. */
  lemma SharesFill(ownership: BatchOwnership, setting: Setting, records: seq<RestoreRecord>, members: seq<Member>, anchor: nat, low: nat, high: nat)
    requires |records| == |ownership.deletions| == |members| && records != [] && setting.sides.trusted.Some?
    requires forall d :: 0 <= d < |records| ==> HoldsShare(records, members, low, d) && ownership.deletions[d].anchor == anchor
    requires high == low + OldCount(members, |members|) && high <= |setting.sides.trusted.value.lines|
    ensures SharesSlice(ownership, setting, records, anchor, low, high)
  {
    hide OldCount, HoldsShare;
    forall d | 0 <= d < |records|
      ensures records[d].flag == 3 && records[d].first <= records[d].last <= high
      ensures d == 0 ==> records[d].first == low
      ensures d > 0 ==> records[d].first == records[d - 1].last
      ensures d == |records| - 1 ==> records[d].last == high
    {
      assert d > 0 ==> HoldsShare(records, members, low, d - 1);
      ShareFollows(records, members, low, d);
    }
  }

  lemma GroupShares(ownership: BatchOwnership, setting: Setting, records: seq<RestoreRecord>, first: int, last: int, low: nat, high: nat)
    requires Matched(ownership, setting) && LoneGroup(ownership, setting, first, last, low, high) && first > 1
    requires FinalRecords(ownership, setting.sides, records)
    ensures SharesSlice(ownership, setting, records, first - 1, low, high)
  {
    GroupHasMembers(ownership, setting, first, last, low, high);
    var members := MembersUpTo(ownership, setting.sides, 0, |ownership.units|).value;
    hide FinalRecord, MembersUpTo, OldCount, LoneGroup, ShareOf, SharesSlice;
    forall d | 0 <= d < |records| ensures HoldsShare(records, members, low, d) {
      assert FinalRecord(ownership, setting.sides, d, records[d]);
      GroupShareFits(ownership, setting, first, last, low, high, d, records[d]);
    }
    assert FinalRecord(ownership, setting.sides, 0, records[0]);
    GroupShareFits(ownership, setting, first, last, low, high, 0, records[0]);
    SharesFill(ownership, setting, records, members, first - 1, low, high);
  }

  lemma GroupHasMembers(ownership: BatchOwnership, setting: Setting, first: int, last: int, low: nat, high: nat)
    requires ownership.Valid() && LoneGroup(ownership, setting, first, last, low, high)
    ensures |ownership.deletions| == |ownership.units| > 0 && setting.sides.trusted.Some?
    ensures MembersUpTo(ownership, setting.sides, 0, |ownership.units|).Some?
    ensures |MembersUpTo(ownership, setting.sides, 0, |ownership.units|).value| == |ownership.units|
    ensures forall u :: 0 <= u < |ownership.units| ==> ownership.deletions[u].anchor == first - 1
  {
    hide MembersUpTo, GroupBounds;
    MembersAre(ownership, setting.sides, 0, |ownership.units|);
  }

  lemma GroupIsRestorable(ownership: BatchOwnership, setting: Setting, first: int, last: int, low: nat, high: nat)
    requires ownership.Valid() && LoneGroup(ownership, setting, first, last, low, high)
    ensures !CannotRestore(ownership, setting.sides)
  {
    hide IsGroup, GroupBounds, MembersUpTo, MemberOf, Fails, Authorized, Grouped;
    forall start: nat, end: nat ensures !LostGroup(ownership, setting.sides, start, end) {
      if AuthorizedGroup(ownership, setting.sides, start, end) {
        OnlyGroup(ownership, setting, start, end, first, last, low, high);
      }
    }
    forall u | 0 <= u < |ownership.units| ensures Grouped(ownership, setting.sides, u) {
      GroupMember(ownership, setting, first, last, low, high, u);
    }
  }

  /** The members of a group cover its lines. */
  lemma {:induction false} MembersCover(members: seq<Member>, count: nat, line: int)
    requires 0 < count <= |members| && members[0].span.first <= line <= members[count - 1].span.last
    requires forall k :: 0 < k < |members| ==> Follows(members[k - 1], members[k])
    ensures exists i :: 0 <= i < count && members[i].span.first <= line <= members[i].span.last
  {
    if line < members[count - 1].span.first {
      assert count > 1 ==> Follows(members[count - 2], members[count - 1]);
      MembersCover(members, count - 1, line);
    }
  }

  lemma GroupLineIsApart(ownership: BatchOwnership, setting: Setting, first: int, last: int, low: nat, high: nat, line: int)
    requires ownership.Valid() && LoneGroup(ownership, setting, first, last, low, high) && first <= line <= last
    ensures RestoredApart(ownership, setting.sides, line)
  {
    hide MemberOf, IsGroup, GroupBounds, MembersUpTo, NormalForm, Follows, Authorized, Grouped, Contains;
    var members := MembersUpTo(ownership, setting.sides, 0, |ownership.units|).value;
    GroupHasMembers(ownership, setting, first, last, low, high);
    MembersAre(ownership, setting.sides, 0, |ownership.units|);
    MembersCover(members, |members|, line);
    var u :| 0 <= u < |members| && members[u].span.first <= line <= members[u].span.last;
    GroupMember(ownership, setting, first, last, low, high, u);
    assert MemberOf(ownership, setting.sides, 0 + u) == Some(members[u]);
    MemberSpan(ownership, setting.sides, u);
    NormalFormMeaning(ownership.units[u].presence.value);
    InOneSpan(members[u].span, line);
    assert InUnit(ownership, u, line);
    assert ApartWithGroup(ownership, setting.sides, |ownership.units|, line);
  }

  lemma InOneSpan(span: Span, line: int)
    requires span.first <= line <= span.last
    ensures Contains([span], line)
  {
    assert [span][0] == span;
  }

  /** The worktree line of an owned line that is restored apart leaves nothing. */
  lemma ApartLineGoes(ownership: BatchOwnership, setting: Setting, spans: seq<Span>, first: int, last: int, line: nat)
    requires Matched(ownership, setting) && OwnsLines(ownership, setting, first, last) && first <= line <= last
    requires Contains(spans, line) && line in setting.sides.toWorking.toTarget
    ensures 1 <= setting.sides.toWorking.toTarget[line] <= |setting.sides.working| && line > 0
    ensures LeftBy(ownership, setting, spans, setting.sides.toWorking.toTarget[line]) == []
  {
    var t := setting.sides.toWorking.toTarget[line];
    WorkingLineComesFrom(setting.sides.working, setting.sides.toWorking, [], t - 1);
    assert EntriesOf(setting)[t - 1].provenance.source == line;
    assert Contains(ownership.presence, line) && line !in setting.sides.preserved;
    hide WorkingEntries, Started, Contains;
  }

  /** Nothing is left of the group between its neighbours. */
  lemma GroupLeavesNothing(ownership: BatchOwnership, setting: Setting, spans: seq<Span>, first: int, last: int, low: nat, high: nat, before: nat)
    requires Matched(ownership, setting) && LoneGroup(ownership, setting, first, last, low, high) && OwnsLines(ownership, setting, first, last)
    requires forall line :: Contains(spans, line) <==> RestoredApart(ownership, setting.sides, line)
    requires 1 < first <= last && StandVerbatim(setting.sides, first, last, before)
    requires before + (last - first + 1) + 1 <= |setting.sides.working|
    ensures NextTo(ownership, setting, spans, before, before + (last - first + 1) + 1)
  {
    assert ownership.Valid();
    hide LoneGroup, OwnsLines, Matched, LeftBy, RestoredApart, Contains;
    forall t | before < t < before + (last - first + 1) + 1 ensures LeftBy(ownership, setting, spans, t) == [] {
      var line: nat := first + (t - before - 1);
      assert StandsBehind(setting.sides, first, before, line);
      assert line in setting.sides.toWorking.toTarget && setting.sides.toWorking.toTarget[line] == t;
      GroupLineIsApart(ownership, setting, first, last, low, high, line);
      ApartLineGoes(ownership, setting, spans, first, last, line);
    }
  }

  /**
   Undo of a group in any worktree: its lines go, and between the two source neighbours, now next to each
   other, stand exactly the index lines between the index images of those neighbours, in place of what the
   group's texts find of themselves there already.
   */
  lemma GroupIsReplaced(ownership: BatchOwnership, setting: Setting, records: seq<RestoreRecord>, spans: seq<Span>,
                        first: int, last: int, low: nat, high: nat)
    requires Matched(ownership, setting) && RestorePlan(ownership, setting.sides, records, spans)
    requires LoneGroup(ownership, setting, first, last, low, high) && OwnsLines(ownership, setting, first, last)
    requires first > 1 && StandsAt(ownership, setting, first - 1).Some? && StandsAt(ownership, setting, last + 1).Some?
    requires forall t :: 1 <= t <= |setting.sides.working| ==> !BlockedAt(ownership, setting, spans, t)
    ensures !CannotRestore(ownership, setting.sides) && WorkOf(ownership, setting, records).Valid() && setting.sides.trusted.Some?
    ensures low <= high <= |setting.sides.trusted.value.lines|
    ensures setting.sides.trusted.value.fromSource.Target(first - 1) == Some(low)
    ensures setting.sides.trusted.value.fromSource.Target(last + 1) == Some(high + 1)
    ensures var reversed := ReversedTo(ownership, setting, spans, |setting.sides.working|);
      var lines, at := Contents(reversed), |ReversedTo(ownership, setting, spans, StandsAt(ownership, setting, first - 1).value)|;
      var found := FoundAt(ownership, setting, records, lines, at);
      && 0 < at < |reversed| && reversed[at - 1].provenance.source == first - 1 && reversed[at].provenance.source == last + 1
      && PresentAt(lines, at, found)
      && Undone(ownership, setting, records, spans) == Ok(Replaced(lines, at, |found|, setting.sides.trusted.value.lines[low..high]))
  {
    GroupIsRestorable(ownership, setting, first, last, low, high);
    GroupNeighbors(ownership, setting, records, spans, first, last, low, high);
    GroupShares(ownership, setting, records, first, last, low, high);
    hide StandsAt, ReversedTo, BlockedAt, Matched, RestorePlan, SharesSlice, LoneGroup, OwnsLines, Undone, CannotRestore, Contents;
    hide FoundAt, PresentAt, Replaced;
    SliceComesBack(ownership, setting, records, spans, first - 1, low, high);
  }

  lemma GroupNeighbors(ownership: BatchOwnership, setting: Setting, records: seq<RestoreRecord>, spans: seq<Span>,
                       first: int, last: int, low: nat, high: nat)
    requires Matched(ownership, setting) && RestorePlan(ownership, setting.sides, records, spans)
    requires LoneGroup(ownership, setting, first, last, low, high) && OwnsLines(ownership, setting, first, last)
    requires first > 1 && StandsAt(ownership, setting, first - 1).Some? && StandsAt(ownership, setting, last + 1).Some?
    ensures FinalRecords(ownership, setting.sides, records) && setting.sides.trusted.Some?
    ensures setting.sides.trusted.value.fromSource.Target(first - 1) == Some(low)
    ensures setting.sides.trusted.value.fromSource.Target(last + 1) == Some(high + 1)
    ensures var reversed := ReversedTo(ownership, setting, spans, |setting.sides.working|);
      var at := |ReversedTo(ownership, setting, spans, StandsAt(ownership, setting, first - 1).value)|;
      0 < at < |reversed| && reversed[at - 1].provenance.source == first - 1 && reversed[at].provenance.source == last + 1
  {
    assert setting.sides.trusted.Some? by {
      GroupHasMembers(ownership, setting, first, last, low, high);
    }
    var before := StandsAt(ownership, setting, first - 1).value;
    GroupStands(ownership, setting, first, last, low, high);
    EnclosedBy(setting.sides, first, last, before, low, high);
    PlanIs(ownership, setting, records, spans);
    assert ownership.Valid();
    hide ReversedTo, Matched, LoneGroup, OwnsLines, FinalRecords, NextTo, Encloses, StandVerbatim, RestorePlan, StandsAt, RestoredApart;
    GroupLeavesNothing(ownership, setting, spans, first, last, low, high, before);
    NeighborsMeet(ownership, setting, spans, first - 1, last + 1);
  }

  /** Two source lines with nothing left between them stand next to each other in the reversed text. */
  lemma NeighborsMeet(ownership: BatchOwnership, setting: Setting, spans: seq<Span>, a: nat, b: nat)
    requires Matched(ownership, setting) && StandsAt(ownership, setting, a).Some? && StandsAt(ownership, setting, b).Some?
    requires StandsAt(ownership, setting, b).value <= |setting.sides.working|
    requires NextTo(ownership, setting, spans, StandsAt(ownership, setting, a).value, StandsAt(ownership, setting, b).value)
    ensures StandsAt(ownership, setting, a).value <= |setting.sides.working|
    ensures var reversed := ReversedTo(ownership, setting, spans, |setting.sides.working|);
      var at := |ReversedTo(ownership, setting, spans, StandsAt(ownership, setting, a).value)|;
      0 < at < |reversed| && reversed[at - 1].provenance.source == a && reversed[at].provenance.source == b
  {
    hide ReversedTo, Matched, NextTo, StandsAt;
    NextIsOneFurther(ownership, setting, spans, a, b);
    StandingIsLast(ownership, setting, spans, a);
    StandingIsLast(ownership, setting, spans, b);
  }

  lemma PlanIs(ownership: BatchOwnership, setting: Setting, records: seq<RestoreRecord>, spans: seq<Span>)
    requires ownership.Valid() && RestorePlan(ownership, setting.sides, records, spans)
    ensures FinalRecords(ownership, setting.sides, records)
    ensures forall line :: Contains(spans, line) <==> RestoredApart(ownership, setting.sides, line)
  {
    hide FinalRecords, RestoredApart, Contains, Normalized;
  }

  lemma EnclosedBy(sides: Sides, first: int, last: int, before: nat, low: nat, high: nat)
    requires Encloses(sides, first, last, before, low, high)
    ensures 1 < first <= last && sides.trusted.value.fromSource.Target(first - 1) == Some(low)
    ensures sides.trusted.value.fromSource.Target(last + 1) == Some(high + 1)
  {
  }

  lemma GroupStands(ownership: BatchOwnership, setting: Setting, first: int, last: int, low: nat, high: nat)
    requires Matched(ownership, setting) && LoneGroup(ownership, setting, first, last, low, high) && first > 1
    requires StandsAt(ownership, setting, first - 1).Some? && StandsAt(ownership, setting, last + 1).Some?
    ensures var before := StandsAt(ownership, setting, first - 1).value;
      && Encloses(setting.sides, first, last, before, low, high) && StandVerbatim(setting.sides, first, last, before)
      && StandsAt(ownership, setting, last + 1).value == before + (last - first + 1) + 1 <= |setting.sides.working|
  {
    hide MembersUpTo, StandVerbatim, GroupBounds, Authorized, IsGroup;
    AuthorizedHasText(ownership, setting.sides, 0, |ownership.units|);
    assert Authorized(ownership, setting.sides, 0, |ownership.units|);
    GroupSliceLies(ownership, setting.sides, 0, |ownership.units|, first, last, low, high);
    var before: nat :| Encloses(setting.sides, first, last, before, low, high) && StandVerbatim(setting.sides, first, last, before);
  }
}
