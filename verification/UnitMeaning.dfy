/** Which replacement units undo gives index text back for, told by their lines and claims alone (batch/discard.py:1121-1251, 1336-1385). */
module UnitMeaning {
  import opened Wrappers
  import opened LineRanges
  import opened Realized
  import opened Ownership
  import opened LegacyReplacements
  import opened SupersededDeletions
  import opened ReplacementGroups
  import opened ReplacementClaims

  /** The unit's presence lines are just the lines first..last. */
  ghost predicate HoldsJust(unit: ReplacementUnit, first: int, last: int) {
    && unit.presence.Some? && first <= last
    && forall line :: Contains(unit.presence.value, line) <==> first <= line <= last
  }

  ghost predicate InPreimage(sides: Sides, first: int, last: int) {
    forall line :: first <= line <= last ==> Contains(sides.preimage, line)
  }

  /** However the presence lines are written down, they collect to one range exactly when they are just its lines. */
  lemma OneRangeIs(ownership: BatchOwnership, u: nat, first: int, last: int)
    requires ownership.Valid() && u < |ownership.units|
    ensures CollectedRanges(ownership.units[u]) == Some([Span(first, last)]) <==> HoldsJust(ownership.units[u], first, last)
  {
    hide NormalForm;
    var unit := ownership.units[u];
    if unit.presence.Some? {
      var one := [Span(first, last)];
      NormalFormMeaning(unit.presence.value);
      assert forall line :: Contains(one, line) <==> first <= line <= last by {
        assert one[0] == Span(first, last);
      }
      if HoldsJust(unit, first, last) {
        NormalizedIsCanonical(NormalForm(unit.presence.value), one);
      }
      if CollectedRanges(unit) == Some(one) {
        CollectedRangesAre(ownership, u);
        assert NormalForm(unit.presence.value)[0] == Span(first, last);
      }
    }
  }

  // ------------------------------------------------------------------ members

  /** The unit names one old text, which stood behind a known baseline line, and one stretch of lines that replaced index text. */
  ghost predicate IsMember(ownership: BatchOwnership, sides: Sides, u: nat, member: Member)
    requires u < |ownership.units|
  {
    var unit, d := ownership.units[u], member.deletion;
    && unit.deletionIndices == [d] && d < |ownership.deletions|
    && ownership.deletions[d].content == member.lines != []
    && ownership.deletions[d].reference.Some?
    && ownership.deletions[d].reference.value.after.Known? && ownership.deletions[d].reference.value.after.line == Some(member.after)
    && HoldsJust(unit, member.span.first, member.span.last)
    && member.span.last <= |sides.source| && InPreimage(sides, member.span.first, member.span.last)
  }

  lemma MemberIs(ownership: BatchOwnership, sides: Sides, u: nat, member: Member)
    requires ownership.Valid() && u < |ownership.units|
    ensures MemberOf(ownership, sides, u) == Some(member) <==> IsMember(ownership, sides, u, member)
  {
    var unit, ranges := ownership.units[u], CollectedRanges(ownership.units[u]);
    OneRangeIs(ownership, u, member.span.first, member.span.last);
    hide NormalForm, HoldsJust, CollectedRanges, Contains;
    assert |unit.deletionIndices| == 1 ==> unit.deletionIndices == [unit.deletionIndices[0]];
    assert ranges.Some? && |ranges.value| == 1 ==> ranges.value == [ranges.value[0]];
    if IsMember(ownership, sides, u, member) {
      assert ranges.value[0] == member.span;
    }
  }

  /** The units start..end have these members, each going on where the one before ends, in the source and in the baseline. */
  ghost predicate HasMembers(ownership: BatchOwnership, sides: Sides, start: nat, end: nat, members: seq<Member>)
    requires start <= end <= |ownership.units|
  {
    && |members| == end - start
    && (forall i :: 0 <= i < |members| ==> IsMember(ownership, sides, start + i, members[i]))
    && (forall i :: 0 < i < |members| ==> members[i].span.first == members[i - 1].span.last + 1)
    && (forall i :: 0 < i < |members| ==> members[i].after == members[i - 1].after + |members[i - 1].lines|)
  }

  lemma NoMembers(ownership: BatchOwnership, sides: Sides, start: nat, members: seq<Member>)
    requires start <= |ownership.units|
    ensures HasMembers(ownership, sides, start, start, members) <==> members == []
  {
  }

  lemma SomeMembers(ownership: BatchOwnership, sides: Sides, start: nat, end: nat, members: seq<Member>)
    requires start < end <= |ownership.units|
    ensures HasMembers(ownership, sides, start, end, members) ==> members != []
  {
  }

  lemma HasMembersNext(ownership: BatchOwnership, sides: Sides, start: nat, end: nat, init: seq<Member>, last: Member)
    requires start < end <= |ownership.units|
    ensures HasMembers(ownership, sides, start, end, init + [last]) <==>
      && HasMembers(ownership, sides, start, end - 1, init) && IsMember(ownership, sides, end - 1, last)
      && (init != [] ==> Follows(init[|init| - 1], last))
  {
    hide IsMember;
    var members := init + [last];
    if HasMembers(ownership, sides, start, end, members) {
      assert forall i :: 0 <= i < |init| ==> init[i] == members[i];
      assert IsMember(ownership, sides, start + |init|, members[|init|]);
    }
  }

  lemma {:induction false} MembersExactly(ownership: BatchOwnership, sides: Sides, start: nat, end: nat, members: seq<Member>)
    requires ownership.Valid() && start <= end <= |ownership.units|
    ensures MembersUpTo(ownership, sides, start, end) == Some(members) <==> HasMembers(ownership, sides, start, end, members)
    decreases end
  {
    hide IsMember, MemberOf, HasMembers, Follows;
    if start == end {
      NoMembers(ownership, sides, start, members);
    } else if members != [] {
      var init, last := members[..|members| - 1], members[|members| - 1];
      MembersExactly(ownership, sides, start, end - 1, init);
      MemberIs(ownership, sides, end - 1, last);
      HasMembersNext(ownership, sides, start, end, init, last);
      assert members == init + [last];
    } else {
      SomeMembers(ownership, sides, start, end, members);
    }
  }

  /** Together they stand for one stretch of source lines, behind some source line and before another. */
  ghost predicate ClaimStretch(ownership: BatchOwnership, sides: Sides, start: nat, end: nat, members: seq<Member>)
    requires start < end <= |ownership.units|
  {
    && HasMembers(ownership, sides, start, end, members)
    && 1 < members[0].span.first && members[|members| - 1].span.last < |sides.source|
  }

  lemma HoldsSome(spans: seq<Span>, line: int)
    requires Contains(spans, line)
    ensures spans != []
  {
  }

  lemma StretchIsAuthorized(ownership: BatchOwnership, sides: Sides, start: nat, end: nat, members: seq<Member>)
    requires ownership.Valid() && start < end <= |ownership.units| && sides.trusted.Some?
    requires ClaimStretch(ownership, sides, start, end, members)
    ensures Authorized(ownership, sides, start, end)
  {
    MembersExactly(ownership, sides, start, end, members);
    assert IsMember(ownership, sides, start + 0, members[0]);
    HoldsSome(sides.preimage, members[0].span.first);
    hide MembersUpTo, IsMember;
  }

  /** A group claims index text exactly when its units have such members. */
  lemma GroupIsAuthorized(ownership: BatchOwnership, sides: Sides, start: nat, end: nat)
    requires ownership.Valid() && start < end <= |ownership.units|
    ensures Authorized(ownership, sides, start, end) <==>
      sides.trusted.Some? && exists members :: ClaimStretch(ownership, sides, start, end, members)
  {
    hide MembersUpTo, HasMembers;
    if Authorized(ownership, sides, start, end) {
      var members := MembersUpTo(ownership, sides, start, end).value;
      MembersExactly(ownership, sides, start, end, members);
      assert ClaimStretch(ownership, sides, start, end, members);
    }
    if members :| ClaimStretch(ownership, sides, start, end, members) && sides.trusted.Some? {
      StretchIsAuthorized(ownership, sides, start, end, members);
    }
  }

  // -------------------------------------------------------- complete replacements

  /** The unit takes all new and all old lines of the region it was cut from, and its lines replaced index text. */
  ghost predicate TakesOrigin(ownership: BatchOwnership, sides: Sides, u: nat, d: nat, first: int, last: int)
    requires u < |ownership.units|
  {
    var unit := ownership.units[u];
    && unit.deletionIndices == [d] && d < |ownership.deletions| && HoldsJust(unit, first, last) && InPreimage(sides, first, last)
    && unit.origin.Some?
    && var origin := unit.origin.value;
      && 1 <= origin.newStart && origin.newEnd == origin.newStart + (last - first)
      && 1 <= origin.oldStart <= origin.oldEnd && |ownership.deletions[d].content| == origin.oldEnd + 1 - origin.oldStart
  }

  lemma ExactIs(ownership: BatchOwnership, sides: Sides, u: nat)
    requires ownership.Valid() && u < |ownership.units|
    ensures Exact(ownership, sides, u) <==> exists d, first, last :: TakesOrigin(ownership, sides, u, d, first, last)
  {
    hide NormalForm, Contains;
    var unit, ranges := ownership.units[u], CollectedRanges(ownership.units[u]);
    assert |unit.deletionIndices| == 1 ==> unit.deletionIndices == [unit.deletionIndices[0]];
    if Exact(ownership, sides, u) {
      var span := ranges.value[0];
      assert ranges.value == [span];
      OneRangeIs(ownership, u, span.first, span.last);
      assert TakesOrigin(ownership, sides, u, unit.deletionIndices[0], span.first, span.last);
    }
    if d, first, last :| TakesOrigin(ownership, sides, u, d, first, last) {
      OneRangeIs(ownership, u, first, last);
      assert ranges.value == [Span(first, last)];
      HoldsSome(sides.preimage, first);
    }
  }

  /** The unit's lines go past the source, and one of them stands in the worktree. */
  ghost predicate ReachesPast(ownership: BatchOwnership, sides: Sides, u: nat, first: int, last: int, line: nat)
    requires u < |ownership.units|
  {
    && HoldsJust(ownership.units[u], first, last) && last > |sides.source|
    && first <= line <= last && line in sides.toWorking.toTarget && line !in sides.preserved
  }

  /** Undo stops at a live unit whose one stretch of lines reaches past the source. */
  lemma OverrunIs(ownership: BatchOwnership, sides: Sides, u: nat)
    requires ownership.Valid() && u < |ownership.units|
    ensures Overruns(ownership, sides, u) <==> exists first, last, line :: ReachesPast(ownership, sides, u, first, last, line)
  {
    var unit, ranges := ownership.units[u], CollectedRanges(ownership.units[u]);
    hide NormalForm, Contains, CollectedRanges;
    if Overruns(ownership, sides, u) {
      var span := ranges.value[0];
      assert ranges.value == [span];
      OneRangeIs(ownership, u, span.first, span.last);
      var line: nat :| Contains(unit.presence.value, line) && LiveLine(sides.toWorking, sides.preserved, line);
      assert ReachesPast(ownership, sides, u, span.first, span.last, line);
    }
    if first, last, line :| ReachesPast(ownership, sides, u, first, last, line) {
      OneRangeIs(ownership, u, first, last);
      assert ranges.value == [Span(first, last)];
      assert LiveLine(sides.toWorking, sides.preserved, line);
    }
  }
}
