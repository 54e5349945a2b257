/** Replaying a whole saved file over its live version (batch/complete_source_replacement.py:157-208, 964-996). */
module CompletePair {
  import opened Wrappers
  import opened LineRanges
  import opened Sequences
  import opened Realized

  /** The saved and live versions stored one after the other in a batch source. */
  datatype Pair = Pair(saved: Stretch, live: Stretch)
  {
    predicate Inside(source: seq<Line>) {
      && saved.start <= saved.end <= |source| && live.start <= live.end <= |source|
    }

    /** The claimed lines besides the saved version. */
    function Extra(presence: seq<Span>): seq<Span> {
      if saved.start < saved.end then Without(presence, Span(saved.start + 1, saved.end)) else presence
    }
  }

  /** Every claimed line lies in the saved or in the live version. */
  ghost predicate ClaimsWithin(pair: Pair, presence: seq<Span>) {
    forall line :: Contains(presence, line) ==>
      pair.saved.start < line <= pair.saved.end || pair.live.start < line <= pair.live.end
  }

  lemma ExtraMeaning(pair: Pair, presence: seq<Span>)
    requires Normalized(presence) && ClaimsWithin(pair, presence)
    ensures Normalized(pair.Extra(presence))
    ensures forall line :: Contains(pair.Extra(presence), line) <==>
      Contains(presence, line) && !(pair.saved.start < line <= pair.saved.end)
    ensures forall i :: 0 <= i < |pair.Extra(presence)| ==>
      pair.live.start + 1 <= pair.Extra(presence)[i].first && pair.Extra(presence)[i].last <= pair.live.end
  {
    var extra := pair.Extra(presence);
    forall line ensures Contains(extra, line) <==> Contains(presence, line) && !(pair.saved.start < line <= pair.saved.end) {
      if pair.saved.start < pair.saved.end {
        WithoutMeaning(presence, Span(pair.saved.start + 1, pair.saved.end), line);
      }
    }
    if pair.saved.start < pair.saved.end {
      WithoutMeaning(presence, Span(pair.saved.start + 1, pair.saved.end), 0);
    }
    forall i | 0 <= i < |extra| ensures pair.live.start + 1 <= extra[i].first && extra[i].last <= pair.live.end {
      assert Contains(extra, extra[i].first) && Contains(extra, extra[i].last);
    }
  }

  /** A claimed live line equals the saved line at the same offset. */
  predicate AgreesWithSaved(source: seq<Line>, pair: Pair, line: nat)
    requires pair.Inside(source) && pair.live.start < line <= pair.live.end
    requires pair.saved.end - pair.saved.start == pair.live.end - pair.live.start
  {
    source[pair.saved.start + line - pair.live.start - 1] == source[line - 1]
  }

  /**
   Both versions are equally long and not empty, some live line was claimed besides the saved
   ones, each of those equals its saved counterpart, and the worktree is the live version without them.
   */
  ghost predicate Replayable(source: seq<Line>, pair: Pair, presence: seq<Span>, working: seq<Line>)
    requires pair.Inside(source)
  {
    var extra := pair.Extra(presence);
    && pair.saved.end - pair.saved.start == pair.live.end - pair.live.start > 0
    && (exists line :: Contains(extra, line))
    && (forall line :: pair.live.start < line <= pair.live.end && Contains(extra, line) ==> AgreesWithSaved(source, pair, line))
    && working == Unselected(extra, source, pair.live.start, pair.live.end)
  }

  /** The lengths match exactly when the worktree has a line for every live line that was not claimed. */
  lemma CountsAgree(source: seq<Line>, pair: Pair, presence: seq<Span>)
    requires Normalized(presence) && pair.Inside(source) && ClaimsWithin(pair, presence)
    ensures var extra := pair.Extra(presence);
      |Unselected(extra, source, pair.live.start, pair.live.end)| == pair.live.end - pair.live.start - TotalCount(extra)
  {
    hide Contains, Normalized, ClaimsWithin, Unselected, TotalCount, CountLines, Without;
    var extra := pair.Extra(presence);
    ExtraMeaning(pair, presence);
    UnselectedCount(extra, source, pair.live.start, pair.live.end);
    TotalCountInside(extra, |extra|, pair.live.start + 1, pair.live.end);
    assert extra[..|extra|] == extra;
  }

  /** Compare each claimed live line with its saved counterpart. */
  method ClaimedLinesAgree(source: seq<Line>, pair: Pair, extra: seq<Span>) returns (agree: bool)
    requires pair.Inside(source) && pair.saved.end - pair.saved.start == pair.live.end - pair.live.start
    requires Normalized(extra)
    requires forall i :: 0 <= i < |extra| ==> pair.live.start + 1 <= extra[i].first && extra[i].last <= pair.live.end
    ensures agree <==> forall line :: pair.live.start < line <= pair.live.end && Contains(extra, line) ==> AgreesWithSaved(source, pair, line)
  {
    var i := 0;
    while i < |extra|
      invariant 0 <= i <= |extra|
      invariant forall k, line :: 0 <= k < i && extra[k].first <= line <= extra[k].last ==> AgreesWithSaved(source, pair, line)
    {
      var line := extra[i].first;
      while line <= extra[i].last
        invariant extra[i].first <= line <= extra[i].last + 1
        invariant forall x :: extra[i].first <= x < line ==> AgreesWithSaved(source, pair, x)
      {
        var offset := line - pair.live.start - 1;
        if source[pair.saved.start + offset] != source[line - 1] {
          assert Contains(extra, line) && !AgreesWithSaved(source, pair, line);
          return false;
        }
        line := line + 1;
      }
      i := i + 1;
    }
    agree := true;
  }

  /** Walk the live version beside the worktree, past the claimed lines. */
  method WorktreeIsRest(source: seq<Line>, live: Stretch, extra: seq<Span>, working: seq<Line>) returns (same: bool)
    requires live.start <= live.end <= |source| && Normalized(extra)
    requires |working| == |Unselected(extra, source, live.start, live.end)|
    ensures same <==> working == Unselected(extra, source, live.start, live.end)
  {
    hide Contains;
    ghost var rest := Unselected(extra, source, live.start, live.end);
    var workingIndex, index := 0, live.start;
    while index < live.end
      invariant live.start <= index <= live.end && workingIndex == |Unselected(extra, source, live.start, index)| <= |working|
      invariant working[..workingIndex] == Unselected(extra, source, live.start, index)
    {
      var claimed := SortedContains(extra, index + 1);
      UnselectedPrefix(extra, source, live.start, index + 1, live.end);
      if claimed {
        index := index + 1;
        continue;
      }
      if source[index] != working[workingIndex] {
        assert rest[workingIndex] == rest[..workingIndex + 1][workingIndex] == source[index];
        return false;
      }
      assert working[..workingIndex + 1] == working[..workingIndex] + [working[workingIndex]];
      workingIndex := workingIndex + 1;
      index := index + 1;
    }
    assert working[..workingIndex] == working;
    same := true;
  }

  /** The claimed lines outside the saved version, by range difference. */
  method ExtraLines(pair: Pair, presence: seq<Span>) returns (extra: seq<Span>)
    requires Normalized(presence) && ClaimsWithin(pair, presence) && pair.saved.start < pair.saved.end
    ensures extra == pair.Extra(presence) && Normalized(extra)
    ensures forall i :: 0 <= i < |extra| ==> pair.live.start + 1 <= extra[i].first && extra[i].last <= pair.live.end
  {
    var saved := Span(pair.saved.start + 1, pair.saved.end);
    hide Contains, Normalized;
    OneRange(saved);
    extra := Difference(presence, [saved]);
    ExtraMeaning(pair, presence);
    NormalizedIsCanonical(extra, pair.Extra(presence));
  }

  /** The saved file, when the worktree is the live version with claimed lines removed. */
  method SavedFileAfterClaimedLiveLines(source: seq<Line>, recognized: Option<Pair>, presence: seq<Span>, working: seq<Line>)
    returns (saved: Option<seq<Line>>)
    requires Normalized(presence)
    requires recognized.Some? ==> recognized.value.Inside(source) && ClaimsWithin(recognized.value, presence)
    ensures saved.Some? <==> recognized.Some? && Replayable(source, recognized.value, presence, working)
    ensures saved.Some? ==> saved.value == source[recognized.value.saved.start..recognized.value.saved.end]
  {
    hide Contains, Normalized, Unselected, AgreesWithSaved, TotalCount, ClaimsWithin;
    if recognized.None? {
      return None;
    }
    var pair := recognized.value;
    var savedCount, liveCount := pair.saved.end - pair.saved.start, pair.live.end - pair.live.start;
    if savedCount == 0 || savedCount != liveCount {
      return None;
    }
    var extra := ExtraLines(pair, presence);
    NothingExtra(extra);
    CountsAgree(source, pair, presence);
    if extra == [] {
      return None;
    }
    if |working| != liveCount - TotalCount(extra) {
      return None;
    }
    var agree := ClaimedLinesAgree(source, pair, extra);
    if !agree {
      return None;
    }
    var same := WorktreeIsRest(source, pair.live, extra, working);
    if !same {
      return None;
    }
    saved := Some(source[pair.saved.start..pair.saved.end]);
  }

  lemma NothingExtra(extra: seq<Span>)
    requires Normalized(extra)
    ensures extra == [] <==> forall line :: !Contains(extra, line)
  {
    if extra != [] {
      assert Contains(extra, extra[0].first);
    }
  }

  // ------------------------------------------------- why the saved file is right

  /** The live version rebuilt: saved lines where lines were claimed, the worktree's own lines elsewhere. */
  function Refilled(source: seq<Line>, pair: Pair, extra: seq<Span>, working: seq<Line>, upto: nat): Option<seq<Line>>
    requires pair.Inside(source) && pair.live.start <= upto <= pair.live.end
    requires pair.saved.end - pair.saved.start == pair.live.end - pair.live.start
    decreases upto - pair.live.start
  {
    if upto == pair.live.start then Some([])
    else
      var before := Refilled(source, pair, extra, working, upto - 1);
      if before.None? then None
      else if Contains(extra, upto) then Some(before.value + [source[pair.saved.start + upto - pair.live.start - 1]])
      else
        var used := |Unselected(extra, source, pair.live.start, upto - 1)|;
        if used < |working| then Some(before.value + [working[used]]) else None
  }

  lemma {:induction false} RefillsLive(source: seq<Line>, pair: Pair, extra: seq<Span>, working: seq<Line>, upto: nat)
    requires pair.Inside(source) && pair.live.start <= upto <= pair.live.end
    requires pair.saved.end - pair.saved.start == pair.live.end - pair.live.start
    requires |working| >= |Unselected(extra, source, pair.live.start, upto)|
    ensures var filled := Refilled(source, pair, extra, working, upto);
      && filled.Some? && |filled.value| == upto - pair.live.start
      && (filled.value == source[pair.live.start..upto] <==>
            && (forall line :: pair.live.start < line <= upto && Contains(extra, line) ==> AgreesWithSaved(source, pair, line))
            && working[..|Unselected(extra, source, pair.live.start, upto)|] == Unselected(extra, source, pair.live.start, upto))
    decreases upto - pair.live.start
  {
    hide Contains;
    if upto > pair.live.start {
      RefillsLive(source, pair, extra, working, upto - 1);
      var before, rest := Refilled(source, pair, extra, working, upto - 1).value, Unselected(extra, source, pair.live.start, upto - 1);
      assert source[pair.live.start..upto] == source[pair.live.start..upto - 1] + [source[upto - 1]];
      if Contains(extra, upto) {
        var saved := source[pair.saved.start + upto - pair.live.start - 1];
        LastOfEqual(before, source[pair.live.start..upto - 1], saved, source[upto - 1]);
      } else {
        LastOfEqual(before, source[pair.live.start..upto - 1], working[|rest|], source[upto - 1]);
        assert working[..|rest| + 1] == working[..|rest|] + [working[|rest|]];
        LastOfEqual(working[..|rest|], rest, working[|rest|], source[upto - 1]);
      }
    }
  }

  /**
   The check accepts exactly the worktrees that become the live version once the saved lines are
   put back where lines were claimed, with nothing left over.
   */
  lemma ReplayableRebuildsLive(source: seq<Line>, pair: Pair, presence: seq<Span>, working: seq<Line>)
    requires Normalized(presence) && pair.Inside(source) && ClaimsWithin(pair, presence)
    requires pair.saved.end - pair.saved.start == pair.live.end - pair.live.start > 0
    requires exists line :: Contains(pair.Extra(presence), line)
    requires |working| == pair.live.end - pair.live.start - TotalCount(pair.Extra(presence))
    ensures Replayable(source, pair, presence, working) <==>
      Refilled(source, pair, pair.Extra(presence), working, pair.live.end) == Some(source[pair.live.start..pair.live.end])
  {
    CountsAgree(source, pair, presence);
    hide Contains, Unselected, Refilled, TotalCount, ClaimsWithin, Normalized, AgreesWithSaved;
    RefillsLive(source, pair, pair.Extra(presence), working, pair.live.end);
    assert working[..|working|] == working;
  }

  // ----------------------------------------------------------- cutting lines out

  datatype CutError = OutsideSnapshot

  lemma NothingToCopy(excluded: seq<Span>, lines: seq<Line>)
    ensures Unselected(excluded, lines, 0, 0) == []
  {
  }

  /** The text without the given ranges; they must come in order and lie inside it. */
  method BufferWithoutRanges(lines: seq<Line>, excluded: seq<Span>) returns (rest: Result<seq<Line>, CutError>)
    requires Normalized(excluded)
    ensures rest.Ok? <==> excluded == [] || (1 <= excluded[0].first && excluded[|excluded| - 1].last <= |lines|)
    ensures rest.Ok? ==> rest.value == Unselected(excluded, lines, 0, |lines|)
  {
    hide Contains, Unselected;
    var kept: seq<Line>, previousEnd := [], 0;
    var i := 0;
    NothingToCopy(excluded, lines);
    while i < |excluded|
      invariant 0 <= i <= |excluded| && 0 <= previousEnd <= |lines|
      invariant previousEnd == if i == 0 then 0 else excluded[i - 1].last
      invariant i > 0 ==> 1 <= excluded[0].first
      invariant kept == Unselected(excluded, lines, 0, previousEnd)
    {
      var start, end := excluded[i].first, excluded[i].last;
      if start <= previousEnd || end > |lines| {
        return Err(OutsideSnapshot);
      }
      NothingSelected(excluded, lines, previousEnd, start - 1, i);
      EverythingSelected(excluded, lines, start - 1, end, i);
      kept := kept + lines[previousEnd..start - 1];
      previousEnd := end;
      i := i + 1;
    }
    NothingSelected(excluded, lines, previousEnd, |lines|, i);
    rest := Ok(kept + lines[previousEnd..]);
  }

  lemma {:induction false} NothingSelected(ranges: seq<Span>, lines: seq<Line>, from: nat, upto: nat, i: nat)
    requires Normalized(ranges) && from <= upto <= |lines| && i <= |ranges|
    requires (i > 0 ==> ranges[i - 1].last <= from) && (i < |ranges| ==> upto < ranges[i].first)
    ensures Unselected(ranges, lines, 0, upto) == Unselected(ranges, lines, 0, from) + lines[from..upto]
    decreases upto - from
  {
    if from < upto {
      NothingSelected(ranges, lines, from, upto - 1, i);
      BetweenRanges(ranges, i, upto);
      assert lines[from..upto] == lines[from..upto - 1] + [lines[upto - 1]];
    }
  }

  lemma {:induction false} EverythingSelected(ranges: seq<Span>, lines: seq<Line>, from: nat, upto: nat, i: nat)
    requires Normalized(ranges) && from <= upto <= |lines| && i < |ranges|
    requires ranges[i].first <= from + 1 && upto <= ranges[i].last
    ensures Unselected(ranges, lines, 0, upto) == Unselected(ranges, lines, 0, from)
    decreases upto - from
  {
    if from < upto {
      EverythingSelected(ranges, lines, from, upto - 1, i);
      assert ranges[i].first <= upto <= ranges[i].last;
      assert Unselected(ranges, lines, 0, upto - 1) + [] == Unselected(ranges, lines, 0, upto - 1);
    }
  }

  /** The text without one stretch. */
  method BufferWithoutSpan(lines: seq<Line>, span: Stretch) returns (rest: Result<seq<Line>, CutError>)
    requires span.start <= span.end
    ensures rest.Ok? <==> span.end <= |lines|
    ensures rest.Ok? ==> rest.value == Unselected([Span(span.start + 1, span.end)], lines, 0, |lines|)
  {
    if span.end > |lines| {
      return Err(OutsideSnapshot);
    }
    rest := Ok(lines[..span.start] + lines[span.end..]);
    SpanCutsOut(lines, span);
  }

  lemma SpanCutsOut(lines: seq<Line>, span: Stretch)
    requires span.start <= span.end <= |lines|
    ensures Unselected([Span(span.start + 1, span.end)], lines, 0, |lines|) == lines[..span.start] + lines[span.end..]
  {
    hide Unselected;
    var ranges := [Span(span.start + 1, span.end)];
    if span.start < span.end {
      NothingSelected(ranges, lines, 0, span.start, 0);
      EverythingSelected(ranges, lines, span.start, span.end, 0);
      NothingSelected(ranges, lines, span.end, |lines|, 1);
      NoneKept(ranges, lines);
      hide Normalized;
      assert [] + lines[0..span.start] == lines[..span.start] && lines[span.end..|lines|] == lines[span.end..];
    } else {
      EmptySelectsNothing(ranges);
      assert lines[..|lines|] == lines[..span.start] + lines[span.end..];
      NoneSelected(ranges, lines, |lines|);
    }
  }

  lemma NoneKept(ranges: seq<Span>, lines: seq<Line>)
    ensures Unselected(ranges, lines, 0, 0) == []
  {
  }

  lemma EmptySelectsNothing(ranges: seq<Span>)
    requires |ranges| == 1 && ranges[0].last < ranges[0].first
    ensures forall line :: !Contains(ranges, line)
  {
  }

  lemma {:induction false} NoneSelected(ranges: seq<Span>, lines: seq<Line>, upto: nat)
    requires upto <= |lines| && forall line :: !Contains(ranges, line)
    ensures Unselected(ranges, lines, 0, upto) == lines[..upto]
  {
    if upto > 0 {
      NoneSelected(ranges, lines, upto - 1);
    }
  }
}
