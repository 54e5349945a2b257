/**
 Inclusive one-based line ranges (core/line_selection.py) and their in-place
 normalization (batch/discard.py).
 */
module LineRanges {
  import opened Wrappers
  import opened MappedRecords

  /** An inclusive range of line numbers. */
  datatype Span = Span(first: int, last: int)

  /** The lines between two boundaries of a text. */
  datatype Stretch = Stretch(start: nat, end: nat)

  predicate Contains(ranges: seq<Span>, line: int) {
    exists i :: 0 <= i < |ranges| && ranges[i].first <= line <= ranges[i].last
  }

  /** Sorted, non-empty, disjoint and with a gap between neighbours. */
  ghost predicate Normalized(ranges: seq<Span>) {
    && (forall i :: 0 <= i < |ranges| ==> ranges[i].first <= ranges[i].last)
    && (forall i, j :: 0 <= i < j < |ranges| ==> ranges[i].last + 1 < ranges[j].first)
  }

  /** Line membership is decided by binary search over the starts. */
  method SortedContains(ranges: seq<Span>, line: int) returns (found: bool)
    requires Normalized(ranges)
    ensures found <==> Contains(ranges, line)
  {
    var index := ContainingRangeIndex(ranges, line);
    found := index.Some?;
  }

  /** The index of the range that holds a line, when there is one. */
  method ContainingRangeIndex(ranges: seq<Span>, line: int) returns (index: Option<nat>)
    requires Normalized(ranges)
    ensures index.Some? ==> index.value < |ranges| && ranges[index.value].first <= line <= ranges[index.value].last
    ensures index.None? ==> !Contains(ranges, line)
  {
    var lower, upper := 0, |ranges|;
    while lower < upper
      invariant 0 <= lower <= upper <= |ranges|
      invariant forall i :: 0 <= i < lower ==> ranges[i].first <= line
      invariant forall i :: upper <= i < |ranges| ==> line < ranges[i].first
    {
      var middle := (lower + upper) / 2;
      if ranges[middle].first <= line {
        lower := middle + 1;
      } else {
        upper := middle;
      }
    }
    if lower == 0 || line > ranges[lower - 1].last {
      index := None;
    } else {
      index := Some(lower - 1);
    }
  }

  /** Whether any range meets an interval, looking at one range only. */
  method NormalizedRangesOverlap(ranges: seq<Span>, first: int, last: int) returns (overlap: bool)
    requires Normalized(ranges) && first <= last
    ensures overlap <==> exists line :: first <= line <= last && Contains(ranges, line)
  {
    var lower, upper := 0, |ranges|;
    while lower < upper
      invariant 0 <= lower <= upper <= |ranges|
      invariant forall i :: 0 <= i < lower ==> ranges[i].first < last + 1
      invariant forall i :: upper <= i < |ranges| ==> last + 1 <= ranges[i].first
    {
      var middle := (lower + upper) / 2;
      if ranges[middle].first < last + 1 {
        lower := middle + 1;
      } else {
        upper := middle;
      }
    }
    overlap := lower > 0 && ranges[lower - 1].last >= first;
    if overlap {
      var shared := if ranges[lower - 1].first < first then first else ranges[lower - 1].first;
      assert first <= shared <= last && Contains(ranges, shared);
    }
  }

  /** How many lines of an interval are selected, one line at a time. */
  function CountLines(ranges: seq<Span>, first: int, last: int): nat
    decreases last - first + 1
  {
    if first > last then 0
    else (if Contains(ranges, first) then 1 else 0) + CountLines(ranges, first + 1, last)
  }

  function Overlap(span: Span, first: int, last: int): int {
    var low := if span.first > first then span.first else first;
    var high := if span.last < last then span.last else last;
    if high - low + 1 > 0 then high - low + 1 else 0
  }

  lemma {:induction false} CountOneRange(span: Span, first: int, last: int)
    requires span.first <= span.last && first <= last + 1
    ensures CountLines([span], first, last) == Overlap(span, first, last)
    decreases last - first + 1
  {
    if first <= last {
      CountOneRange(span, first + 1, last);
      assert Contains([span], first) <==> span.first <= first <= span.last by {
        assert [span][0] == span;
      }
    }
  }

  lemma {:induction false} CountNextRange(ranges: seq<Span>, i: nat, first: int, last: int)
    requires Normalized(ranges) && i < |ranges|
    ensures CountLines(ranges[..i + 1], first, last)
         == CountLines(ranges[..i], first, last) + CountLines([ranges[i]], first, last)
    decreases last - first + 1
  {
    if first <= last {
      CountNextRange(ranges, i, first + 1, last);
      assert ranges[..i + 1] == ranges[..i] + [ranges[i]];
      ContainsAppend(ranges[..i], ranges[i], first);
      ContainsAppend([], ranges[i], first);
      assert [] + [ranges[i]] == [ranges[i]];
    }
  }

  lemma {:induction false} CountIgnoresLaterRanges(ranges: seq<Span>, i: nat, first: int, last: int)
    requires Normalized(ranges) && i < |ranges| && ranges[i].first > last
    ensures CountLines(ranges, first, last) == CountLines(ranges[..i], first, last)
    decreases last - first + 1
  {
    if first <= last {
      CountIgnoresLaterRanges(ranges, i, first + 1, last);
      if Contains(ranges, first) {
        var k :| 0 <= k < |ranges| && ranges[k].first <= first <= ranges[k].last;
        assert k < i;
        assert ranges[..i][k] == ranges[k];
        assert Contains(ranges[..i], first);
      }
    }
  }

  /** The range-wise count skips ranges before the interval and stops after it. */
  method Count(ranges: seq<Span>, first: int, last: int) returns (total: nat)
    requires Normalized(ranges)
    ensures total == CountLines(ranges, first, last)
  {
    total := 0;
    if first > last {
      return;
    }
    var i := 0;
    assert forall x :: !Contains(ranges[..0], x);
    CountNothing(ranges[..0], first, last);
    while i < |ranges|
      invariant 0 <= i <= |ranges|
      invariant total == CountLines(ranges[..i], first, last)
    {
      CountNextRange(ranges, i, first, last);
      CountOneRange(ranges[i], first, last);
      if ranges[i].last < first {
        i := i + 1;
        continue;
      }
      if ranges[i].first > last {
        CountIgnoresLaterRanges(ranges, i, first, last);
        return;
      }
      total := total + Overlap(ranges[i], first, last);
      i := i + 1;
    }
    assert ranges[..i] == ranges;
  }

  lemma {:induction false} CountNothing(ranges: seq<Span>, first: int, last: int)
    requires forall x :: first <= x <= last ==> !Contains(ranges, x)
    ensures CountLines(ranges, first, last) == 0
    decreases last - first + 1
  {
    if first <= last {
      CountNothing(ranges, first + 1, last);
    }
  }

  /** A count reaches the interval's length exactly when it selects every line. */
  lemma {:induction false} FullCountMeansAll(ranges: seq<Span>, first: int, last: int)
    requires first <= last + 1
    ensures CountLines(ranges, first, last) <= last - first + 1
    ensures CountLines(ranges, first, last) == last - first + 1
       <==> forall x :: first <= x <= last ==> Contains(ranges, x)
    decreases last - first + 1
  {
    if first <= last {
      FullCountMeansAll(ranges, first + 1, last);
    }
  }

  lemma {:induction false} CountOneMore(ranges: seq<Span>, first: int, last: int)
    requires first <= last
    ensures CountLines(ranges, first, last) == CountLines(ranges, first, last - 1) + if Contains(ranges, last) then 1 else 0
    decreases last - first
  {
    if first < last {
      CountOneMore(ranges, first + 1, last);
    }
  }

  /** How many lines the ranges hold altogether. */
  function TotalCount(ranges: seq<Span>): int {
    if ranges == [] then 0
    else TotalCount(ranges[..|ranges| - 1]) + ranges[|ranges| - 1].last - ranges[|ranges| - 1].first + 1
  }

  /** Ranges inside an interval hold as many lines as the interval has selected lines. */
  lemma {:induction false} TotalCountInside(ranges: seq<Span>, count: nat, first: int, last: int)
    requires Normalized(ranges) && count <= |ranges| && first <= last + 1
    requires forall i :: 0 <= i < |ranges| ==> first <= ranges[i].first && ranges[i].last <= last
    ensures TotalCount(ranges[..count]) == CountLines(ranges[..count], first, last)
  {
    if count == 0 {
      CountNothing(ranges[..0], first, last);
    } else {
      TotalCountInside(ranges, count - 1, first, last);
      CountNextRange(ranges, count - 1, first, last);
      CountOneRange(ranges[count - 1], first, last);
      assert ranges[..count][..count - 1] == ranges[..count - 1];
    }
  }

  /** The items from..upto whose line, counted from one, is not selected. */
  function Unselected<T>(ranges: seq<Span>, items: seq<T>, from: nat, upto: nat): (kept: seq<T>)
    requires from <= upto <= |items|
    decreases upto - from
  {
    if from == upto then []
    else Unselected(ranges, items, from, upto - 1) + (if Contains(ranges, upto) then [] else [items[upto - 1]])
  }

  lemma {:induction false} UnselectedCount<T>(ranges: seq<Span>, items: seq<T>, from: nat, upto: nat)
    requires from <= upto <= |items|
    ensures |Unselected(ranges, items, from, upto)| == upto - from - CountLines(ranges, from + 1, upto)
    decreases upto - from
  {
    hide Contains;
    if from < upto {
      UnselectedCount(ranges, items, from, upto - 1);
      CountOneMore(ranges, from + 1, upto);
    }
  }

  lemma {:induction false} UnselectedPrefix<T>(ranges: seq<Span>, items: seq<T>, from: nat, middle: nat, upto: nat)
    requires from <= middle <= upto <= |items|
    ensures var part, whole := Unselected(ranges, items, from, middle), Unselected(ranges, items, from, upto);
      |part| <= |whole| && whole[..|part|] == part
    decreases upto - middle
  {
    hide Contains;
    if middle < upto {
      UnselectedPrefix(ranges, items, from, middle, upto - 1);
      var part, short := Unselected(ranges, items, from, middle), Unselected(ranges, items, from, upto - 1);
      assert Unselected(ranges, items, from, upto)[..|part|] == short[..|part|];
    } else {
      var part := Unselected(ranges, items, from, middle);
      assert part[..|part|] == part;
    }
  }

  /** A line between two neighbouring ranges is not selected. */
  lemma BetweenRanges(ranges: seq<Span>, k: nat, line: int)
    requires Normalized(ranges) && k <= |ranges|
    requires k > 0 ==> ranges[k - 1].last < line
    requires k < |ranges| ==> line < ranges[k].first
    ensures !Contains(ranges, line)
  {
    forall i | 0 <= i < |ranges| ensures !(ranges[i].first <= line <= ranges[i].last) {
      if i < k - 1 {
        assert ranges[i].last + 1 < ranges[k - 1].first;
      } else if i > k {
        assert ranges[k].last + 1 < ranges[i].first;
      }
    }
  }

  /** The lines shared by two ranges. */
  function Shared(left: Span, right: Span): seq<Span> {
    var first := if left.first > right.first then left.first else right.first;
    var last := if left.last < right.last then left.last else right.last;
    if first <= last then [Span(first, last)] else []
  }

  /** Two-pointer walk over both selections, adding each shared range to what was found. */
  function Meet(found: seq<Span>, left: seq<Span>, i: nat, right: seq<Span>, j: nat): seq<Span>
    decreases |left| - i + |right| - j
  {
    if i >= |left| || j >= |right| then found
    else if left[i].last < right[j].last then Meet(found + Shared(left[i], right[j]), left, i + 1, right, j)
    else Meet(found + Shared(left[i], right[j]), left, i, right, j + 1)
  }

  /** Everything found so far ends before one of the two cursors. */
  ghost predicate Behind(found: seq<Span>, left: seq<Span>, i: nat, right: seq<Span>, j: nat) {
    found != [] && i < |left| && j < |right| ==>
      var end := found[|found| - 1].last;
      end + 1 < left[i].first || end + 1 < right[j].first
  }

  lemma {:induction false} MeetIsNormalized(found: seq<Span>, left: seq<Span>, i: nat, right: seq<Span>, j: nat)
    requires Normalized(left) && Normalized(right) && Normalized(found) && Behind(found, left, i, right, j)
    ensures Normalized(Meet(found, left, i, right, j))
    decreases |left| - i + |right| - j
  {
    if i < |left| && j < |right| {
      var shared := Shared(left[i], right[j]);
      if shared != [] {
        AppendRange(found, shared[0]);
        assert shared == [shared[0]];
      } else {
        assert found + shared == found;
      }
      if left[i].last < right[j].last {
        MeetIsNormalized(found + shared, left, i + 1, right, j);
      } else {
        MeetIsNormalized(found + shared, left, i, right, j + 1);
      }
    }
  }

  /** A line selected by the ranges from position i on. */
  ghost predicate ContainsFrom(ranges: seq<Span>, i: nat, line: int) {
    exists k :: i <= k < |ranges| && ranges[k].first <= line <= ranges[k].last
  }

  /** A line is found exactly when both selections still hold it. */
  lemma {:induction false} MeetSelectsSharedLines(found: seq<Span>, left: seq<Span>, i: nat, right: seq<Span>, j: nat, line: int)
    requires Normalized(left) && Normalized(right)
    ensures Contains(Meet(found, left, i, right, j), line)
       <==> Contains(found, line) || (ContainsFrom(left, i, line) && ContainsFrom(right, j, line))
    decreases |left| - i + |right| - j
  {
    if i < |left| && j < |right| {
      SharedLines(left[i], right[j], line);
      ContainsConcat(found, Shared(left[i], right[j]), line);
      if left[i].last < right[j].last {
        MeetSelectsSharedLines(found + Shared(left[i], right[j]), left, i + 1, right, j, line);
      } else {
        MeetSelectsSharedLines(found + Shared(left[i], right[j]), left, i, right, j + 1, line);
      }
    }
  }

  lemma SharedLines(left: Span, right: Span, line: int)
    ensures Contains(Shared(left, right), line)
       <==> left.first <= line <= left.last && right.first <= line <= right.last
  {
    if left.first <= line <= left.last && right.first <= line <= right.last {
      assert Shared(left, right)[0].first <= line <= Shared(left, right)[0].last;
    }
  }

  lemma ContainsConcat(a: seq<Span>, b: seq<Span>, line: int)
    ensures Contains(a + b, line) <==> Contains(a, line) || Contains(b, line)
  {
    var all := a + b;
    if Contains(all, line) {
      var k :| 0 <= k < |all| && all[k].first <= line <= all[k].last;
      if k >= |a| {
        assert b[k - |a|] == all[k];
      } else {
        assert a[k] == all[k];
      }
    }
    if Contains(a, line) {
      var k :| 0 <= k < |a| && a[k].first <= line <= a[k].last;
      assert all[k] == a[k];
    }
    if Contains(b, line) {
      var k :| 0 <= k < |b| && b[k].first <= line <= b[k].last;
      assert all[|a| + k] == b[k];
    }
  }

  /** The walk from the start finds exactly the shared lines. */
  lemma IntersectionMeaning(left: seq<Span>, right: seq<Span>)
    requires Normalized(left) && Normalized(right)
    ensures Normalized(Meet([], left, 0, right, 0))
    ensures forall line :: Contains(Meet([], left, 0, right, 0), line) <==> Contains(left, line) && Contains(right, line)
  {
    MeetIsNormalized([], left, 0, right, 0);
    forall line ensures Contains(Meet([], left, 0, right, 0), line) <==> Contains(left, line) && Contains(right, line) {
      MeetSelectsSharedLines([], left, 0, right, 0, line);
    }
  }

  /** Two-pointer intersection: the normalized selection of exactly the shared lines. */
  method Intersection(left: seq<Span>, right: seq<Span>) returns (common: seq<Span>)
    requires Normalized(left) && Normalized(right)
    ensures Normalized(common)
    ensures forall line :: Contains(common, line) <==> Contains(left, line) && Contains(right, line)
  {
    hide Contains, Normalized;
    common := [];
    var i, j := 0, 0;
    while i < |left| && j < |right|
      invariant 0 <= i <= |left| && 0 <= j <= |right|
      invariant Meet(common, left, i, right, j) == Meet([], left, 0, right, 0)
      decreases |left| - i + |right| - j
    {
      common := common + Shared(left[i], right[j]);
      if left[i].last < right[j].last {
        i := i + 1;
      } else {
        j := j + 1;
      }
    }
    IntersectionMeaning(left, right);
  }

  lemma ContainsFirst(ranges: seq<Span>, i: nat, line: int)
    requires i < |ranges|
    ensures Contains(ranges[i..], line) <==>
            ranges[i].first <= line <= ranges[i].last || Contains(ranges[i + 1..], line)
  {
    if Contains(ranges[i..], line) {
      var k :| 0 <= k < |ranges| - i && ranges[i..][k].first <= line <= ranges[i..][k].last;
      if k > 0 {
        assert ranges[i + 1..][k - 1] == ranges[i..][k];
      }
    }
    if ranges[i].first <= line <= ranges[i].last {
      assert ranges[i..][0] == ranges[i];
    }
    if Contains(ranges[i + 1..], line) {
      var k :| 0 <= k < |ranges| - i - 1 && ranges[i + 1..][k].first <= line <= ranges[i + 1..][k].last;
      assert ranges[i..][k + 1] == ranges[i + 1..][k];
    }
  }

  lemma ContainsAppend(ranges: seq<Span>, span: Span, line: int)
    ensures Contains(ranges + [span], line) <==> Contains(ranges, line) || span.first <= line <= span.last
  {
    var all := ranges + [span];
    if Contains(ranges, line) {
      var k :| 0 <= k < |ranges| && ranges[k].first <= line <= ranges[k].last;
      assert all[k] == ranges[k];
    }
    if span.first <= line <= span.last {
      assert all[|ranges|] == span;
    }
  }

  predicate SpanLe(a: Span, b: Span) {
    a.first < b.first || (a.first == b.first && a.last <= b.last)
  }

  /** The next sorted range either extends the last one or follows it. */
  function Merge(done: seq<Span>, next: Span): seq<Span> {
    if done != [] && next.first <= done[|done| - 1].last + 1 then
      var previous := done[|done| - 1];
      done[|done| - 1 := Span(previous.first, if next.last > previous.last then next.last else previous.last)]
    else done + [next]
  }

  /** Sorted ranges merged from the left; touching ranges become one. */
  function Compact(ranges: seq<Span>): seq<Span> {
    if ranges == [] then []
    else Merge(Compact(ranges[..|ranges| - 1]), ranges[|ranges| - 1])
  }

  /** The ranges that normalization leaves behind. */
  function NormalForm(ranges: seq<Span>): seq<Span> {
    Compact(Sort(ranges, SpanLe))
  }

  lemma CompactNext(ranges: seq<Span>, next: nat)
    requires next < |ranges|
    ensures Compact(ranges[..next + 1]) == Merge(Compact(ranges[..next]), ranges[next])
  {
    assert ranges[..next + 1][..next] == ranges[..next];
  }

  lemma MergeNormalizes(done: seq<Span>, next: Span)
    requires Normalized(done) && next.first <= next.last
    requires done != [] ==> done[|done| - 1].first <= next.first
    ensures Normalized(Merge(done, next)) && |Merge(done, next)| <= |done| + 1
    ensures Merge(done, next) != [] && Merge(done, next)[|Merge(done, next)| - 1].first <= next.first
  {
    if done != [] && done[|done| - 1].last + 1 < next.first {
      forall k | 0 <= k < |done| ensures done[k].last + 1 < next.first {
        if k < |done| - 1 {
          assert done[k].last + 1 < done[|done| - 1].first;
        }
      }
    }
  }

  lemma MergeSelectsBoth(done: seq<Span>, next: Span, line: int)
    requires next.first <= next.last
    requires done != [] ==> done[|done| - 1].first <= next.first && done[|done| - 1].first <= done[|done| - 1].last
    ensures Contains(Merge(done, next), line) <==> Contains(done, line) || next.first <= line <= next.last
  {
    if done != [] && next.first <= done[|done| - 1].last + 1 {
      var before, previous := done[..|done| - 1], done[|done| - 1];
      var merged := Merge(done, next)[|done| - 1];
      assert done == before + [previous] && Merge(done, next) == before + [merged];
      ContainsAppend(before, previous, line);
      ContainsAppend(before, merged, line);
    } else {
      ContainsAppend(done, next, line);
    }
  }

  lemma {:induction false} CompactNormalizes(ranges: seq<Span>)
    requires Sorted(ranges, SpanLe)
    requires forall i :: 0 <= i < |ranges| ==> ranges[i].first <= ranges[i].last
    ensures |Compact(ranges)| <= |ranges|
    ensures Normalized(Compact(ranges))
    ensures ranges != [] ==> Compact(ranges) != [] && Compact(ranges)[|Compact(ranges)| - 1].first <= ranges[|ranges| - 1].first
  {
    if ranges != [] {
      var init := ranges[..|ranges| - 1];
      CompactNormalizes(init);
      assert init != [] ==> SpanLe(init[|init| - 1], ranges[|ranges| - 1]);
      MergeNormalizes(Compact(init), ranges[|ranges| - 1]);
    }
  }

  lemma {:induction false} CompactKeepsLines(ranges: seq<Span>, line: int)
    requires Sorted(ranges, SpanLe)
    requires forall i :: 0 <= i < |ranges| ==> ranges[i].first <= ranges[i].last
    ensures Contains(Compact(ranges), line) <==> Contains(ranges, line)
  {
    if ranges != [] {
      var init, next := ranges[..|ranges| - 1], ranges[|ranges| - 1];
      CompactKeepsLines(init, line);
      CompactNormalizes(init);
      assert init != [] ==> SpanLe(init[|init| - 1], next);
      MergeSelectsBoth(Compact(init), next, line);
      assert ranges == init + [next];
      ContainsAppend(init, next, line);
    }
  }

  /** Normalization keeps exactly the selected lines, in canonical shape. */
  lemma NormalFormMeaning(ranges: seq<Span>)
    requires forall i :: 0 <= i < |ranges| ==> ranges[i].first <= ranges[i].last
    ensures Normalized(NormalForm(ranges)) && |NormalForm(ranges)| <= |ranges|
    ensures forall line :: Contains(NormalForm(ranges), line) <==> Contains(ranges, line)
  {
    hide Sort, Compact, Normalized, Contains;
    var sorted := Sort(ranges, SpanLe);
    SortKeepsMembers(ranges, SpanLe);
    forall i | 0 <= i < |sorted| ensures sorted[i].first <= sorted[i].last {
      assert sorted[i] in ranges;
    }
    CompactNormalizes(sorted);
    forall line ensures Contains(NormalForm(ranges), line) <==> Contains(ranges, line) {
      CompactKeepsLines(sorted, line);
      SameMembersSelectAlike(sorted, ranges, line);
      SameMembersSelectAlike(ranges, sorted, line);
    }
  }

  lemma SameMembersSelectAlike(a: seq<Span>, b: seq<Span>, line: int)
    requires forall x :: x in a ==> x in b
    ensures Contains(a, line) ==> Contains(b, line)
  {
    if Contains(a, line) {
      var k :| 0 <= k < |a| && a[k].first <= line <= a[k].last;
      assert a[k] in b;
    }
  }

  lemma FirstRange(ranges: seq<Span>, line: int)
    requires Normalized(ranges) && ranges != []
    ensures ranges[0].first <= line <= ranges[0].last ==> Contains(ranges, line)
    ensures line < ranges[0].first || line == ranges[0].last + 1 ==> !Contains(ranges, line)
  {
    ContainsFirst(ranges, 0, line);
  }

  lemma BeforeLaterRanges(ranges: seq<Span>, line: int)
    requires Normalized(ranges) && ranges != [] && line <= ranges[0].last
    ensures !Contains(ranges[1..], line)
  {
  }

  lemma AppendRange(ranges: seq<Span>, span: Span)
    requires Normalized(ranges) && span.first <= span.last
    requires ranges != [] ==> ranges[|ranges| - 1].last + 1 < span.first
    ensures Normalized(ranges + [span])
  {
    forall k | 0 <= k < |ranges| ensures ranges[k].last + 1 < span.first {
      if k < |ranges| - 1 {
        assert ranges[k].last + 1 < ranges[|ranges| - 1].first;
      }
    }
  }

  lemma FirstRangesEqual(a: seq<Span>, b: seq<Span>)
    requires Normalized(a) && Normalized(b) && a != [] && b != []
    requires forall line :: Contains(a, line) <==> Contains(b, line)
    ensures a[0] == b[0]
  {
    FirstRange(a, a[0].first);
    FirstRange(b, a[0].first);
    FirstRange(a, b[0].first);
    FirstRange(b, b[0].first);
    FirstRange(a, a[0].last + 1);
    FirstRange(b, a[0].last + 1);
    FirstRange(a, b[0].last + 1);
    FirstRange(b, b[0].last + 1);
  }

  lemma RestOfRanges(ranges: seq<Span>, line: int)
    requires Normalized(ranges) && ranges != []
    ensures Normalized(ranges[1..])
    ensures Contains(ranges[1..], line) <==> Contains(ranges, line) && ranges[0].last < line
  {
    ContainsFirst(ranges, 0, line);
    if line <= ranges[0].last {
      BeforeLaterRanges(ranges, line);
    }
  }

  /** One selection of lines has one normalized form. */
  lemma {:induction false} NormalizedIsCanonical(a: seq<Span>, b: seq<Span>)
    requires Normalized(a) && Normalized(b)
    requires forall line :: Contains(a, line) <==> Contains(b, line)
    ensures a == b
  {
    if a == [] || b == [] {
      if a != [] { FirstRange(a, a[0].first); }
      if b != [] { FirstRange(b, b[0].first); }
    } else {
      FirstRangesEqual(a, b);
      RestOfRanges(a, 0);
      RestOfRanges(b, 0);
      forall line ensures Contains(a[1..], line) <==> Contains(b[1..], line) {
        RestOfRanges(a, line);
        RestOfRanges(b, line);
      }
      NormalizedIsCanonical(a[1..], b[1..]);
      assert a == [a[0]] + a[1..] && b == [b[0]] + b[1..];
    }
  }

  /** The union of two selections, renormalized. */
  lemma UnionMeaning(a: seq<Span>, b: seq<Span>)
    requires Normalized(a) && Normalized(b)
    ensures Normalized(NormalForm(a + b))
    ensures forall line :: Contains(NormalForm(a + b), line) <==> Contains(a, line) || Contains(b, line)
  {
    NormalFormMeaning(a + b);
    forall line ensures Contains(NormalForm(a + b), line) <==> Contains(a, line) || Contains(b, line) {
      ContainsConcat(a, b, line);
    }
  }

  lemma OneRange(span: Span)
    requires span.first <= span.last
    ensures Normalized([span]) && forall line :: Contains([span], line) <==> span.first <= line <= span.last
  {
    forall line ensures Contains([span], line) <==> span.first <= line <= span.last {
      ContainsAppend([], span, line);
      assert [] + [span] == [span];
    }
  }

  /** What is left of a range on both sides of a cut. */
  function Trim(span: Span, cut: Span): seq<Span> {
    if cut.last < span.first || span.last < cut.first then [span]
    else
      (if span.first < cut.first then [Span(span.first, cut.first - 1)] else [])
      + (if cut.last < span.last then [Span(cut.last + 1, span.last)] else [])
  }

  /** The selection without one interval. */
  function Without(ranges: seq<Span>, cut: Span): seq<Span> {
    if ranges == [] then [] else Without(ranges[..|ranges| - 1], cut) + Trim(ranges[|ranges| - 1], cut)
  }

  lemma TrimMeaning(span: Span, cut: Span, line: int)
    requires span.first <= span.last && cut.first <= cut.last
    ensures Normalized(Trim(span, cut))
    ensures forall i :: 0 <= i < |Trim(span, cut)| ==> span.first <= Trim(span, cut)[i].first && Trim(span, cut)[i].last <= span.last
    ensures Contains(Trim(span, cut), line) <==> span.first <= line <= span.last && !(cut.first <= line <= cut.last)
  {
    var trimmed := Trim(span, cut);
    if span.first <= line <= span.last && !(cut.first <= line <= cut.last) {
      if line < cut.first || trimmed == [span] {
        assert trimmed[0].first <= line <= trimmed[0].last;
      } else {
        assert trimmed[|trimmed| - 1].first <= line <= trimmed[|trimmed| - 1].last;
      }
    }
  }

  lemma JoinNormalized(a: seq<Span>, b: seq<Span>, at: int)
    requires Normalized(a) && Normalized(b)
    requires (forall i :: 0 <= i < |a| ==> a[i].last + 1 < at) && (forall i :: 0 <= i < |b| ==> at <= b[i].first)
    ensures Normalized(a + b)
  {
  }

  lemma {:induction false} WithoutNormalized(ranges: seq<Span>, cut: Span)
    requires Normalized(ranges) && cut.first <= cut.last
    ensures Normalized(Without(ranges, cut))
    ensures forall i :: 0 <= i < |Without(ranges, cut)| ==> ranges != [] && Without(ranges, cut)[i].last <= ranges[|ranges| - 1].last
  {
    if ranges != [] {
      var init, last := ranges[..|ranges| - 1], ranges[|ranges| - 1];
      WithoutNormalized(init, cut);
      TrimMeaning(last, cut, 0);
      assert init != [] ==> init[|init| - 1].last + 1 < last.first;
      hide Trim;
      JoinNormalized(Without(init, cut), Trim(last, cut), last.first);
    }
  }

  /** Removing an interval leaves exactly the selected lines outside it, in canonical shape. */
  lemma {:induction false} WithoutMeaning(ranges: seq<Span>, cut: Span, line: int)
    requires Normalized(ranges) && cut.first <= cut.last
    ensures Normalized(Without(ranges, cut))
    ensures Contains(Without(ranges, cut), line) <==> Contains(ranges, line) && !(cut.first <= line <= cut.last)
  {
    WithoutNormalized(ranges, cut);
    if ranges != [] {
      var init, last := ranges[..|ranges| - 1], ranges[|ranges| - 1];
      WithoutMeaning(init, cut, line);
      TrimMeaning(last, cut, line);
      assert ranges == init + [last];
      hide Trim, Contains;
      ContainsConcat(Without(init, cut), Trim(last, cut), line);
      ContainsAppend(init, last, line);
    }
  }

  /** Everything kept so far ends, with a gap, before a line. */
  ghost predicate EndsBefore(ranges: seq<Span>, line: int) {
    forall i :: 0 <= i < |ranges| ==> ranges[i].last + 1 < line
  }

  lemma AppendApart(ranges: seq<Span>, span: Span)
    requires Normalized(ranges) && EndsBefore(ranges, span.first) && span.first <= span.last
    ensures Normalized(ranges + [span])
    ensures forall line :: span.last + 1 < line ==> EndsBefore(ranges + [span], line)
  {
  }

  /** Between two neighbouring removed ranges nothing is removed. */
  lemma NotRemoved(other: seq<Span>, scan: nat, line: int)
    requires Normalized(other) && scan <= |other|
    requires scan > 0 ==> other[scan - 1].last < line
    requires scan < |other| ==> line < other[scan].first
    ensures !Contains(other, line)
  {
    forall k | 0 <= k < |other| ensures !(other[k].first <= line <= other[k].last) {
      if k < scan - 1 {
        assert other[k].last < other[scan - 1].first;
      } else if k > scan {
        assert other[scan].last < other[k].first;
      }
    }
  }

  /** What `done` and the kept part of one range select, up to but not including a line. */
  ghost predicate KeptUpTo(kept: seq<Span>, done: seq<Span>, span: Span, other: seq<Span>, upto: int) {
    forall line :: Contains(kept, line) <==>
      Contains(done, line) || (span.first <= line < upto && line <= span.last && !Contains(other, line))
  }

  /** One removed range further: the lines in front of it are kept, its own lines are not. */
  lemma KeepBefore(kept: seq<Span>, done: seq<Span>, span: Span, other: seq<Span>, current: int, scan: nat)
    requires Normalized(other) && scan < |other| && (scan > 0 ==> other[scan - 1].last < current)
    requires span.first <= current <= other[scan].last && other[scan].first <= span.last
    requires KeptUpTo(kept, done, span, other, current)
    ensures KeptUpTo(if current < other[scan].first then kept + [Span(current, other[scan].first - 1)] else kept, done, span, other,
              other[scan].last + 1)
  {
    var removed := other[scan];
    var more := if current < removed.first then kept + [Span(current, removed.first - 1)] else kept;
    forall line
      ensures Contains(more, line) <==>
        Contains(done, line) || (span.first <= line < removed.last + 1 && line <= span.last && !Contains(other, line))
    {
      hide Contains, Normalized;
      ContainsAppend(kept, Span(current, removed.first - 1), line);
      if current <= line < removed.first {
        NotRemoved(other, scan, line);
      } else if removed.first <= line <= removed.last {
        ContainsAt(other, scan, line);
      }
    }
  }

  lemma ContainsAt(ranges: seq<Span>, i: nat, line: int)
    requires i < |ranges| && ranges[i].first <= line <= ranges[i].last
    ensures Contains(ranges, line)
  {
  }

  /** Behind the last removed range that matters, the rest of the range is kept. */
  lemma KeepRest(kept: seq<Span>, done: seq<Span>, span: Span, other: seq<Span>, current: int, scan: nat)
    requires Normalized(other) && scan <= |other| && (scan > 0 ==> other[scan - 1].last < current)
    requires span.first <= current <= span.last && (scan < |other| ==> span.last < other[scan].first)
    requires KeptUpTo(kept, done, span, other, current)
    ensures KeptUpTo(kept + [Span(current, span.last)], done, span, other, span.last + 1)
  {
    var more := kept + [Span(current, span.last)];
    forall line
      ensures Contains(more, line) <==>
        Contains(done, line) || (span.first <= line < span.last + 1 && line <= span.last && !Contains(other, line))
    {
      hide Contains, Normalized;
      ContainsAppend(kept, Span(current, span.last), line);
      if current <= line <= span.last {
        NotRemoved(other, scan, line);
      }
    }
  }

  /** Take the ranges from `from` on out of one range, and append what is left. */
  method SubtractFrom(span: Span, other: seq<Span>, from: nat, done: seq<Span>) returns (kept: seq<Span>)
    requires Normalized(other) && from <= |other| && (from > 0 ==> other[from - 1].last < span.first)
    requires from < |other| ==> span.first <= other[from].last
    requires span.first <= span.last && Normalized(done) && EndsBefore(done, span.first)
    ensures Normalized(kept) && EndsBefore(kept, span.last + 2)
    ensures forall line :: Contains(kept, line) <==>
      Contains(done, line) || (span.first <= line <= span.last && !Contains(other, line))
  {
    hide Contains;
    kept := done;
    var current, scan := span.first, from;
    while scan < |other| && other[scan].first <= span.last && current <= span.last
      invariant from <= scan <= |other| && span.first <= current
      invariant scan > 0 ==> other[scan - 1].last < current
      invariant scan < |other| ==> current <= other[scan].last
      invariant Normalized(kept) && KeptUpTo(kept, done, span, other, current)
      invariant EndsBefore(kept, current) && EndsBefore(kept, span.last + 2)
    {
      KeepBefore(kept, done, span, other, current, scan);
      if other[scan].first > current {
        AppendApart(kept, Span(current, other[scan].first - 1));
        kept := kept + [Span(current, other[scan].first - 1)];
      }
      current := if other[scan].last + 1 > current then other[scan].last + 1 else current;
      scan := scan + 1;
    }
    if current <= span.last {
      KeepRest(kept, done, span, other, current, scan);
      AppendApart(kept, Span(current, span.last));
      kept := kept + [Span(current, span.last)];
    }
  }

  /** The selection without the lines of another one. */
  method Difference(ranges: seq<Span>, other: seq<Span>) returns (remaining: seq<Span>)
    requires Normalized(ranges) && Normalized(other)
    ensures Normalized(remaining)
    ensures forall line :: Contains(remaining, line) <==> Contains(ranges, line) && !Contains(other, line)
  {
    if ranges == [] || other == [] {
      return ranges;
    }
    hide Contains;
    remaining := [];
    var i, otherIndex := 0, 0;
    ContainsNone();
    assert ranges[..0] == [];
    while i < |ranges|
      invariant 0 <= i <= |ranges| && 0 <= otherIndex <= |other|
      invariant i < |ranges| && otherIndex > 0 ==> other[otherIndex - 1].last < ranges[i].first
      invariant Normalized(remaining) && (i < |ranges| ==> EndsBefore(remaining, ranges[i].first))
      invariant forall line :: Contains(remaining, line) <==> Contains(ranges[..i], line) && !Contains(other, line)
    {
      while otherIndex < |other| && other[otherIndex].last < ranges[i].first
        invariant 0 <= otherIndex <= |other| && (otherIndex > 0 ==> other[otherIndex - 1].last < ranges[i].first)
      {
        otherIndex := otherIndex + 1;
      }
      remaining := SubtractFrom(ranges[i], other, otherIndex, remaining);
      assert ranges[..i + 1] == ranges[..i] + [ranges[i]];
      forall line ensures Contains(ranges[..i + 1], line) <==> Contains(ranges[..i], line) || ranges[i].first <= line <= ranges[i].last {
        ContainsAppend(ranges[..i], ranges[i], line);
      }
      i := i + 1;
    }
    assert ranges[..i] == ranges;
  }

  lemma ContainsNone()
    ensures forall line :: !Contains([], line)
  {
  }

  predicate IsSubset(a: seq<Span>, b: seq<Span>) {
    forall i :: 0 <= i < |a| ==> forall line :: a[i].first <= line <= a[i].last ==> Contains(b, line)
  }

  /** One selection lies inside another exactly when every line of the one is a line of the other. */
  lemma SubsetMeaning(a: seq<Span>, b: seq<Span>)
    ensures IsSubset(a, b) <==> forall line :: Contains(a, line) ==> Contains(b, line)
  {
    if forall line :: Contains(a, line) ==> Contains(b, line) {
      forall i, line | 0 <= i < |a| && a[i].first <= line <= a[i].last ensures Contains(b, line) {
        assert Contains(a, line);
      }
    }
  }

  /** A growable record vector of ranges with in-place normalization. */
  class MappedRanges {
    var slots: array<Span>
    var count: nat

    ghost predicate Valid()
      reads this
    {
      count <= slots.Length
    }

    function Ranges(): seq<Span>
      reads this, slots
      requires Valid()
    {
      slots[..count]
    }

    constructor (capacity: nat)
      ensures Valid() && fresh(slots)
      ensures slots.Length == capacity && Ranges() == []
    {
      slots := new Span[capacity](_ => Span(0, 0));
      count := 0;
    }

    method Append(span: Span)
      requires Valid() && count < slots.Length
      modifies this`count, slots
      ensures Valid() && slots == old(slots)
      ensures Ranges() == old(Ranges()) + [span]
    {
      slots[count] := span;
      count := count + 1;
    }

    /** The sort step; see MappedRecords for why its result is all that matters. */
    method SortInPlace()
      requires Valid()
      modifies slots
      ensures Ranges() == Sort(old(Ranges()), SpanLe)
    {
      var sorted := Sort(Ranges(), SpanLe);
      forall i | 0 <= i < count {
        slots[i] := sorted[i];
      }
      assert Ranges() == sorted;
    }

    /** One step of the compaction: the slots that are still to be read stay as they are. */
    method PlaceSpan(retained: nat, next: nat, span: Span) returns (kept: nat)
      requires Valid() && retained <= next < count
      modifies slots
      ensures kept <= next + 1 && slots[..kept] == Merge(old(slots[..retained]), span)
      ensures forall k :: next < k < slots.Length ==> slots[k] == old(slots[k])
    {
      kept := retained;
      if retained > 0 && span.first <= slots[retained - 1].last + 1 {
        var previous := slots[retained - 1];
        slots[retained - 1] := Span(previous.first, if span.last > previous.last then span.last else previous.last);
      } else {
        slots[retained] := span;
        kept := retained + 1;
      }
    }

    /** Compaction reads each slot before it can be overwritten. */
    method CompactInPlace()
      requires Valid()
      modifies this`count, slots
      ensures Valid() && slots == old(slots)
      ensures Ranges() == Compact(old(Ranges()))
    {
      ghost var sorted := Ranges();
      var retained, next := 0, 0;
      while next < count
        invariant 0 <= retained <= next <= count == |sorted| <= slots.Length
        // Slots that are still to be read hold what the sort left there.
        invariant forall k :: next <= k < count ==> slots[k] == sorted[k]
        invariant slots[..retained] == Compact(sorted[..next])
      {
        CompactNext(sorted, next);
        retained := PlaceSpan(retained, next, slots[next]);
        next := next + 1;
      }
      assert sorted[..next] == sorted;
      count := retained;
    }

    method NormalizeInPlace()
      requires Valid()
      modifies this`count, slots
      ensures Valid() && slots == old(slots)
      ensures Ranges() == NormalForm(old(Ranges()))
    {
      if count > 1 {
        SortInPlace();
      } else {
        SortedStays(Ranges(), SpanLe);
      }
      CompactInPlace();
    }
  }
}
