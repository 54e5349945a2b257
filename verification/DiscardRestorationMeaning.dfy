/** What restoration guarantees about the text it returns. */
module DiscardRestorationMeaning {
  import opened Wrappers
  import opened MappedRecords
  import opened Sequences
  import opened Tags
  import opened Realized
  import opened DiscardReversal
  import opened DiscardRestoration

  // ------------------------------------------------------- nothing is lost

  lemma {:induction false} SpliceKeepsOriginals(entries: seq<Entry>, work: Restoration, insertions: seq<Insertion>, count: nat, upto: nat)
    requires work.Valid() && Planned(work, insertions) && Ascending(insertions, |entries|)
    requires count <= |insertions| && upto <= |entries| && (count > 0 ==> insertions[count - 1].boundary <= upto)
    ensures Originals(SpliceTo(entries, work, insertions, count, upto)) == entries[..upto]
  {
    hide Tag, Unowned, Originals;
    if count == 0 {
      OriginalsOfTag(entries[..upto], false);
    } else {
      var last := insertions[count - 1];
      SpliceKeepsOriginals(entries, work, insertions, count - 1, last.boundary);
      var before, added := SpliceTo(entries, work, insertions, count - 1, last.boundary), Unowned(work.Content(last.claim).value);
      OriginalsAppend(before, Tag(added, true));
      OriginalsOfTag(added, true);
      OriginalsAppend(before + Tag(added, true), Tag(entries[last.boundary..upto], false));
      OriginalsOfTag(entries[last.boundary..upto], false);
      assert entries[..upto] == entries[..last.boundary] + entries[last.boundary..upto];
    }
  }

  /** Removing the inserted lines gives back the input entries, provenance included. */
  lemma RestorationKeepsEntries(entries: seq<Entry>, work: Restoration)
    requires work.Valid() && Restore(entries, work).Ok?
    ensures RestoreTagged(entries, work).Ok?
    ensures Untag(RestoreTagged(entries, work).value) == Restore(entries, work).value
    ensures Originals(RestoreTagged(entries, work).value) == entries
  {
    hide Untag, Originals;
    var plan := PlanUpTo(entries, work, |work.claims|).value;
    var insertions := Sort(plan.insertions, InsertionLe);
    InsertionLeIsTotal();
    PlanIsPlanned(entries, work, |work.claims|);
    SortedIsPlanned(work, plan.insertions);
    SortedAscends(insertions, |entries|);
    SpliceKeepsOriginals(entries, work, insertions, |insertions|, |entries|);
    assert entries[..|entries|] == entries;
  }

  // ------------------------------------------------------ splicing in general

  lemma SpliceFurther(entries: seq<Entry>, work: Restoration, insertions: seq<Insertion>, count: nat, upto: nat, further: nat)
    requires work.Valid() && Planned(work, insertions) && Ascending(insertions, |entries|)
    requires count <= |insertions| && upto <= further <= |entries| && (count > 0 ==> insertions[count - 1].boundary <= upto)
    ensures Untag(SpliceTo(entries, work, insertions, count, further))
         == Untag(SpliceTo(entries, work, insertions, count, upto)) + entries[upto..further]
  {
    hide Untag, Tag, Unowned;
    var tail := Tag(entries[upto..further], false);
    TagJoins(entries, if count == 0 then 0 else insertions[count - 1].boundary, upto, further);
    assert entries[0..upto] == entries[..upto] && entries[0..further] == entries[..further];
    if count > 0 {
      var last := insertions[count - 1];
      var before := SpliceTo(entries, work, insertions, count - 1, last.boundary) + Tag(Unowned(work.Content(last.claim).value), true);
      Reassociate(before, Tag(entries[last.boundary..upto], false), tail);
    }
    UntagAppend(SpliceTo(entries, work, insertions, count, upto), tail);
    UntagTag(entries[upto..further], false);
  }

  lemma TagJoins(entries: seq<Entry>, from: nat, middle: nat, upto: nat)
    requires from <= middle <= upto <= |entries|
    ensures Tag(entries[from..upto], false) == Tag(entries[from..middle], false) + Tag(entries[middle..upto], false)
  {
  }

  /** Later insertions do not change an earlier part of the splice. */
  lemma {:induction false} SplicePrefix(entries: seq<Entry>, work: Restoration, insertions: seq<Insertion>, longer: seq<Insertion>, count: nat, upto: nat)
    requires work.Valid() && Planned(work, insertions) && Ascending(insertions, |entries|)
    requires Planned(work, longer) && Ascending(longer, |entries|)
    requires count <= |insertions| && count <= |longer| && upto <= |entries| && (count > 0 ==> insertions[count - 1].boundary <= upto)
    requires forall i :: 0 <= i < count ==> insertions[i] == longer[i]
    ensures SpliceTo(entries, work, insertions, count, upto) == SpliceTo(entries, work, longer, count, upto)
  {
    hide Tag, Unowned;
    if count > 0 {
      SplicePrefix(entries, work, insertions, longer, count - 1, insertions[count - 1].boundary);
    }
  }

  lemma ContentsAppend(a: seq<Entry>, b: seq<Entry>)
    ensures Contents(a + b) == Contents(a) + Contents(b)
  {
  }

  lemma ContentsOfUnowned(lines: seq<Line>)
    ensures Contents(Unowned(lines)) == lines
  {
  }

  lemma ContentsSlice(entries: seq<Entry>, from: nat, upto: nat)
    requires from <= upto <= |entries|
    ensures Contents(entries[from..upto]) == Contents(entries)[from..upto]
  {
  }

  // ----------------------------------------------------- claims on one anchor

  /** The text that a claim brings back: the recorded index lines, or else its own old text. */
  function TextOf(work: Restoration, k: nat): seq<Line>
    requires work.Valid() && k < |work.claims|
  {
    if work.records.Some? && work.records.value[k].flag == 3 && work.trusted.Some? then
      work.trusted.value[work.records.value[k].first..work.records.value[k].last]
    else work.claims[k].content
  }

  /** No claim has a replacement record that would move it or leave it out. */
  ghost predicate PlainRecords(work: Restoration)
    requires work.Valid()
  {
    work.records.Some? ==> forall k :: 0 <= k < |work.claims| ==>
      var record := work.records.value[k];
      || record.flag == 0 || (record.flag == 2 && record.first == 0 && record.last == 0)
      || (record.flag == 3 && work.trusted.Some?)
  }

  lemma PlainClaim(entries: seq<Entry>, work: Restoration, k: nat)
    requires work.Valid() && PlainRecords(work) && k < |work.claims|
    ensures !work.Skips(k) && work.Content(k) == Ok(TextOf(work, k))
    ensures ReplacementBoundary(entries, work, k) == Ok(None)
  {
  }

  /** The anchor is the start of the file, or exactly one realized entry. */
  ghost predicate UniqueAnchor(entries: seq<Entry>, anchor: nat, boundary: nat) {
    if anchor == 0 then boundary == 0
    else
      && 1 <= boundary <= |entries| && entries[boundary - 1].provenance.source == anchor
      && forall i :: 0 <= i < |entries| && i != boundary - 1 ==> entries[i].provenance.source != anchor
  }

  lemma {:induction false} UniqueRecord(entries: seq<Entry>, anchor: nat, boundary: nat, count: nat)
    requires anchor != 0 && UniqueAnchor(entries, anchor, boundary) && count <= |entries|
    ensures OnLine(RecordsUpTo(entries, count), anchor)
         == if boundary <= count then [SourceBoundary(anchor, boundary, entries[boundary - 1].provenance.claimed)] else []
  {
    if count > 0 {
      UniqueRecord(entries, anchor, boundary, count - 1);
      var p, before := entries[count - 1].provenance, RecordsUpTo(entries, count - 1);
      if p.source == 0 {
        assert before + [] == before;
      } else {
        OnLineAppend(before, SourceBoundary(p.source, count, p.claimed), anchor);
      }
    }
  }

  lemma UniqueAnchorResolves(entries: seq<Entry>, anchor: nat, boundary: nat)
    requires UniqueAnchor(entries, anchor, boundary)
    ensures AnchorBoundary(entries, anchor) == Ok(boundary) && boundary <= |entries|
  {
    if anchor != 0 {
      UniqueRecord(entries, anchor, boundary, |entries|);
    }
  }

  lemma {:induction false} NoRecord(entries: seq<Entry>, anchor: nat, count: nat)
    requires anchor != 0 && count <= |entries| && forall i :: 0 <= i < |entries| ==> entries[i].provenance.source != anchor
    ensures OnLine(RecordsUpTo(entries, count), anchor) == []
  {
    if count > 0 {
      NoRecord(entries, anchor, count - 1);
      var p, before := entries[count - 1].provenance, RecordsUpTo(entries, count - 1);
      if p.source == 0 {
        assert before + [] == before;
      } else {
        OnLineAppend(before, SourceBoundary(p.source, count, p.claimed), anchor);
      }
    }
  }

  /** A line that no entry comes from is missing. */
  lemma AbsentAnchorIsMissing(entries: seq<Entry>, anchor: nat)
    requires anchor != 0 && forall i :: 0 <= i < |entries| ==> entries[i].provenance.source != anchor
    ensures AnchorBoundary(entries, anchor) == Err(MissingAnchor(anchor))
  {
    NoRecord(entries, anchor, |entries|);
  }

  /** Old contents of the first `count` claims, in recorded order. */
  function JoinedClaims(work: Restoration, count: nat): seq<Line>
    requires work.Valid() && count <= |work.claims|
  {
    if count == 0 then [] else JoinedClaims(work, count - 1) + TextOf(work, count - 1)
  }

  ghost predicate SharedAnchor(entries: seq<Entry>, work: Restoration, anchor: nat, boundary: nat)
    requires work.Valid()
  {
    && PlainRecords(work) && UniqueAnchor(entries, anchor, boundary)
    && forall k :: 0 <= k < |work.claims| ==> work.claims[k].anchor == anchor
  }

  lemma SharedPlanStep(entries: seq<Entry>, work: Restoration, anchor: nat, boundary: nat, plan: Plan, k: nat)
    requires work.Valid() && SharedAnchor(entries, work, anchor, boundary) && k < |work.claims|
    requires plan.previous == (if k == 0 then None else Some(anchor)) && (k == 0 ==> plan.offset == 0)
    ensures var content := TextOf(work, k);
      PlanClaim(entries, work, plan, k) == Ok(
        if PresentAt(Contents(entries), boundary + plan.offset, content)
        then Plan(plan.insertions, Some(anchor), plan.offset + |content|)
        else Plan(plan.insertions + [Insertion(boundary + plan.offset, k)], Some(anchor), plan.offset))
  {
    hide AnchorBoundary, Contents, ReplacementBoundary;
    PlainClaim(entries, work, k);
    UniqueAnchorResolves(entries, anchor, boundary);
  }

  /** The insertions planned for claims that share one anchor. */
  ghost predicate SharedOrder(entries: seq<Entry>, work: Restoration, anchor: nat, boundary: nat, plan: Plan, k: nat)
    requires work.Valid() && k <= |work.claims|
  {
    && plan.previous == (if k == 0 then None else Some(anchor)) && (k == 0 ==> plan.offset == 0)
    && boundary + plan.offset <= |entries|
    && (forall i :: 0 <= i < |plan.insertions| ==>
         && boundary <= plan.insertions[i].boundary <= boundary + plan.offset
         && plan.insertions[i].claim < k)
    && Planned(work, plan.insertions) && Ascending(plan.insertions, |entries|) && Sorted(plan.insertions, InsertionLe)
  }

  /** The text of the splice up to an entry, all insertions done. */
  ghost predicate SpliceReads(entries: seq<Entry>, work: Restoration, insertions: seq<Insertion>, upto: nat, text: seq<Line>)
    requires work.Valid() && Planned(work, insertions) && Ascending(insertions, |entries|)
    requires upto <= |entries| && (insertions != [] ==> insertions[|insertions| - 1].boundary <= upto)
  {
    Contents(Untag(SpliceTo(entries, work, insertions, |insertions|, upto))) == text
  }

  /** The state of planning for claims that share one anchor: what stands up to the offset is their old contents. */
  ghost predicate SharedState(entries: seq<Entry>, work: Restoration, anchor: nat, boundary: nat, plan: Plan, k: nat)
    requires work.Valid() && k <= |work.claims|
  {
    && SharedOrder(entries, work, anchor, boundary, plan, k)
    && SpliceReads(entries, work, plan.insertions, boundary + plan.offset, Contents(entries)[..boundary] + JoinedClaims(work, k))
  }

  lemma SharedPresent(entries: seq<Entry>, work: Restoration, anchor: nat, boundary: nat, plan: Plan, k: nat)
    requires work.Valid() && SharedAnchor(entries, work, anchor, boundary) && k < |work.claims|
    requires SharedState(entries, work, anchor, boundary, plan, k)
    requires PresentAt(Contents(entries), boundary + plan.offset, TextOf(work, k))
    ensures SharedState(entries, work, anchor, boundary, Plan(plan.insertions, Some(anchor), plan.offset + |TextOf(work, k)|), k + 1)
  {
    hide Contents, SpliceReads, PresentAt, SharedAnchor, Planned, Ascending, Sorted;
    var content, at := TextOf(work, k), boundary + plan.offset;
    PresentFits(entries, at, content);
    SpliceReadsFurther(entries, work, plan.insertions, at, content, Contents(entries)[..boundary] + JoinedClaims(work, k));
    Reassociate(Contents(entries)[..boundary], JoinedClaims(work, k), content);
  }

  lemma SpliceReadsFurther(entries: seq<Entry>, work: Restoration, insertions: seq<Insertion>, at: nat, content: seq<Line>, text: seq<Line>)
    requires work.Valid() && Planned(work, insertions) && Ascending(insertions, |entries|)
    requires at + |content| <= |entries| && (insertions != [] ==> insertions[|insertions| - 1].boundary <= at)
    requires PresentAt(Contents(entries), at, content) && SpliceReads(entries, work, insertions, at, text)
    ensures SpliceReads(entries, work, insertions, at + |content|, text + content)
  {
    hide Contents, Untag, SpliceTo, Planned, Ascending;
    SpliceFurther(entries, work, insertions, |insertions|, at, at + |content|);
    ContentsAppend(Untag(SpliceTo(entries, work, insertions, |insertions|, at)), entries[at..at + |content|]);
    ContentsSlice(entries, at, at + |content|);
  }

  lemma PresentFits(entries: seq<Entry>, at: nat, content: seq<Line>)
    requires PresentAt(Contents(entries), at, content)
    ensures at + |content| <= |entries|
  {
  }

  lemma SharedMissingOrder(entries: seq<Entry>, work: Restoration, anchor: nat, boundary: nat, plan: Plan, k: nat)
    requires work.Valid() && SharedAnchor(entries, work, anchor, boundary) && k < |work.claims|
    requires SharedOrder(entries, work, anchor, boundary, plan, k)
    ensures SharedOrder(entries, work, anchor, boundary,
              Plan(plan.insertions + [Insertion(boundary + plan.offset, k)], Some(anchor), plan.offset), k + 1)
  {
    PlainClaim(entries, work, k);
    AppendSorted(plan.insertions, Insertion(boundary + plan.offset, k), InsertionLe);
  }

  lemma SharedMissing(entries: seq<Entry>, work: Restoration, anchor: nat, boundary: nat, plan: Plan, k: nat)
    requires work.Valid() && SharedAnchor(entries, work, anchor, boundary) && k < |work.claims|
    requires SharedState(entries, work, anchor, boundary, plan, k)
    ensures SharedState(entries, work, anchor, boundary,
              Plan(plan.insertions + [Insertion(boundary + plan.offset, k)], Some(anchor), plan.offset), k + 1)
  {
    hide Contents, SpliceReads, SharedAnchor, SharedOrder;
    var content, at := TextOf(work, k), boundary + plan.offset;
    SharedContent(entries, work, anchor, boundary, k);
    SharedMissingOrder(entries, work, anchor, boundary, plan, k);
    OrderIs(entries, work, anchor, boundary, plan, k);
    OrderIs(entries, work, anchor, boundary, Plan(plan.insertions + [Insertion(at, k)], Some(anchor), plan.offset), k + 1);
    SpliceTextGrows(entries, work, plan.insertions, at, k, Contents(entries)[..boundary] + JoinedClaims(work, k));
    Reassociate(Contents(entries)[..boundary], JoinedClaims(work, k), content);
  }

  lemma SharedContent(entries: seq<Entry>, work: Restoration, anchor: nat, boundary: nat, k: nat)
    requires work.Valid() && SharedAnchor(entries, work, anchor, boundary) && k < |work.claims|
    ensures work.Content(k) == Ok(TextOf(work, k))
  {
    PlainClaim(entries, work, k);
  }

  lemma OrderIs(entries: seq<Entry>, work: Restoration, anchor: nat, boundary: nat, plan: Plan, k: nat)
    requires work.Valid() && k <= |work.claims| && SharedOrder(entries, work, anchor, boundary, plan, k)
    ensures Planned(work, plan.insertions) && Ascending(plan.insertions, |entries|) && boundary + plan.offset <= |entries|
    ensures plan.insertions != [] ==> plan.insertions[|plan.insertions| - 1].boundary <= boundary + plan.offset
  {
    hide Planned, Ascending, Sorted;
  }

  /** One more insertion behind the others adds the claim's content. */
  lemma SpliceTextGrows(entries: seq<Entry>, work: Restoration, insertions: seq<Insertion>, at: nat, k: nat, text: seq<Line>)
    requires work.Valid() && k < |work.claims| && work.Content(k) == Ok(TextOf(work, k)) && at <= |entries|
    requires insertions != [] ==> insertions[|insertions| - 1].boundary <= at
    requires var longer := insertions + [Insertion(at, k)];
      && Planned(work, insertions) && Ascending(insertions, |entries|)
      && Planned(work, longer) && Ascending(longer, |entries|)
    requires SpliceReads(entries, work, insertions, at, text)
    ensures SpliceReads(entries, work, insertions + [Insertion(at, k)], at, text + TextOf(work, k))
  {
    hide Contents, Untag, SpliceTo, Planned;
    var longer, n := insertions + [Insertion(at, k)], |insertions|;
    assert longer[n] == Insertion(at, k);
    assert n > 0 ==> longer[n - 1] == insertions[n - 1];
    SplicePrefix(entries, work, insertions, longer, n, at);
    SpliceAppends(entries, work, longer, n);
    ContentsAppend(Untag(SpliceTo(entries, work, longer, n, at)), Unowned(TextOf(work, k)));
    ContentsOfUnowned(TextOf(work, k));
  }

  lemma {:induction false} SharedPlan(entries: seq<Entry>, work: Restoration, anchor: nat, boundary: nat, k: nat)
    requires work.Valid() && SharedAnchor(entries, work, anchor, boundary) && k <= |work.claims|
    ensures PlanUpTo(entries, work, k).Ok?
    ensures SharedState(entries, work, anchor, boundary, PlanUpTo(entries, work, k).value, k)
  {
    hide SharedState, SharedAnchor, PlanClaim;
    if k == 0 {
      SharedStart(entries, work, anchor, boundary);
    } else {
      SharedPlan(entries, work, anchor, boundary, k - 1);
      var plan := PlanUpTo(entries, work, k - 1).value;
      SharedNext(entries, work, anchor, boundary, plan, k - 1);
    }
  }

  lemma SharedNext(entries: seq<Entry>, work: Restoration, anchor: nat, boundary: nat, plan: Plan, k: nat)
    requires work.Valid() && SharedAnchor(entries, work, anchor, boundary) && k < |work.claims|
    requires SharedState(entries, work, anchor, boundary, plan, k)
    ensures PlanClaim(entries, work, plan, k).Ok?
    ensures SharedState(entries, work, anchor, boundary, PlanClaim(entries, work, plan, k).value, k + 1)
  {
    SharedPlanStep(entries, work, anchor, boundary, plan, k);
    hide *;
    if PresentAt(Contents(entries), boundary + plan.offset, TextOf(work, k)) {
      SharedPresent(entries, work, anchor, boundary, plan, k);
    } else {
      SharedMissing(entries, work, anchor, boundary, plan, k);
    }
  }

  lemma SharedStart(entries: seq<Entry>, work: Restoration, anchor: nat, boundary: nat)
    requires work.Valid() && SharedAnchor(entries, work, anchor, boundary)
    ensures SharedState(entries, work, anchor, boundary, Plan([], None, 0), 0)
  {
    UniqueAnchorResolves(entries, anchor, boundary);
    hide SharedAnchor, Contents, Untag, Tag, AnchorBoundary;
    UntagTag(entries[..boundary], false);
    ContentsSlice(entries, 0, boundary);
    assert entries[0..boundary] == entries[..boundary];
    assert Contents(entries)[0..boundary] == Contents(entries)[..boundary];
    assert Contents(entries)[..boundary] + [] == Contents(entries)[..boundary];
  }

  /** The plan of a restoration whose insertions come out in order. */
  lemma RestoreInOrder(entries: seq<Entry>, work: Restoration)
    requires work.Valid() && PlanUpTo(entries, work, |work.claims|).Ok?
    requires var insertions := PlanUpTo(entries, work, |work.claims|).value.insertions;
      Planned(work, insertions) && Ascending(insertions, |entries|) && Sorted(insertions, InsertionLe)
    ensures var insertions := PlanUpTo(entries, work, |work.claims|).value.insertions;
      Restore(entries, work) == Ok(Untag(SpliceTo(entries, work, insertions, |insertions|, |entries|)))
  {
    hide Untag, SpliceTo;
    InsertionLeIsTotal();
    SortedStays(PlanUpTo(entries, work, |work.claims|).value.insertions, InsertionLe);
  }

  /** Old contents found one behind the other at the boundary, each claim looked for behind those found before it. */
  function FoundUpTo(lines: seq<Line>, boundary: nat, work: Restoration, count: nat): seq<Line>
    requires work.Valid() && count <= |work.claims|
  {
    if count == 0 then []
    else
      var before, content := FoundUpTo(lines, boundary, work, count - 1), TextOf(work, count - 1);
      before + if PresentAt(lines, boundary + |before|, content) then content else []
  }

  lemma {:induction false} FoundIsThere(lines: seq<Line>, boundary: nat, work: Restoration, count: nat)
    requires work.Valid() && count <= |work.claims| && boundary <= |lines|
    ensures PresentAt(lines, boundary, FoundUpTo(lines, boundary, work, count))
  {
    hide TextOf;
    if count > 0 {
      FoundIsThere(lines, boundary, work, count - 1);
      var before, content := FoundUpTo(lines, boundary, work, count - 1), TextOf(work, count - 1);
      var middle := boundary + |before|;
      if PresentAt(lines, middle, content) {
        assert lines[boundary..middle + |content|] == lines[boundary..middle] + lines[middle..middle + |content|];
      }
    }
  }

  lemma {:induction false} OffsetIsFound(entries: seq<Entry>, work: Restoration, anchor: nat, boundary: nat, k: nat)
    requires work.Valid() && SharedAnchor(entries, work, anchor, boundary) && k <= |work.claims|
    ensures PlanUpTo(entries, work, k).Ok?
    ensures PlanUpTo(entries, work, k).value.offset == |FoundUpTo(Contents(entries), boundary, work, k)|
  {
    hide SharedState, SharedAnchor, PlanClaim, PresentAt;
    SharedPlan(entries, work, anchor, boundary, k);
    if k > 0 {
      OffsetIsFound(entries, work, anchor, boundary, k - 1);
      SharedPlan(entries, work, anchor, boundary, k - 1);
      StateGoesOn(entries, work, anchor, boundary, PlanUpTo(entries, work, k - 1).value, k - 1);
      SharedPlanStep(entries, work, anchor, boundary, PlanUpTo(entries, work, k - 1).value, k - 1);
    }
  }

  lemma SharedHasAnchor(entries: seq<Entry>, work: Restoration, anchor: nat, boundary: nat)
    requires work.Valid() && SharedAnchor(entries, work, anchor, boundary)
    ensures UniqueAnchor(entries, anchor, boundary)
  {
  }

  lemma StateGoesOn(entries: seq<Entry>, work: Restoration, anchor: nat, boundary: nat, plan: Plan, k: nat)
    requires work.Valid() && k <= |work.claims| && SharedState(entries, work, anchor, boundary, plan, k)
    ensures plan.previous == (if k == 0 then None else Some(anchor)) && (k == 0 ==> plan.offset == 0)
  {
  }

  /**
   Claims on one anchor, present or missing in any mix: after restoration the text behind the
   anchor is their old contents in recorded order, in place of those found there already.
   */
  lemma SharedAnchorRestores(entries: seq<Entry>, work: Restoration, anchor: nat, boundary: nat)
    requires work.Valid() && SharedAnchor(entries, work, anchor, boundary)
    ensures Restore(entries, work).Ok? && boundary <= |entries|
    ensures var found := FoundUpTo(Contents(entries), boundary, work, |work.claims|);
      && PresentAt(Contents(entries), boundary, found)
      && Contents(Restore(entries, work).value)
           == Contents(entries)[..boundary] + JoinedClaims(work, |work.claims|) + Contents(entries)[boundary + |found|..]
  {
    hide Contents, Untag, SpliceTo, Restore, SharedAnchor, UniqueAnchor, PresentAt, FoundUpTo, PlanUpTo;
    var count := |work.claims|;
    SharedHasAnchor(entries, work, anchor, boundary);
    SharedPlan(entries, work, anchor, boundary, count);
    OffsetIsFound(entries, work, anchor, boundary, count);
    UniqueAnchorResolves(entries, anchor, boundary);
    FoundIsThere(Contents(entries), boundary, work, count);
    var plan := PlanUpTo(entries, work, count).value;
    var n, at := |plan.insertions|, boundary + plan.offset;
    RestoreInOrder(entries, work);
    SpliceFurther(entries, work, plan.insertions, n, at, |entries|);
    ContentsAppend(Untag(SpliceTo(entries, work, plan.insertions, n, at)), entries[at..|entries|]);
    ContentsSlice(entries, at, |entries|);
    assert Contents(entries)[at..|entries|] == Contents(entries)[at..];
  }

  /** The first `boundary` entries are those of `entries`, and no later one comes from the anchor. */
  ghost predicate AvoidsBehind(result: seq<Entry>, entries: seq<Entry>, boundary: nat, anchor: nat) {
    && boundary <= |result| && boundary <= |entries| && result[..boundary] == entries[..boundary]
    && forall i :: boundary <= i < |result| ==> result[i].provenance.source != anchor
  }

  lemma AvoidsMore(result: seq<Entry>, entries: seq<Entry>, boundary: nat, anchor: nat, more: seq<Entry>)
    requires AvoidsBehind(result, entries, boundary, anchor)
    requires forall i :: 0 <= i < |more| ==> more[i].provenance.source != anchor
    ensures AvoidsBehind(result + more, entries, boundary, anchor)
  {
    assert (result + more)[..boundary] == result[..boundary];
  }

  lemma {:induction false} TailAvoidsAnchor(entries: seq<Entry>, work: Restoration, insertions: seq<Insertion>, count: nat, upto: nat,
                                            anchor: nat, boundary: nat)
    requires work.Valid() && Planned(work, insertions) && Ascending(insertions, |entries|)
    requires count <= |insertions| && boundary <= upto <= |entries| && (count > 0 ==> insertions[count - 1].boundary <= upto)
    requires forall i :: 0 <= i < count ==> boundary <= insertions[i].boundary
    requires forall i :: boundary <= i < |entries| ==> entries[i].provenance.source != anchor
    requires anchor != 0
    ensures AvoidsBehind(Untag(SpliceTo(entries, work, insertions, count, upto)), entries, boundary, anchor)
  {
    hide Untag, AvoidsBehind;
    if count == 0 {
      UntagTag(entries[..upto], false);
      AvoidsFromStart(entries, upto, boundary, anchor);
    } else {
      hide SpliceTo;
      var last := insertions[count - 1];
      TailAvoidsAnchor(entries, work, insertions, count - 1, last.boundary, anchor, boundary);
      SpliceAppends(entries, work, insertions, count - 1);
      SpliceFurther(entries, work, insertions, count, last.boundary, upto);
      var before := Untag(SpliceTo(entries, work, insertions, count - 1, last.boundary));
      AvoidsMore(before, entries, boundary, anchor, Unowned(work.Content(last.claim).value));
      AvoidsMore(before + Unowned(work.Content(last.claim).value), entries, boundary, anchor, entries[last.boundary..upto]);
    }
  }

  lemma AvoidsFromStart(entries: seq<Entry>, upto: nat, boundary: nat, anchor: nat)
    requires boundary <= upto <= |entries|
    requires forall i :: boundary <= i < |entries| ==> entries[i].provenance.source != anchor
    ensures AvoidsBehind(entries[..upto], entries, boundary, anchor)
  {
    assert entries[..upto][..boundary] == entries[..boundary];
  }

  /** The anchor of a shared restoration is still where it was. */
  lemma AnchorStays(entries: seq<Entry>, work: Restoration, anchor: nat, boundary: nat)
    requires work.Valid() && SharedAnchor(entries, work, anchor, boundary)
    ensures Restore(entries, work).Ok? && UniqueAnchor(Restore(entries, work).value, anchor, boundary)
  {
    hide Restore, SpliceTo, Untag, Contents;
    SharedPlan(entries, work, anchor, boundary, |work.claims|);
    RestoreInOrder(entries, work);
    if anchor != 0 {
      var insertions := PlanUpTo(entries, work, |work.claims|).value.insertions;
      TailAvoidsAnchor(entries, work, insertions, |insertions|, |entries|, anchor, boundary);
      var result := Restore(entries, work).value;
      forall i | 0 <= i < boundary ensures result[i] == entries[i] {
        assert result[..boundary][i] == entries[..boundary][i];
      }
    }
  }

  lemma {:induction false} JoinedClaimAt(work: Restoration, k: nat, count: nat)
    requires work.Valid() && k < count <= |work.claims|
    ensures |JoinedClaims(work, k)| + |TextOf(work, k)| <= |JoinedClaims(work, count)|
    ensures JoinedClaims(work, count)[|JoinedClaims(work, k)|..|JoinedClaims(work, k)| + |TextOf(work, k)|] == TextOf(work, k)
  {
    if k + 1 < count {
      JoinedClaimAt(work, k, count - 1);
    }
  }

  lemma {:induction false} NothingMissing(entries: seq<Entry>, work: Restoration, anchor: nat, boundary: nat, k: nat)
    requires work.Valid() && SharedAnchor(entries, work, anchor, boundary) && k <= |work.claims|
    requires boundary + |JoinedClaims(work, |work.claims|)| <= |entries|
    requires Contents(entries)[boundary..boundary + |JoinedClaims(work, |work.claims|)|] == JoinedClaims(work, |work.claims|)
    ensures PlanUpTo(entries, work, k) == Ok(Plan([], if k == 0 then None else Some(anchor), |JoinedClaims(work, k)|))
  {
    hide Contents, SharedAnchor, PlanClaim, TextOf;
    if k > 0 {
      NothingMissing(entries, work, anchor, boundary, k - 1);
      var plan := PlanUpTo(entries, work, k - 1).value;
      JoinedClaimAt(work, k - 1, |work.claims|);
      var joined, from, length := JoinedClaims(work, |work.claims|), |JoinedClaims(work, k - 1)|, |TextOf(work, k - 1)|;
      SliceOfSlice(Contents(entries), boundary, boundary + |joined|, from, from + length);
      SharedPlanStep(entries, work, anchor, boundary, plan, k - 1);
    }
  }

  /** A second pass over the restored text inserts nothing. */
  lemma SecondPassInsertsNothing(entries: seq<Entry>, work: Restoration, anchor: nat, boundary: nat)
    requires work.Valid() && SharedAnchor(entries, work, anchor, boundary)
    ensures Restore(entries, work).Ok?
    ensures Restore(Restore(entries, work).value, work) == Ok(Restore(entries, work).value)
  {
    SharedAnchorRestores(entries, work, anchor, boundary);
    AnchorStays(entries, work, anchor, boundary);
    hide Restore, Contents;
    var result, joined := Restore(entries, work).value, JoinedClaims(work, |work.claims|);
    var before, after := Contents(entries)[..boundary], Contents(entries)[boundary + |FoundUpTo(Contents(entries), boundary, work, |work.claims|)|..];
    UniqueAnchorResolves(entries, anchor, boundary);
    assert (before + joined + after)[boundary..boundary + |joined|] == joined;
    NothingMissing(result, work, anchor, boundary, |work.claims|);
    PlanMeets(result, work);
  }

  // --------------------------------------------------- claims on any anchors

  /** A claim's text starts out from this boundary; None leaves it out. */
  ghost predicate LandsAt(entries: seq<Entry>, work: Restoration, k: nat, at: Option<nat>)
    requires work.Valid() && k < |work.claims|
  {
    match at
    case None => work.Skips(k) || (work.Content(k).Ok? && ClaimBoundary(entries, work, k) == Ok(None))
    case Some(boundary) =>
      && boundary <= |entries| && !work.Skips(k) && work.Content(k) == Ok(TextOf(work, k))
      && ClaimBoundary(entries, work, k) == Ok(Some(boundary))
  }

  ghost predicate LandUpTo(entries: seq<Entry>, work: Restoration, at: seq<Option<nat>>, count: nat)
    requires work.Valid() && count <= |at| == |work.claims|
  {
    forall k :: 0 <= k < count ==> LandsAt(entries, work, k, at[k])
  }

  lemma AnchoredClaimLands(entries: seq<Entry>, work: Restoration, k: nat, boundary: nat)
    requires work.Valid() && PlainRecords(work) && k < |work.claims| && UniqueAnchor(entries, work.claims[k].anchor, boundary)
    ensures LandsAt(entries, work, k, Some(boundary))
  {
    hide AnchorBoundary, ReplacementBoundary, PlainRecords, UniqueAnchor, TextOf;
    PlainClaim(entries, work, k);
    UniqueAnchorResolves(entries, work.claims[k].anchor, boundary);
  }

  /** The last of the first claims that is not left out. */
  function LastLanding(at: seq<Option<nat>>, count: nat): (last: Option<nat>)
    requires count <= |at|
    ensures last.Some? ==> last.value < count && at[last.value].Some?
    ensures forall k :: (if last.Some? then last.value + 1 else 0) <= k < count ==> at[k].None?
  {
    if count == 0 then None else if at[count - 1].Some? then Some(count - 1) else LastLanding(at, count - 1)
  }

  /** How far the claims right before it, on the same anchor, push a claim: past those of their texts that are there. */
  function PushOf(lines: seq<Line>, work: Restoration, at: seq<Option<nat>>, k: nat): nat
    requires work.Valid() && k < |at| == |work.claims|
    decreases k, 0
  {
    var before := LastLanding(at, k);
    if before.Some? && work.claims[before.value].anchor == work.claims[k].anchor then PushBehind(lines, work, at, before.value) else 0
  }

  /** Where a claim leaves off for the next one on its anchor. */
  function PushBehind(lines: seq<Line>, work: Restoration, at: seq<Option<nat>>, k: nat): nat
    requires work.Valid() && k < |at| == |work.claims| && at[k].Some?
    decreases k, 2
  {
    PushOf(lines, work, at, k) + if Missing(lines, work, at, k) then 0 else |TextOf(work, k)|
  }

  /** A claim whose text is not yet where it belongs. */
  predicate Missing(lines: seq<Line>, work: Restoration, at: seq<Option<nat>>, k: nat): (missing: bool)
    requires work.Valid() && k < |at| == |work.claims|
    ensures missing ==> at[k].Some?
    decreases k, 1
  {
    at[k].Some? && !PresentAt(lines, at[k].value + PushOf(lines, work, at, k), TextOf(work, k))
  }

  /** The text of claim k, if it is missing and belongs at boundary q. */
  function PieceAt(lines: seq<Line>, work: Restoration, at: seq<Option<nat>>, k: nat, q: nat): seq<Line>
    requires work.Valid() && k < |at| == |work.claims|
  {
    if Missing(lines, work, at, k) && at[k].value + PushOf(lines, work, at, k) == q then TextOf(work, k) else []
  }

  /** The missing texts of the first claims that belong at one boundary, in recorded order. */
  function BlockUpTo(lines: seq<Line>, work: Restoration, at: seq<Option<nat>>, count: nat, q: nat): seq<Line>
    requires work.Valid() && count <= |at| == |work.claims|
  {
    if count == 0 then [] else BlockUpTo(lines, work, at, count - 1, q) + PieceAt(lines, work, at, count - 1, q)
  }

  /** The missing text of every boundary. */
  function Blocks(lines: seq<Line>, work: Restoration, at: seq<Option<nat>>): (blocks: seq<seq<Line>>)
    requires work.Valid() && |at| == |work.claims|
    ensures |blocks| == |lines| + 1
    ensures forall q :: 0 <= q < |blocks| ==> blocks[q] == BlockUpTo(lines, work, at, |at|, q)
  {
    seq(|lines| + 1, q requires 0 <= q => BlockUpTo(lines, work, at, |at|, q))
  }

  /** The first q entries, each boundary's block in its place, the block at q included. */
  function WeaveTo(entries: seq<Entry>, blocks: seq<seq<Line>>, q: nat): seq<Entry>
    requires q <= |entries| && |blocks| == |entries| + 1
  {
    (if q == 0 then [] else WeaveTo(entries, blocks, q - 1) + [entries[q - 1]]) + Unowned(blocks[q])
  }

  /** The same for lines without provenance. */
  function Woven(lines: seq<Line>, blocks: seq<seq<Line>>, q: nat): seq<Line>
    requires q <= |lines| && |blocks| == |lines| + 1
  {
    (if q == 0 then [] else Woven(lines, blocks, q - 1) + [lines[q - 1]]) + blocks[q]
  }

  lemma {:induction false} WeaveContents(entries: seq<Entry>, blocks: seq<seq<Line>>, q: nat)
    requires q <= |entries| && |blocks| == |entries| + 1
    ensures Contents(WeaveTo(entries, blocks, q)) == Woven(Contents(entries), blocks, q)
  {
    hide Unowned;
    ContentsOfUnowned(blocks[q]);
    if q == 0 {
      assert [] + Unowned(blocks[q]) == Unowned(blocks[q]);
      assert [] + blocks[q] == blocks[q];
    } else {
      WeaveContents(entries, blocks, q - 1);
      var before, here := WeaveTo(entries, blocks, q - 1), [entries[q - 1]];
      ContentsAppend(before, here);
      ContentsAppend(before + here, Unowned(blocks[q]));
      assert Contents(here) == [entries[q - 1].content];
    }
  }

  // --------------------------------------------------------------- the planner

  function MissingUpTo(lines: seq<Line>, work: Restoration, at: seq<Option<nat>>, count: nat): seq<Insertion>
    requires work.Valid() && count <= |at| == |work.claims|
  {
    if count == 0 then []
    else
      var k := count - 1;
      var next := if Missing(lines, work, at, k) then [Insertion(at[k].value + PushOf(lines, work, at, k), k)] else [];
      MissingUpTo(lines, work, at, k) + next
  }

  /** The state of planning: insertions so far, and where the last landing claim leaves off. */
  ghost predicate PlansTo(entries: seq<Entry>, work: Restoration, at: seq<Option<nat>>, plan: Plan, count: nat)
    requires work.Valid() && count <= |at| == |work.claims|
  {
    var lines, last := Contents(entries), LastLanding(at, count);
    && plan.insertions == MissingUpTo(lines, work, at, count)
    && plan.previous == (if last.Some? then Some(work.claims[last.value].anchor) else None)
    && plan.offset == (if last.Some? then PushBehind(lines, work, at, last.value) else 0)
  }

  lemma PlansNext(entries: seq<Entry>, work: Restoration, at: seq<Option<nat>>, plan: Plan, k: nat)
    requires work.Valid() && k < |at| == |work.claims| && LandsAt(entries, work, k, at[k])
    requires PlansTo(entries, work, at, plan, k)
    ensures PlanClaim(entries, work, plan, k).Ok?
    ensures PlansTo(entries, work, at, PlanClaim(entries, work, plan, k).value, k + 1)
  {
    hide ClaimBoundary, Contents, PresentAt, TextOf;
    var lines := Contents(entries);
    assert MissingUpTo(lines, work, at, k) + [] == MissingUpTo(lines, work, at, k);
    if at[k].Some? {
      assert LastLanding(at, k + 1) == Some(k);
      assert (if plan.previous == Some(work.claims[k].anchor) then plan.offset else 0) == PushOf(lines, work, at, k);
    }
  }

  lemma {:induction false} PlanIsMissing(entries: seq<Entry>, work: Restoration, at: seq<Option<nat>>, count: nat)
    requires work.Valid() && count <= |at| == |work.claims| && LandUpTo(entries, work, at, count)
    ensures PlanUpTo(entries, work, count).Ok? && PlansTo(entries, work, at, PlanUpTo(entries, work, count).value, count)
  {
    hide LandsAt, PlanClaim;
    if count > 0 {
      hide PlansTo;
      PlanIsMissing(entries, work, at, count - 1);
      PlansNext(entries, work, at, PlanUpTo(entries, work, count - 1).value, count - 1);
    }
  }

  // ------------------------------------------------------------ in sorted order

  /** The insertions at one boundary. */
  function OnBoundary(insertions: seq<Insertion>, q: nat): seq<Insertion> {
    if insertions == [] then []
    else
      var last := insertions[|insertions| - 1];
      OnBoundary(insertions[..|insertions| - 1], q) + (if last.boundary == q then [last] else [])
  }

  lemma OnBoundaryNext(insertions: seq<Insertion>, x: Insertion, q: nat)
    ensures OnBoundary(insertions + [x], q) == OnBoundary(insertions, q) + (if x.boundary == q then [x] else [])
  {
    assert (insertions + [x])[..|insertions|] == insertions;
  }

  lemma {:induction false} OnBoundaryCounts(insertions: seq<Insertion>, q: nat, x: Insertion)
    ensures multiset(OnBoundary(insertions, q))[x] == if x.boundary == q then multiset(insertions)[x] else 0
  {
    if insertions != [] {
      var init, last := insertions[..|insertions| - 1], insertions[|insertions| - 1];
      OnBoundaryCounts(init, q, x);
      assert insertions == init + [last];
    }
  }

  lemma {:induction false} OnBoundarySorted(insertions: seq<Insertion>, q: nat)
    requires Sorted(insertions, InsertionLe)
    ensures Sorted(OnBoundary(insertions, q), InsertionLe)
    ensures forall x :: x in OnBoundary(insertions, q) ==> x in insertions
  {
    if insertions != [] {
      var init, last := insertions[..|insertions| - 1], insertions[|insertions| - 1];
      OnBoundarySorted(init, q);
      forall x | x in OnBoundary(init, q) ensures InsertionLe(x, last) {
        var i :| 0 <= i < |init| && init[i] == x;
        assert insertions[i] == x;
      }
      AppendSorted(OnBoundary(init, q), last, InsertionLe);
    }
  }

  /** Insertions at one boundary, sorted, for claims below a limit. */
  ghost predicate InClaimOrder(insertions: seq<Insertion>, q: nat, limit: nat) {
    && Sorted(OnBoundary(insertions, q), InsertionLe)
    && forall x :: x in OnBoundary(insertions, q) ==> x.boundary == q && x.claim < limit
  }

  lemma OrderGoesOn(insertions: seq<Insertion>, q: nat, limit: nat, x: Insertion)
    requires InClaimOrder(insertions, q, limit) && x.claim == limit
    ensures InClaimOrder(insertions, q, limit + 1) && InClaimOrder(insertions + [x], q, limit + 1)
  {
    hide OnBoundary;
    OnBoundaryNext(insertions, x, q);
    if x.boundary == q {
      AppendSorted(OnBoundary(insertions, q), x, InsertionLe);
    } else {
      assert OnBoundary(insertions, q) + [] == OnBoundary(insertions, q);
    }
  }

  lemma MissingNext(lines: seq<Line>, work: Restoration, at: seq<Option<nat>>, k: nat)
    requires work.Valid() && k < |at| == |work.claims|
    ensures var before := MissingUpTo(lines, work, at, k);
      MissingUpTo(lines, work, at, k + 1) ==
      if Missing(lines, work, at, k) then before + [Insertion(at[k].value + PushOf(lines, work, at, k), k)] else before
  {
    hide Missing, PushOf;
    assert MissingUpTo(lines, work, at, k) + [] == MissingUpTo(lines, work, at, k);
  }

  lemma NothingInOrder(lines: seq<Line>, work: Restoration, at: seq<Option<nat>>, q: nat)
    requires work.Valid() && |at| == |work.claims|
    ensures InClaimOrder(MissingUpTo(lines, work, at, 0), q, 0)
  {
  }

  /** The planner's insertions at one boundary come in claim order. */
  lemma {:induction false} MissingAscend(lines: seq<Line>, work: Restoration, at: seq<Option<nat>>, count: nat, q: nat)
    requires work.Valid() && count <= |at| == |work.claims|
    ensures InClaimOrder(MissingUpTo(lines, work, at, count), q, count)
  {
    hide *;
    if count == 0 {
      NothingInOrder(lines, work, at, q);
    } else {
      var k := count - 1;
      MissingAscend(lines, work, at, k, q);
      MissingNext(lines, work, at, k);
      var x := Insertion(if Missing(lines, work, at, k) then at[k].value + PushOf(lines, work, at, k) else 0, k);
      OrderGoesOn(MissingUpTo(lines, work, at, k), q, k, x);
    }
  }

  /** Sorting leaves the insertions at one boundary in claim order. */
  lemma SortKeepsBoundary(insertions: seq<Insertion>, sorted: seq<Insertion>, q: nat)
    requires Sorted(sorted, InsertionLe) && multiset(sorted) == multiset(insertions)
    requires Sorted(OnBoundary(insertions, q), InsertionLe)
    ensures OnBoundary(sorted, q) == OnBoundary(insertions, q)
  {
    hide OnBoundary;
    OnBoundarySorted(sorted, q);
    forall x ensures multiset(OnBoundary(sorted, q))[x] == multiset(OnBoundary(insertions, q))[x] {
      OnBoundaryCounts(sorted, q, x);
      OnBoundaryCounts(insertions, q, x);
    }
    SortedIsUnique(OnBoundary(sorted, q), OnBoundary(insertions, q), InsertionLe);
  }

  /** What insertions put at one boundary, in their order. */
  function JoinedAt(work: Restoration, insertions: seq<Insertion>, q: nat): seq<Line>
    requires work.Valid()
  {
    if insertions == [] then []
    else
      var last := insertions[|insertions| - 1];
      JoinedAt(work, insertions[..|insertions| - 1], q)
        + if last.boundary == q && last.claim < |work.claims| then TextOf(work, last.claim) else []
  }

  lemma JoinedNext(work: Restoration, insertions: seq<Insertion>, x: Insertion, q: nat)
    requires work.Valid()
    ensures JoinedAt(work, insertions + [x], q)
         == JoinedAt(work, insertions, q) + if x.boundary == q && x.claim < |work.claims| then TextOf(work, x.claim) else []
  {
    assert (insertions + [x])[..|insertions|] == insertions;
  }

  lemma {:induction false} JoinedOnBoundary(work: Restoration, insertions: seq<Insertion>, q: nat)
    requires work.Valid()
    ensures JoinedAt(work, insertions, q) == JoinedAt(work, OnBoundary(insertions, q), q)
  {
    hide TextOf;
    if insertions != [] {
      var init, last := insertions[..|insertions| - 1], insertions[|insertions| - 1];
      JoinedOnBoundary(work, init, q);
      assert insertions == init + [last];
      OnBoundaryNext(init, last, q);
      if last.boundary == q {
        JoinedNext(work, OnBoundary(init, q), last, q);
      } else {
        assert OnBoundary(init, q) + [] == OnBoundary(init, q);
        assert JoinedAt(work, init, q) + [] == JoinedAt(work, init, q);
      }
    }
  }

  /** The planner's insertions at one boundary hold that boundary's block. */
  lemma {:induction false} MissingHoldsBlock(lines: seq<Line>, work: Restoration, at: seq<Option<nat>>, count: nat, q: nat)
    requires work.Valid() && count <= |at| == |work.claims|
    ensures JoinedAt(work, MissingUpTo(lines, work, at, count), q) == BlockUpTo(lines, work, at, count, q)
  {
    hide Missing, PushOf, PushBehind, TextOf, JoinedAt;
    if count > 0 {
      hide MissingUpTo;
      MissingHoldsBlock(lines, work, at, count - 1, q);
      MissingNext(lines, work, at, count - 1);
      var k, before := count - 1, MissingUpTo(lines, work, at, count - 1);
      if Missing(lines, work, at, k) {
        JoinedNext(work, before, Insertion(at[k].value + PushOf(lines, work, at, k), k), q);
      } else {
        assert BlockUpTo(lines, work, at, k, q) + [] == BlockUpTo(lines, work, at, k, q);
      }
    } else {
      NothingOnBoundary(work, [], q);
    }
  }

  /** In sorted order the insertions put the same block at every boundary. */
  lemma SortedHoldsBlock(lines: seq<Line>, work: Restoration, at: seq<Option<nat>>, sorted: seq<Insertion>, q: nat)
    requires work.Valid() && |at| == |work.claims| && Sorted(sorted, InsertionLe)
    requires multiset(sorted) == multiset(MissingUpTo(lines, work, at, |at|))
    ensures JoinedAt(work, sorted, q) == BlockUpTo(lines, work, at, |at|, q)
  {
    hide JoinedAt, OnBoundary, MissingUpTo, BlockUpTo, Sorted, Missing, PushOf, PushBehind;
    var missing := MissingUpTo(lines, work, at, |at|);
    MissingAscend(lines, work, at, |at|, q);
    SortKeepsBoundary(missing, sorted, q);
    JoinedOnBoundary(work, sorted, q);
    JoinedOnBoundary(work, missing, q);
    MissingHoldsBlock(lines, work, at, |at|, q);
  }

  // ------------------------------------------------------------------ the weave

  /** Insertions of known texts inside the entries, at ascending boundaries. */
  ghost predicate Insertable(entries: seq<Entry>, work: Restoration, insertions: seq<Insertion>)
    requires work.Valid()
  {
    && Planned(work, insertions) && Ascending(insertions, |entries|)
    && forall i :: 0 <= i < |insertions| ==> work.Content(insertions[i].claim) == Ok(TextOf(work, insertions[i].claim))
  }

  /** What the first insertions put at every boundary. */
  function BlocksOf(work: Restoration, insertions: seq<Insertion>, count: nat): (blocks: seq<seq<Line>>)
    requires work.Valid()
    ensures |blocks| == count + 1
    ensures forall q :: 0 <= q < |blocks| ==> blocks[q] == JoinedAt(work, insertions, q)
  {
    seq(count + 1, q requires 0 <= q => JoinedAt(work, insertions, q))
  }

  /** The weave up to q looks only at the blocks up to q. */
  lemma {:induction false} WeaveLooksBack(entries: seq<Entry>, a: seq<seq<Line>>, b: seq<seq<Line>>, q: nat)
    requires q <= |entries| && |a| == |b| == |entries| + 1 && a[..q + 1] == b[..q + 1]
    ensures WeaveTo(entries, a, q) == WeaveTo(entries, b, q)
  {
    assert a[q] == a[..q + 1][q] == b[q];
    if q > 0 {
      assert a[..q] == a[..q + 1][..q] && b[..q] == b[..q + 1][..q];
      WeaveLooksBack(entries, a, b, q - 1);
    }
  }

  /** More text in the last block is more text at the end. */
  lemma WeaveGrows(entries: seq<Entry>, a: seq<seq<Line>>, b: seq<seq<Line>>, q: nat, text: seq<Line>)
    requires q <= |entries| && |a| == |b| == |entries| + 1 && a[..q] == b[..q] && b[q] == a[q] + text
    ensures WeaveTo(entries, b, q) == WeaveTo(entries, a, q) + Unowned(text)
  {
    UnownedJoin(a[q], text);
    if q > 0 {
      WeaveLooksBack(entries, a, b, q - 1);
      Reassociate(WeaveTo(entries, a, q - 1) + [entries[q - 1]], Unowned(a[q]), Unowned(text));
    }
  }

  lemma UnownedJoin(a: seq<Line>, b: seq<Line>)
    ensures Unowned(a + b) == Unowned(a) + Unowned(b)
  {
  }

  lemma {:induction false} NothingOnBoundary(work: Restoration, insertions: seq<Insertion>, q: nat)
    requires work.Valid() && forall i :: 0 <= i < |insertions| ==> insertions[i].boundary != q
    ensures JoinedAt(work, insertions, q) == []
  {
    if insertions != [] {
      NothingOnBoundary(work, insertions[..|insertions| - 1], q);
    }
  }

  lemma NextInsertable(entries: seq<Entry>, work: Restoration, insertions: seq<Insertion>, j: nat)
    requires work.Valid() && Insertable(entries, work, insertions) && j < |insertions|
    ensures insertions[j].boundary <= |entries| && (j > 0 ==> insertions[j - 1].boundary <= insertions[j].boundary)
    ensures insertions[j].claim < |work.claims| && work.Content(insertions[j].claim) == Ok(TextOf(work, insertions[j].claim))
  {
    hide TextOf;
  }

  /** One more insertion at the end of the splice. */
  lemma InsertsOne(entries: seq<Entry>, work: Restoration, insertions: seq<Insertion>, j: nat)
    requires work.Valid() && Insertable(entries, work, insertions) && j < |insertions|
    requires var q := insertions[j].boundary;
      && q <= |entries| && (j > 0 ==> insertions[j - 1].boundary <= q)
      && Untag(SpliceTo(entries, work, insertions, j, q)) == WeaveTo(entries, BlocksOf(work, insertions[..j], |entries|), q)
    ensures var q := insertions[j].boundary;
      Untag(SpliceTo(entries, work, insertions, j + 1, q)) == WeaveTo(entries, BlocksOf(work, insertions[..j + 1], |entries|), q)
  {
    hide *;
    var q := insertions[j].boundary;
    InsertableParts(entries, work, insertions);
    NextInsertable(entries, work, insertions, j);
    SpliceAppends(entries, work, insertions, j);
    BlocksGrow(work, insertions, j, |entries|);
    var a, b := BlocksOf(work, insertions[..j], |entries|), BlocksOf(work, insertions[..j + 1], |entries|);
    WeaveGrows(entries, a, b, q, TextOf(work, insertions[j].claim));
  }

  /** The next insertion adds its text to the block at its boundary. */
  lemma BlocksGrow(work: Restoration, insertions: seq<Insertion>, j: nat, count: nat)
    requires work.Valid() && j < |insertions| && insertions[j].boundary <= count
    requires insertions[j].claim < |work.claims| && work.Content(insertions[j].claim) == Ok(TextOf(work, insertions[j].claim))
    ensures var a, b, q := BlocksOf(work, insertions[..j], count), BlocksOf(work, insertions[..j + 1], count), insertions[j].boundary;
      a[..q] == b[..q] && b[q] == a[q] + TextOf(work, insertions[j].claim)
  {
    hide JoinedAt, TextOf;
    var a, b, q := BlocksOf(work, insertions[..j], count), BlocksOf(work, insertions[..j + 1], count), insertions[j].boundary;
    assert insertions[..j + 1] == insertions[..j] + [insertions[j]];
    forall p | 0 <= p <= q ensures b[p] == a[p] + if p == q then TextOf(work, insertions[j].claim) else [] {
      JoinedNext(work, insertions[..j], insertions[j], p);
    }
    assert forall p :: 0 <= p < q ==> b[p] == a[p];
  }

  lemma InsertableParts(entries: seq<Entry>, work: Restoration, insertions: seq<Insertion>)
    requires work.Valid() && Insertable(entries, work, insertions)
    ensures Planned(work, insertions) && Ascending(insertions, |entries|)
  {
    hide Planned, Ascending, TextOf;
  }

  lemma NoneUpTo(entries: seq<Entry>, work: Restoration, insertions: seq<Insertion>, j: nat, q: nat)
    requires work.Valid() && Insertable(entries, work, insertions) && j <= |insertions|
    requires j > 0 ==> insertions[j - 1].boundary < q
    ensures JoinedAt(work, insertions[..j], q) == []
  {
    hide JoinedAt, Planned, TextOf;
    NothingOnBoundary(work, insertions[..j], q);
  }

  /** Copying between ascending insertions weaves their texts in. */
  lemma {:induction false} SpliceWeaves(entries: seq<Entry>, work: Restoration, insertions: seq<Insertion>, j: nat, q: nat)
    requires work.Valid() && Insertable(entries, work, insertions) && j <= |insertions| && q <= |entries|
    requires j > 0 ==> insertions[j - 1].boundary <= q
    ensures Planned(work, insertions) && Ascending(insertions, |entries|)
    ensures Untag(SpliceTo(entries, work, insertions, j, q)) == WeaveTo(entries, BlocksOf(work, insertions[..j], |entries|), q)
    decreases q, j
  {
    hide Untag, SpliceTo, Insertable, JoinedAt, Planned, Ascending;
    InsertableParts(entries, work, insertions);
    if j > 0 && insertions[j - 1].boundary == q {
      NextInsertable(entries, work, insertions, j - 1);
      SpliceWeaves(entries, work, insertions, j - 1, q);
      InsertsOne(entries, work, insertions, j - 1);
    } else {
      var blocks := BlocksOf(work, insertions[..j], |entries|);
      if q == 0 {
        SpliceStart(entries, work, insertions);
        NothingOnBoundary(work, insertions[..0], 0);
      } else {
        NoneUpTo(entries, work, insertions, j, q);
        SpliceWeaves(entries, work, insertions, j, q - 1);
        SpliceOneMore(entries, work, insertions, j, q);
      }
      UnownedNothing();
      assert blocks[q] == [];
    }
  }

  lemma UnownedNothing()
    ensures Unowned([]) == []
  {
  }

  lemma SpliceOneMore(entries: seq<Entry>, work: Restoration, insertions: seq<Insertion>, count: nat, q: nat)
    requires work.Valid() && Planned(work, insertions) && Ascending(insertions, |entries|)
    requires count <= |insertions| && 0 < q <= |entries| && (count > 0 ==> insertions[count - 1].boundary <= q - 1)
    ensures Untag(SpliceTo(entries, work, insertions, count, q)) == Untag(SpliceTo(entries, work, insertions, count, q - 1)) + [entries[q - 1]]
  {
    hide Untag, SpliceTo, Planned;
    SpliceFurther(entries, work, insertions, count, q - 1, q);
    assert entries[q - 1..q] == [entries[q - 1]];
  }

  /** A missing text that belongs past the end. */
  predicate Overshoots(lines: seq<Line>, work: Restoration, at: seq<Option<nat>>, k: nat)
    requires work.Valid() && k < |at| == |work.claims|
  {
    Missing(lines, work, at, k) && at[k].value + PushOf(lines, work, at, k) > |lines|
  }

  lemma {:induction false} MissingMembers(lines: seq<Line>, work: Restoration, at: seq<Option<nat>>, count: nat)
    requires work.Valid() && count <= |at| == |work.claims|
    ensures forall x :: x in MissingUpTo(lines, work, at, count) <==>
      x.claim < count && Missing(lines, work, at, x.claim) && x.boundary == at[x.claim].value + PushOf(lines, work, at, x.claim)
  {
    hide Missing, PushOf, PushBehind;
    if count > 0 {
      MissingMembers(lines, work, at, count - 1);
    }
  }

  lemma MissingIsInsertable(entries: seq<Entry>, work: Restoration, at: seq<Option<nat>>, sorted: seq<Insertion>)
    requires work.Valid() && |at| == |work.claims| && LandUpTo(entries, work, at, |at|)
    requires Sorted(sorted, InsertionLe) && multiset(sorted) == multiset(MissingUpTo(Contents(entries), work, at, |at|))
    ensures (exists i :: 0 <= i < |sorted| && sorted[i].boundary > |entries|)
       <==> exists k :: 0 <= k < |at| && Overshoots(Contents(entries), work, at, k)
    ensures (forall k :: 0 <= k < |at| ==> !Overshoots(Contents(entries), work, at, k)) ==> Insertable(entries, work, sorted)
  {
    hide MissingUpTo, PushOf, Missing, Contents, Sorted, ClaimBoundary, TextOf;
    var lines := Contents(entries);
    var missing := MissingUpTo(lines, work, at, |at|);
    MissingMembers(lines, work, at, |at|);
    forall x ensures x in sorted <==> x in missing {
      assert x in multiset(sorted) <==> x in multiset(missing);
    }
    forall k | 0 <= k < |at| && Overshoots(lines, work, at, k) ensures exists i :: 0 <= i < |sorted| && sorted[i].boundary > |entries| {
      assert Insertion(at[k].value + PushOf(lines, work, at, k), k) in sorted;
    }
    forall i | 0 <= i < |sorted|
      ensures sorted[i].claim < |work.claims| && work.Content(sorted[i].claim) == Ok(TextOf(work, sorted[i].claim))
      ensures sorted[i].boundary > |entries| ==> Overshoots(lines, work, at, sorted[i].claim)
    {
      assert sorted[i] in missing;
      MissingLands(entries, work, at, sorted[i].claim);
    }
    if forall k :: 0 <= k < |at| ==> !Overshoots(lines, work, at, k) {
      SortedAscends(sorted, |entries|);
    }
  }

  lemma MissingLands(entries: seq<Entry>, work: Restoration, at: seq<Option<nat>>, k: nat)
    requires work.Valid() && k < |at| == |work.claims| && LandUpTo(entries, work, at, |at|)
    requires Missing(Contents(entries), work, at, k)
    ensures work.Content(k) == Ok(TextOf(work, k))
  {
    hide TextOf, PushOf, ClaimBoundary, Contents;
    assert LandsAt(entries, work, k, at[k]);
  }

  /**
   What restoration makes of any claims: every missing text is inserted at its boundary, those of one
   boundary in recorded order, and nothing else changes; it fails exactly when a text belongs past the end.
   */
  lemma RestoreWeaves(entries: seq<Entry>, work: Restoration, at: seq<Option<nat>>)
    requires work.Valid() && |at| == |work.claims| && LandUpTo(entries, work, at, |at|)
    ensures (exists k :: 0 <= k < |at| && Overshoots(Contents(entries), work, at, k)) ==> Restore(entries, work) == Err(InvalidRange)
    ensures (forall k :: 0 <= k < |at| ==> !Overshoots(Contents(entries), work, at, k)) ==>
      Restore(entries, work) == Ok(WeaveTo(entries, Blocks(Contents(entries), work, at), |entries|))
  {
    hide Untag, SpliceTo, LandUpTo, WeaveTo, MissingUpTo, Overshoots, Insertable, BlockUpTo, JoinedAt, Contents, PlanUpTo;
    PlanIsMissing(entries, work, at, |at|);
    InsertionLeIsTotal();
    var lines := Contents(entries);
    assert |lines| == |entries|;
    var missing := MissingUpTo(lines, work, at, |at|);
    var insertions := Sort(missing, InsertionLe);
    MissingIsInsertable(entries, work, at, insertions);
    if forall k :: 0 <= k < |at| ==> !Overshoots(lines, work, at, k) {
      SpliceWeaves(entries, work, insertions, |insertions|, |entries|);
      assert insertions[..|insertions|] == insertions;
      forall q | 0 <= q <= |entries| ensures BlocksOf(work, insertions, |entries|)[q] == Blocks(lines, work, at)[q] {
        SortedHoldsBlock(lines, work, at, insertions, q);
      }
      assert BlocksOf(work, insertions, |entries|) == Blocks(lines, work, at);
    }
  }

  /**
   A claim that belongs at a boundary of its own, where its text is missing: exactly the recorded index
   lines stand there afterwards where the record says so, and the claim's own lines otherwise.
   */
  lemma RecordedTextStands(entries: seq<Entry>, work: Restoration, at: seq<Option<nat>>, k: nat, q: nat)
    requires work.Valid() && |at| == |work.claims| && LandUpTo(entries, work, at, |at|) && Restore(entries, work).Ok?
    requires k < |at| && Missing(Contents(entries), work, at, k) && at[k].value + PushOf(Contents(entries), work, at, k) == q
    requires forall j :: 0 <= j < |at| && j != k && Missing(Contents(entries), work, at, j) ==>
      at[j].value + PushOf(Contents(entries), work, at, j) != q
    ensures q <= |entries|
    ensures var record := if work.records.Some? then work.records.value[k] else RestoreRecord(0, 0, 0);
      var text := if record.flag == 3 && work.trusted.Some? then work.trusted.value[record.first..record.last] else work.claims[k].content;
      var before := if q == 0 then [] else WeaveTo(entries, Blocks(Contents(entries), work, at), q - 1) + [entries[q - 1]];
      var result := Restore(entries, work).value;
      && before + Unowned(text) <= result
      && (if q == |entries| then result == before + Unowned(text) else before + Unowned(text) + [entries[q]] <= result)
  {
    hide Missing, PushOf, LandUpTo, Contents, Restore, BlockUpTo, WeaveTo;
    var lines := Contents(entries);
    var blocks := Blocks(lines, work, at);
    RestoreWeaves(entries, work, at);
    LonePiece(lines, work, at, |at|, k, q);
    assert |lines| == |entries|;
    assert !Overshoots(lines, work, at, k);
    WeaveAt(entries, blocks, q);
    WeaveGoesOn(entries, blocks, q, |entries|);
    if q < |entries| {
      WeaveAt(entries, blocks, q + 1);
      WeaveGoesOn(entries, blocks, q + 1, |entries|);
    }
  }

  lemma WeaveAt(entries: seq<Entry>, blocks: seq<seq<Line>>, q: nat)
    requires q <= |entries| && |blocks| == |entries| + 1
    ensures WeaveTo(entries, blocks, q)
         == (if q == 0 then [] else WeaveTo(entries, blocks, q - 1) + [entries[q - 1]]) + Unowned(blocks[q])
  {
  }

  lemma {:induction false} WeaveGoesOn(entries: seq<Entry>, blocks: seq<seq<Line>>, q: nat, upto: nat)
    requires q <= upto <= |entries| && |blocks| == |entries| + 1
    ensures WeaveTo(entries, blocks, q) <= WeaveTo(entries, blocks, upto)
    decreases upto
  {
    if q < upto {
      WeaveGoesOn(entries, blocks, q, upto - 1);
    }
  }

  lemma {:induction false} LonePiece(lines: seq<Line>, work: Restoration, at: seq<Option<nat>>, count: nat, k: nat, q: nat)
    requires work.Valid() && count <= |at| == |work.claims| && k < |at| && PieceAt(lines, work, at, k, q) == TextOf(work, k)
    requires forall j :: 0 <= j < |at| && j != k ==> PieceAt(lines, work, at, j, q) == []
    ensures BlockUpTo(lines, work, at, count, q) == if k < count then TextOf(work, k) else []
  {
    hide PieceAt, TextOf;
    if count > 0 {
      LonePiece(lines, work, at, count - 1, k, q);
    }
  }
}
