/**
 What undoing a batch makes of any worktree whose lines are matched one to one with the batch source
 (batch/discard.py:519-722): where every line and every old text ends up, and each way undo fails.
 */
module DiscardInWorktree {
  import opened Wrappers
  import opened LineRanges
  import opened Realized
  import opened LineMatching
  import opened BaselineCorrespondence
  import opened DiscardReversal
  import opened DiscardReversalMeaning
  import opened Ownership
  import opened DiscardRestoration
  import opened DiscardRestorationMeaning
  import opened LegacyReplacements
  import opened ReplacementGroups
  import opened ReplacementClaims
  import opened Discard

  // ------------------------------------------------------- lines that stand

  /** Undo takes this source line out of the worktree. */
  predicate TakenOut(ownership: BatchOwnership, setting: Setting, line: nat) {
    (Contains(ownership.presence, line) || Contains(setting.structural, line)) && line !in setting.sides.preserved
  }

  /** The worktree line where a source line stands, if undo leaves it there. */
  function StandsAt(ownership: BatchOwnership, setting: Setting, line: nat): Option<nat> {
    if line in setting.sides.toWorking.toTarget && !TakenOut(ownership, setting, line)
    then Some(setting.sides.toWorking.toTarget[line]) else None
  }

  /** No source line that undo takes out stands at this worktree line. */
  ghost predicate Stays(ownership: BatchOwnership, setting: Setting, t: nat) {
    var at := setting.sides.toWorking.toTarget;
    forall s :: s in at && at[s] == t ==> !TakenOut(ownership, setting, s)
  }

  function EntriesOf(setting: Setting): (entries: seq<Entry>)
    ensures |entries| == |setting.sides.working|
  {
    WorkingEntries(setting.sides.working, setting.sides.toWorking, [])
  }

  /** What the first worktree lines leave once the owned lines have been taken out. */
  ghost function ReversedTo(ownership: BatchOwnership, setting: Setting, spans: seq<Span>, t: nat): seq<Entry>
    requires t <= |setting.sides.working|
  {
    EmissionsUpTo(RequestOf(ownership, setting, spans), PreservedFirst, EntriesOf(setting), t)
  }

  /** What one worktree line leaves. */
  ghost function LeftBy(ownership: BatchOwnership, setting: Setting, spans: seq<Span>, t: nat): seq<Entry>
    requires 1 <= t <= |setting.sides.working|
  {
    Emission(RequestOf(ownership, setting, spans), PreservedFirst, EntriesOf(setting), t - 1)
  }

  /** A worktree line whose source line cannot be taken out. */
  ghost predicate BlockedAt(ownership: BatchOwnership, setting: Setting, spans: seq<Span>, t: nat)
    requires 1 <= t <= |setting.sides.working|
  {
    Blocked(RequestOf(ownership, setting, spans), PreservedFirst, EntriesOf(setting)[t - 1].provenance.source)
  }

  /** The undo of a batch in a worktree matched one to one with the batch source. */
  ghost predicate Matched(ownership: BatchOwnership, setting: Setting) {
    && ownership.Valid() && setting.Valid() && setting.sides.toWorking.Inverse()
    && IsSubset(setting.independent, setting.trustedInsertions)
  }

  lemma StaysOrLeaves(ownership: BatchOwnership, setting: Setting, spans: seq<Span>, t: nat)
    requires Matched(ownership, setting) && 1 <= t <= |setting.sides.working|
    ensures Stays(ownership, setting, t) ==> LeftBy(ownership, setting, spans, t) == [EntriesOf(setting)[t - 1]]
    ensures !Stays(ownership, setting, t) ==>
      forall i :: 0 <= i < |LeftBy(ownership, setting, spans, t)| ==> LeftBy(ownership, setting, spans, t)[i].provenance.source == 0
  {
    hide Contains, Started, Active, WorkingEntries;
    WorkingLineComesFrom(setting.sides.working, setting.sides.toWorking, [], t - 1);
    var line := EntriesOf(setting)[t - 1].provenance.source;
    assert Stays(ownership, setting, t) <==> line == 0 || !TakenOut(ownership, setting, line);
  }

  /** An entry with provenance is a worktree line that stays, and stands at the end of what the lines up to it leave. */
  ghost predicate Traced(ownership: BatchOwnership, setting: Setting, spans: seq<Span>, entry: Entry, i: nat) {
    entry.provenance.source != 0 ==>
      var t := entry.provenance.target;
      && 1 <= t <= |setting.sides.working| && Stays(ownership, setting, t) && entry == EntriesOf(setting)[t - 1]
      && |ReversedTo(ownership, setting, spans, t)| == i + 1
  }

  lemma {:induction false} ReversedIsTraced(ownership: BatchOwnership, setting: Setting, spans: seq<Span>, t: nat)
    requires Matched(ownership, setting) && t <= |setting.sides.working|
    ensures var reversed := ReversedTo(ownership, setting, spans, t);
      forall i :: 0 <= i < |reversed| ==> Traced(ownership, setting, spans, reversed[i], i)
  {
    if t > 0 {
      ReversedIsTraced(ownership, setting, spans, t - 1);
      ReversedNext(ownership, setting, spans, t);
      StaysOrLeaves(ownership, setting, spans, t);
      WorkingLineComesFrom(setting.sides.working, setting.sides.toWorking, [], t - 1);
      hide ReversedTo, LeftBy, EntriesOf, Stays, Matched;
    }
  }

  lemma ReversedNext(ownership: BatchOwnership, setting: Setting, spans: seq<Span>, t: nat)
    requires 1 <= t <= |setting.sides.working|
    ensures ReversedTo(ownership, setting, spans, t)
         == ReversedTo(ownership, setting, spans, t - 1) + LeftBy(ownership, setting, spans, t)
  {
  }

  lemma {:induction false} ReversedGrows(ownership: BatchOwnership, setting: Setting, spans: seq<Span>, a: nat, b: nat)
    requires a <= b <= |setting.sides.working|
    ensures ReversedTo(ownership, setting, spans, a) <= ReversedTo(ownership, setting, spans, b)
    decreases b
  {
    hide Emission, RequestOf;
    if a < b {
      ReversedGrows(ownership, setting, spans, a, b - 1);
      ReversedNext(ownership, setting, spans, b);
    }
  }

  lemma StandingStays(ownership: BatchOwnership, setting: Setting, line: nat)
    requires Matched(ownership, setting) && StandsAt(ownership, setting, line).Some?
    ensures var t := StandsAt(ownership, setting, line).value;
      && line > 0 && 1 <= t <= |setting.sides.working| && Stays(ownership, setting, t)
      && EntriesOf(setting)[t - 1].provenance.source == line
  {
    hide Contains, WorkingEntries;
    var t := StandsAt(ownership, setting, line).value;
    WorkingLineComesFrom(setting.sides.working, setting.sides.toWorking, [], t - 1);
    forall s | s in setting.sides.toWorking.toTarget && setting.sides.toWorking.toTarget[s] == t ensures s == line {
      assert setting.sides.toWorking.toSource[t] == s && setting.sides.toWorking.toSource[t] == line;
    }
  }

  /** An entry that comes from a source line is that line where it stands. */
  lemma EntryFromLine(ownership: BatchOwnership, setting: Setting, spans: seq<Span>, entry: Entry, i: nat, line: nat)
    requires Matched(ownership, setting) && Traced(ownership, setting, spans, entry, i)
    requires line != 0 && entry.provenance.source == line
    ensures StandsAt(ownership, setting, line).Some? && StandsAt(ownership, setting, line).value <= |setting.sides.working|
    ensures |ReversedTo(ownership, setting, spans, StandsAt(ownership, setting, line).value)| == i + 1
  {
    hide Contains, WorkingEntries, ReversedTo;
    var t := entry.provenance.target;
    WorkingLineComesFrom(setting.sides.working, setting.sides.toWorking, [], t - 1);
  }

  lemma StandingIsLast(ownership: BatchOwnership, setting: Setting, spans: seq<Span>, line: nat)
    requires Matched(ownership, setting) && StandsAt(ownership, setting, line).Some?
    ensures var t, reversed := StandsAt(ownership, setting, line).value, ReversedTo(ownership, setting, spans, |setting.sides.working|);
      && 1 <= t <= |setting.sides.working|
      && 1 <= |ReversedTo(ownership, setting, spans, t)| <= |reversed|
      && |ReversedTo(ownership, setting, spans, t)| == |ReversedTo(ownership, setting, spans, t - 1)| + 1
      && reversed[|ReversedTo(ownership, setting, spans, t)| - 1].provenance.source == line
  {
    hide Contains, EntriesOf, ReversedTo, TakenOut, StandsAt, Stays;
    StandingStays(ownership, setting, line);
    var t, reversed := StandsAt(ownership, setting, line).value, ReversedTo(ownership, setting, spans, |setting.sides.working|);
    var upto := ReversedTo(ownership, setting, spans, t);
    ReversedNext(ownership, setting, spans, t);
    StaysOrLeaves(ownership, setting, spans, t);
    ReversedGrows(ownership, setting, spans, t, |setting.sides.working|);
    assert reversed[|upto| - 1] == upto[|upto| - 1];
  }

  /** A source line is found right behind its worktree line exactly when it stands there and stays. */
  lemma LineIsFound(ownership: BatchOwnership, setting: Setting, spans: seq<Span>, line: nat)
    requires Matched(ownership, setting) && line != 0
    ensures var reversed, t := ReversedTo(ownership, setting, spans, |setting.sides.working|), StandsAt(ownership, setting, line);
      AnchorBoundary(reversed, line) ==
      if t.Some? then Ok(|ReversedTo(ownership, setting, spans, t.value)|) else Err(MissingAnchor(line))
    ensures StandsAt(ownership, setting, line).Some? ==> UniqueAnchor(ReversedTo(ownership, setting, spans, |setting.sides.working|), line,
      |ReversedTo(ownership, setting, spans, StandsAt(ownership, setting, line).value)|)
    ensures StandsAt(ownership, setting, line).Some? <==>
      exists i :: 0 <= i < |ReversedTo(ownership, setting, spans, |setting.sides.working|)|
        && ReversedTo(ownership, setting, spans, |setting.sides.working|)[i].provenance.source == line
  {
    hide Contains, EntriesOf, ReversedTo, TakenOut, StandsAt, AnchorBoundary, Traced, Stays;
    var reversed := ReversedTo(ownership, setting, spans, |setting.sides.working|);
    ReversedIsTraced(ownership, setting, spans, |setting.sides.working|);
    forall i | 0 <= i < |reversed| && reversed[i].provenance.source == line
      ensures StandsAt(ownership, setting, line).Some? && StandsAt(ownership, setting, line).value <= |setting.sides.working|
      ensures |ReversedTo(ownership, setting, spans, StandsAt(ownership, setting, line).value)| == i + 1
    {
      EntryFromLine(ownership, setting, spans, reversed[i], i, line);
    }
    if StandsAt(ownership, setting, line).Some? {
      StandingIsLast(ownership, setting, spans, line);
      UniqueAnchorResolves(reversed, line, |ReversedTo(ownership, setting, spans, StandsAt(ownership, setting, line).value)|);
    } else {
      AbsentAnchorIsMissing(reversed, line);
    }
  }

  // ------------------------------------------------- what the records speak of

  /** The lines that survive as neighbours of a replacement are those that still stand once undo has taken its lines out. */
  lemma SurvivorsStand(ownership: BatchOwnership, setting: Setting, spans: seq<Span>, line: nat)
    requires Matched(ownership, setting) && line != 0 && !Contains(setting.structural, line)
    ensures Survives(ownership, setting.sides, line) <==>
      exists i :: 0 <= i < |ReversedTo(ownership, setting, spans, |setting.sides.working|)|
        && ReversedTo(ownership, setting, spans, |setting.sides.working|)[i].provenance.source == line
  {
    LineIsFound(ownership, setting, spans, line);
    hide ReversedTo, Contains;
  }

  /** An owned line counts as live exactly when it stands in the worktree and undo takes it out. */
  lemma LiveLinesGo(ownership: BatchOwnership, setting: Setting, spans: seq<Span>, line: nat)
    requires Matched(ownership, setting) && line != 0 && Contains(ownership.presence, line)
    ensures LiveLine(setting.sides.toWorking, setting.sides.preserved, line) <==>
      && (exists i :: 0 <= i < |EntriesOf(setting)| && EntriesOf(setting)[i].provenance.source == line)
      && forall i :: 0 <= i < |ReversedTo(ownership, setting, spans, |setting.sides.working|)| ==>
           ReversedTo(ownership, setting, spans, |setting.sides.working|)[i].provenance.source != line
  {
    LineIsFound(ownership, setting, spans, line);
    hide ReversedTo, Contains, WorkingEntries;
    if line in setting.sides.toWorking.toTarget {
      var t := setting.sides.toWorking.toTarget[line];
      WorkingLineComesFrom(setting.sides.working, setting.sides.toWorking, [], t - 1);
      assert EntriesOf(setting)[t - 1].provenance.source == line;
    } else {
      forall i | 0 <= i < |EntriesOf(setting)| ensures EntriesOf(setting)[i].provenance.source != line {
        WorkingLineComesFrom(setting.sides.working, setting.sides.toWorking, [], i);
      }
    }
  }

  // -------------------------------------------------- where the old text goes

  /** Nothing is left between two worktree lines that stay. */
  ghost predicate NextTo(ownership: BatchOwnership, setting: Setting, spans: seq<Span>, a: nat, b: nat)
    requires b <= |setting.sides.working|
  {
    a < b && forall t :: a < t < b ==> LeftBy(ownership, setting, spans, t) == []
  }

  /** How much of the reversed text stands in front of a claim's old text; None leaves the old text out. */
  ghost function PlaceOf(ownership: BatchOwnership, setting: Setting, records: seq<RestoreRecord>, spans: seq<Span>, k: nat): Option<nat>
    requires Matched(ownership, setting) && k < |ownership.deletions| == |records|
  {
    var record, anchor := records[k], ownership.deletions[k].anchor;
    var before, after := StandsAt(ownership, setting, record.first), StandsAt(ownership, setting, record.last);
    if record.flag == 1 then None
    else if record.flag == 2 && before.Some? then Some(|ReversedTo(ownership, setting, spans, before.value)|)
    else if record.flag == 2 && after.Some? then Some(|ReversedTo(ownership, setting, spans, after.value - 1)|)
    else if anchor == 0 then Some(0)
    else if StandsAt(ownership, setting, anchor).Some? then Some(|ReversedTo(ownership, setting, spans, StandsAt(ownership, setting, anchor).value)|)
    else None
  }

  /** A live replacement whose neighbours both stand, but not next to each other. */
  ghost predicate Torn(ownership: BatchOwnership, setting: Setting, records: seq<RestoreRecord>, spans: seq<Span>, k: nat)
    requires Matched(ownership, setting) && k < |ownership.deletions| == |records|
  {
    var before, after := StandsAt(ownership, setting, records[k].first), StandsAt(ownership, setting, records[k].last);
    && records[k].flag == 2 && before.Some? && after.Some?
    && !NextTo(ownership, setting, spans, before.value, after.value)
  }

  ghost function PlacesOf(ownership: BatchOwnership, setting: Setting, records: seq<RestoreRecord>, spans: seq<Span>): (at: seq<Option<nat>>)
    requires Matched(ownership, setting) && |ownership.deletions| == |records|
    ensures |at| == |records| && forall k :: 0 <= k < |at| ==> at[k] == PlaceOf(ownership, setting, records, spans, k)
  {
    seq(|records|, k requires 0 <= k < |records| => PlaceOf(ownership, setting, records, spans, k))
  }

  lemma {:induction false} NothingLeftBetween(ownership: BatchOwnership, setting: Setting, spans: seq<Span>, a: nat, b: nat)
    requires a <= b <= |setting.sides.working|
    ensures |ReversedTo(ownership, setting, spans, a)| <= |ReversedTo(ownership, setting, spans, b)|
    ensures |ReversedTo(ownership, setting, spans, a)| == |ReversedTo(ownership, setting, spans, b)|
       <==> forall t :: a < t <= b ==> LeftBy(ownership, setting, spans, t) == []
    decreases b
  {
    hide ReversedTo, LeftBy;
    if a < b {
      NothingLeftBetween(ownership, setting, spans, a, b - 1);
      ReversedNext(ownership, setting, spans, b);
    }
  }

  /** Two standing lines are next to each other exactly when the second is found one entry further. */
  lemma NextIsOneFurther(ownership: BatchOwnership, setting: Setting, spans: seq<Span>, first: nat, last: nat)
    requires Matched(ownership, setting)
    requires StandsAt(ownership, setting, first).Some? && StandsAt(ownership, setting, last).Some?
    ensures var a, b := StandsAt(ownership, setting, first).value, StandsAt(ownership, setting, last).value;
      && 1 <= a <= |setting.sides.working| && 1 <= b <= |setting.sides.working|
      && (NextTo(ownership, setting, spans, a, b)
          <==> |ReversedTo(ownership, setting, spans, a)| + 1 == |ReversedTo(ownership, setting, spans, b)|)
  {
    hide ReversedTo, LeftBy, StandsAt, Matched;
    StandingIsLast(ownership, setting, spans, first);
    StandingIsLast(ownership, setting, spans, last);
    var a, b := StandsAt(ownership, setting, first).value, StandsAt(ownership, setting, last).value;
    if a < b {
      NothingLeftBetween(ownership, setting, spans, a, b - 1);
    } else {
      NothingLeftBetween(ownership, setting, spans, b, a);
    }
  }

  lemma ReplacementPlace(ownership: BatchOwnership, setting: Setting, records: seq<RestoreRecord>, spans: seq<Span>, work: Restoration, k: nat)
    requires Matched(ownership, setting) && k < |ownership.deletions| == |records|
    requires work.Valid() && work.claims == ownership.deletions && work.records == Some(records)
    ensures var reversed := ReversedTo(ownership, setting, spans, |setting.sides.working|);
      var before, after := StandsAt(ownership, setting, records[k].first), StandsAt(ownership, setting, records[k].last);
      ReplacementBoundary(reversed, work, k) ==
      if Torn(ownership, setting, records, spans, k) then Err(AmbiguousReplacement)
      else if records[k].flag == 2 && (before.Some? || after.Some?) then Ok(PlaceOf(ownership, setting, records, spans, k))
      else Ok(None)
  {
    hide ReversedTo, StandsAt, NextTo, AnchorBoundary;
    var record := records[k];
    NoLineZero(ownership, setting);
    if record.first != 0 {
      LineIsFound(ownership, setting, spans, record.first);
    }
    if record.last != 0 {
      LineIsFound(ownership, setting, spans, record.last);
    }
    if StandsAt(ownership, setting, record.first).Some? && StandsAt(ownership, setting, record.last).Some? {
      NextIsOneFurther(ownership, setting, spans, record.first, record.last);
    }
    if StandsAt(ownership, setting, record.last).Some? {
      StandingIsLast(ownership, setting, spans, record.last);
    }
  }

  lemma NoLineZero(ownership: BatchOwnership, setting: Setting)
    requires Matched(ownership, setting)
    ensures StandsAt(ownership, setting, 0).None?
  {
  }

  /** A claim that is not torn lands at its place. */
  lemma ClaimLandsInPlace(ownership: BatchOwnership, setting: Setting, records: seq<RestoreRecord>, spans: seq<Span>, work: Restoration, k: nat)
    requires Matched(ownership, setting) && k < |ownership.deletions| == |records|
    requires work.Valid() && work.claims == ownership.deletions && work.records == Some(records)
    requires records[k].flag == 3 ==> work.trusted.Some?
    ensures var reversed := ReversedTo(ownership, setting, spans, |setting.sides.working|);
      if Torn(ownership, setting, records, spans, k)
      then work.Content(k).Ok? && !work.Skips(k) && ClaimBoundary(reversed, work, k) == Err(AmbiguousReplacement)
      else LandsAt(reversed, work, k, PlaceOf(ownership, setting, records, spans, k))
  {
    hide ReversedTo, StandsAt, NextTo, AnchorBoundary, ReplacementBoundary;
    ReplacementPlace(ownership, setting, records, spans, work, k);
    PlaceIsInside(ownership, setting, records, spans, k);
    var anchor := ownership.deletions[k].anchor;
    if anchor != 0 {
      LineIsFound(ownership, setting, spans, anchor);
    } else {
      StartIsFound(ReversedTo(ownership, setting, spans, |setting.sides.working|));
    }
  }

  lemma StartIsFound(entries: seq<Entry>)
    ensures AnchorBoundary(entries, 0) == Ok(0)
  {
  }

  lemma PlaceIsInside(ownership: BatchOwnership, setting: Setting, records: seq<RestoreRecord>, spans: seq<Span>, k: nat)
    requires Matched(ownership, setting) && k < |ownership.deletions| == |records|
    ensures var place := PlaceOf(ownership, setting, records, spans, k);
      place.Some? ==> place.value <= |ReversedTo(ownership, setting, spans, |setting.sides.working|)|
  {
    hide ReversedTo, StandsAt;
    var record, anchor := records[k], ownership.deletions[k].anchor;
    if StandsAt(ownership, setting, record.first).Some? {
      StandingIsLast(ownership, setting, spans, record.first);
    }
    if StandsAt(ownership, setting, record.last).Some? {
      StandingIsLast(ownership, setting, spans, record.last);
    }
    if StandsAt(ownership, setting, anchor).Some? {
      StandingIsLast(ownership, setting, spans, anchor);
    }
  }

  // ------------------------------------------------------------- the whole undo

  /** The first torn claim stops the planner. */
  lemma {:induction false} TornStopsUndo(ownership: BatchOwnership, setting: Setting, records: seq<RestoreRecord>, spans: seq<Span>,
                                         work: Restoration, count: nat)
    requires Matched(ownership, setting) && count <= |ownership.deletions| == |records|
    requires work.Valid() && work.claims == ownership.deletions && work.records == Some(records)
    requires forall k :: 0 <= k < |records| && records[k].flag == 3 ==> work.trusted.Some?
    ensures var reversed := ReversedTo(ownership, setting, spans, |setting.sides.working|);
      if exists k :: 0 <= k < count && Torn(ownership, setting, records, spans, k)
      then PlanUpTo(reversed, work, count) == Err(AmbiguousReplacement)
      else LandUpTo(reversed, work, PlacesOf(ownership, setting, records, spans), count)
  {
    hide ReversedTo, PlaceOf, Torn, ClaimBoundary, LandsAt, Matched, StandsAt;
    if count > 0 {
      hide PlanUpTo, PlanClaim;
      TornStopsUndo(ownership, setting, records, spans, work, count - 1);
      ClaimLandsInPlace(ownership, setting, records, spans, work, count - 1);
      var reversed, at := ReversedTo(ownership, setting, spans, |setting.sides.working|), PlacesOf(ownership, setting, records, spans);
      if !(exists k :: 0 <= k < count - 1 && Torn(ownership, setting, records, spans, k)) {
        PlanIsMissing(reversed, work, at, count - 1);
      }
      PlanGoesOn(reversed, work, count - 1);
    }
  }

  /** A failed plan stays failed, and a claim without a place fails it. */
  lemma PlanGoesOn(entries: seq<Entry>, work: Restoration, k: nat)
    requires work.Valid() && k < |work.claims|
    ensures match PlanUpTo(entries, work, k)
      case Err(error) => PlanUpTo(entries, work, k + 1) == Err(error)
      case Ok(_) =>
        match ClaimBoundary(entries, work, k)
        case Err(error) => !work.Skips(k) && work.Content(k).Ok? ==> PlanUpTo(entries, work, k + 1) == Err(error)
        case Ok(_) => true
  {
    hide ClaimBoundary, Place;
  }

  /** The declared outcome of an undo that reversal lets through. */
  ghost function Settled(ownership: BatchOwnership, setting: Setting, records: seq<RestoreRecord>, spans: seq<Span>): Result<seq<Line>, DiscardError>
    requires Matched(ownership, setting) && |ownership.deletions| == |records| && WorkOf(ownership, setting, records).Valid()
  {
    var work, at := WorkOf(ownership, setting, records), PlacesOf(ownership, setting, records, spans);
    var lines := Contents(ReversedTo(ownership, setting, spans, |setting.sides.working|));
    if exists k :: 0 <= k < |records| && Torn(ownership, setting, records, spans, k) then Err(CannotRestoreText(AmbiguousReplacement))
    else if exists k :: 0 <= k < |records| && Overshoots(lines, work, at, k) then Err(CannotRestoreText(InvalidRange))
    else Ok(Woven(lines, Blocks(lines, work, at), |lines|))
  }

  lemma PlanSettles(ownership: BatchOwnership, setting: Setting, records: seq<RestoreRecord>, spans: seq<Span>)
    requires Matched(ownership, setting) && RestorePlan(ownership, setting.sides, records, spans)
    ensures |ownership.deletions| == |records| && WorkOf(ownership, setting, records).Valid()
    ensures forall k :: 0 <= k < |records| && records[k].flag == 3 ==> WorkOf(ownership, setting, records).trusted.Some?
    ensures RequestOf(ownership, setting, spans).Valid()
  {
    hide FinalRecord, RestoredApart, Contains;
    RecordsFit(ownership, setting.sides, records);
  }

  /** Reversal leaves what every worktree line leaves, unless some line is blocked. */
  lemma ReversalInWorktree(ownership: BatchOwnership, setting: Setting, spans: seq<Span>)
    requires Matched(ownership, setting) && RequestOf(ownership, setting, spans).Valid()
    ensures var result := ReversalResult(RequestOf(ownership, setting, spans), PreservedFirst, EntriesOf(setting));
      if exists t :: 1 <= t <= |setting.sides.working| && BlockedAt(ownership, setting, spans, t) then result.Err?
      else result == Ok(ReversedTo(ownership, setting, spans, |setting.sides.working|))
  {
    hide Blocked, ReverseUpTo, EntriesOf, EmissionsUpTo;
    var request, entries := RequestOf(ownership, setting, spans), EntriesOf(setting);
    WorktreeReversal(request, PreservedFirst, entries, |entries|);
    if Unblocked(request, PreservedFirst, entries, |entries|) {
      forall t | 1 <= t <= |setting.sides.working| ensures !BlockedAt(ownership, setting, spans, t) {
        assert !Blocked(request, PreservedFirst, entries[t - 1].provenance.source);
      }
    } else {
      var i :| 0 <= i < |entries| && Blocked(request, PreservedFirst, entries[i].provenance.source);
      assert BlockedAt(ownership, setting, spans, i + 1);
    }
  }

  lemma RestoreSettles(ownership: BatchOwnership, setting: Setting, records: seq<RestoreRecord>, spans: seq<Span>)
    requires Matched(ownership, setting) && |ownership.deletions| == |records| && WorkOf(ownership, setting, records).Valid()
    requires forall k :: 0 <= k < |records| && records[k].flag == 3 ==> WorkOf(ownership, setting, records).trusted.Some?
    ensures match Restore(ReversedTo(ownership, setting, spans, |setting.sides.working|), WorkOf(ownership, setting, records))
      case Err(error) => Settled(ownership, setting, records, spans) == Err(CannotRestoreText(error))
      case Ok(restored) => Settled(ownership, setting, records, spans) == Ok(Contents(restored))
  {
    hide ReversedTo, Torn, Overshoots, LandUpTo, Restore, WeaveTo, Woven, Blocks, Contents, PlaceOf, PlanUpTo, Matched;
    var reversed, work := ReversedTo(ownership, setting, spans, |setting.sides.working|), WorkOf(ownership, setting, records);
    var at := PlacesOf(ownership, setting, records, spans);
    TornStopsUndo(ownership, setting, records, spans, work, |records|);
    if exists k :: 0 <= k < |records| && Torn(ownership, setting, records, spans, k) {
      PlanMeets(reversed, work);
    } else {
      RestoreWeaves(reversed, work, at);
      assert |Contents(reversed)| == |reversed|;
      WeaveContents(reversed, Blocks(Contents(reversed), work, at), |reversed|);
    }
  }

  lemma UndoneIs(ownership: BatchOwnership, setting: Setting, records: seq<RestoreRecord>, spans: seq<Span>)
    requires WorkOf(ownership, setting, records).Valid()
    ensures match ReversalResult(RequestOf(ownership, setting, spans), PreservedFirst, EntriesOf(setting))
      case Err(error) => Undone(ownership, setting, records, spans) == Err(CannotReverse(error))
      case Ok(reversed) =>
        match Restore(reversed, WorkOf(ownership, setting, records))
        case Err(error) => Undone(ownership, setting, records, spans) == Err(CannotRestoreText(error))
        case Ok(restored) => Undone(ownership, setting, records, spans) == Ok(Contents(restored))
  {
    hide Restore, ReversalResult, WorkingEntries, Contents;
  }

  /**
   Undo in any worktree matched one to one with the batch source.  It stops for a line that cannot be
   taken out, for a live replacement whose neighbours stand apart, and for a text pushed past the end; in
   every other case each worktree line leaves what it leaves, in worktree order, and each missing old text
   stands at its place.
   */
  lemma UndoInWorktree(ownership: BatchOwnership, setting: Setting, records: seq<RestoreRecord>, spans: seq<Span>)
    requires Matched(ownership, setting) && RestorePlan(ownership, setting.sides, records, spans)
    ensures |ownership.deletions| == |records| && WorkOf(ownership, setting, records).Valid()
    ensures if exists t :: 1 <= t <= |setting.sides.working| && BlockedAt(ownership, setting, spans, t)
            then Undone(ownership, setting, records, spans).Err? && Undone(ownership, setting, records, spans).error.CannotReverse?
            else Undone(ownership, setting, records, spans) == Settled(ownership, setting, records, spans)
  {
    PlanSettles(ownership, setting, records, spans);
    hide *;
    ReversalInWorktree(ownership, setting, spans);
    UndoneIs(ownership, setting, records, spans);
    RestoreSettles(ownership, setting, records, spans);
  }

  // ------------------------------------------------------ owned insertions only

  /** The first worktree lines without those where an owned source line stands. */
  ghost function LinesWithout(ownership: BatchOwnership, setting: Setting, t: nat): seq<Line>
    requires t <= |setting.sides.working|
  {
    var at := setting.sides.toWorking.toTarget;
    if t == 0 then []
    else
      LinesWithout(ownership, setting, t - 1)
        + if exists s: nat :: s in at && at[s] == t && Contains(ownership.presence, s) then [] else [setting.sides.working[t - 1]]
  }

  /** A batch of pure insertions: nothing deleted, every owned line in an insertion region, none inherited. */
  ghost predicate OnlyInserts(ownership: BatchOwnership, setting: Setting) {
    && ownership.deletions == [] && ownership.units == [] && setting.structural == []
    && forall line: nat :: Contains(ownership.presence, line) && line in setting.sides.toWorking.toTarget ==>
         && line !in setting.sides.preserved
         && RegionFor(setting.regions, line).Some? && RegionFor(setting.regions, line).value.kind == Insert
  }

  lemma InsertedLine(ownership: BatchOwnership, setting: Setting, spans: seq<Span>, t: nat)
    requires Matched(ownership, setting) && OnlyInserts(ownership, setting) && 1 <= t <= |setting.sides.working|
    ensures !BlockedAt(ownership, setting, spans, t)
    ensures Contents(LeftBy(ownership, setting, spans, t)) ==
      var at := setting.sides.toWorking.toTarget;
      if exists s: nat :: s in at && at[s] == t && Contains(ownership.presence, s) then [] else [setting.sides.working[t - 1]]
  {
    WorkingLineComesFrom(setting.sides.working, setting.sides.toWorking, [], t - 1);
    var line := EntriesOf(setting)[t - 1].provenance.source;
    assert !Contains(setting.structural, line);
    hide Contains, Started, WorkingEntries;
  }

  lemma {:induction false} InsertionsLeave(ownership: BatchOwnership, setting: Setting, spans: seq<Span>, t: nat)
    requires Matched(ownership, setting) && OnlyInserts(ownership, setting) && t <= |setting.sides.working|
    ensures Contents(ReversedTo(ownership, setting, spans, t)) == LinesWithout(ownership, setting, t)
  {
    if t > 0 {
      InsertionsLeave(ownership, setting, spans, t - 1);
      InsertedLine(ownership, setting, spans, t);
      ReversedNext(ownership, setting, spans, t);
      hide ReversedTo, LeftBy, Contents;
      ContentsAppend(ReversedTo(ownership, setting, spans, t - 1), LeftBy(ownership, setting, spans, t));
    }
  }

  lemma {:induction false} NothingWoven(lines: seq<Line>, blocks: seq<seq<Line>>, q: nat)
    requires q <= |lines| && |blocks| == |lines| + 1 && forall p :: 0 <= p < |blocks| ==> blocks[p] == []
    ensures Woven(lines, blocks, q) == lines[..q]
  {
    if q > 0 {
      NothingWoven(lines, blocks, q - 1);
      assert lines[..q] == lines[..q - 1] + [lines[q - 1]];
    }
  }

  /** Undoing pure insertions leaves exactly the worktree lines, in order, where no owned line stands. */
  lemma InsertionsAreTakenOut(ownership: BatchOwnership, setting: Setting, records: seq<RestoreRecord>, spans: seq<Span>)
    requires Matched(ownership, setting) && OnlyInserts(ownership, setting) && RestorePlan(ownership, setting.sides, records, spans)
    ensures !CannotRestore(ownership, setting.sides) && WorkOf(ownership, setting, records).Valid()
    ensures Undone(ownership, setting, records, spans) == Ok(LinesWithout(ownership, setting, |setting.sides.working|))
  {
    UndoInWorktree(ownership, setting, records, spans);
    forall t | 1 <= t <= |setting.sides.working| ensures !BlockedAt(ownership, setting, spans, t) {
      InsertedLine(ownership, setting, spans, t);
    }
    InsertionsLeave(ownership, setting, spans, |setting.sides.working|);
    hide Matched, OnlyInserts, ReversedTo, BlockedAt, Undone, FinalRecords, Contains;
    var work, at := WorkOf(ownership, setting, records), PlacesOf(ownership, setting, records, spans);
    var lines := Contents(ReversedTo(ownership, setting, spans, |setting.sides.working|));
    NothingWoven(lines, Blocks(lines, work, at), |lines|);
    assert lines[..|lines|] == lines;
  }
}
