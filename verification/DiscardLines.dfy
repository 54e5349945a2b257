/** What one worktree line leaves when a batch is undone, told by its source line, the claims and the regions (batch/discard_reversal.py). */
module DiscardLines {
  import opened Wrappers
  import opened LineRanges
  import opened Realized
  import opened LineMatching
  import opened BaselineCorrespondence
  import opened DiscardReversal
  import opened DiscardReversalMeaning
  import opened Ownership
  import opened DiscardRestoration
  import opened LegacyReplacements
  import opened ReplacementGroups
  import opened ReplacementClaims
  import opened Discard
  import opened DiscardInWorktree

  /** The source line s stands at the worktree line t. */
  predicate At(setting: Setting, s: nat, t: nat) {
    s in setting.sides.toWorking.toTarget && setting.sides.toWorking.toTarget[s] == t
  }

  /** An owned line whose baseline text has to come back. */
  predicate GoesBack(ownership: BatchOwnership, setting: Setting, s: nat) {
    Contains(ownership.presence, s) && !Contains(setting.structural, s) && s !in setting.sides.preserved
  }

  /** The line at t calls for the whole old text of its region. */
  ghost predicate CallsAt(ownership: BatchOwnership, setting: Setting, region: Region, t: nat) {
    exists s: nat :: At(setting, s, t) && region.first <= s <= region.last && GoesBack(ownership, setting, s)
      && !Contains(setting.independent, s) && !RestoredApart(ownership, setting.sides, s)
  }

  /** The spans are the lines restored apart. */
  ghost predicate Apart(ownership: BatchOwnership, setting: Setting, spans: seq<Span>) {
    forall line :: Contains(spans, line) <==> RestoredApart(ownership, setting.sides, line)
  }

  lemma ComesFrom(ownership: BatchOwnership, setting: Setting, s: nat, t: nat)
    requires Matched(ownership, setting) && At(setting, s, t) && 1 <= t <= |setting.sides.working|
    ensures s > 0 && EntriesOf(setting)[t - 1].provenance.source == s
  {
    hide WorkingEntries, Contains;
    WorkingLineComesFrom(setting.sides.working, setting.sides.toWorking, [], t - 1);
  }

  /** Undo refuses when some independent line is not a trusted insertion. */
  lemma UntrustedIsRefused(ownership: BatchOwnership, setting: Setting, records: seq<RestoreRecord>, spans: seq<Span>, line: int)
    requires WorkOf(ownership, setting, records).Valid()
    requires Contains(setting.independent, line) && !Contains(setting.trustedInsertions, line)
    ensures Undone(ownership, setting, records, spans) == Err(CannotReverse(IndependentNotTrusted))
  {
    SubsetMeaning(setting.independent, setting.trustedInsertions);
    hide Contains, IsSubset, Restore, Contents, WorkingEntries;
  }

  /** A line that is not the batch's, or that the saved batch does not let go, stays as it is. */
  lemma OtherLineStays(ownership: BatchOwnership, setting: Setting, spans: seq<Span>, t: nat)
    requires Matched(ownership, setting) && 1 <= t <= |setting.sides.working|
    requires forall s: nat :: At(setting, s, t) ==>
      s in setting.sides.preserved || !(Contains(ownership.presence, s) || Contains(setting.structural, s))
    ensures !BlockedAt(ownership, setting, spans, t) && Contents(LeftBy(ownership, setting, spans, t)) == [setting.sides.working[t - 1]]
  {
    hide WorkingEntries, Contains, Started;
    WorkingLineComesFrom(setting.sides.working, setting.sides.toWorking, [], t - 1);
    var s := EntriesOf(setting)[t - 1].provenance.source;
    assert s > 0 ==> At(setting, s, t);
  }

  /** An inherited line that is not preserved leaves nothing. */
  lemma InheritedLineGoes(ownership: BatchOwnership, setting: Setting, spans: seq<Span>, t: nat, s: nat)
    requires Matched(ownership, setting) && 1 <= t <= |setting.sides.working| && At(setting, s, t)
    requires Contains(setting.structural, s) && s !in setting.sides.preserved
    ensures !BlockedAt(ownership, setting, spans, t) && LeftBy(ownership, setting, spans, t) == []
  {
    hide WorkingEntries, Contains, Started;
    ComesFrom(ownership, setting, s, t);
  }

  /** An owned line in no region cannot be taken out. */
  lemma LineWithoutRegion(ownership: BatchOwnership, setting: Setting, spans: seq<Span>, t: nat, s: nat)
    requires Matched(ownership, setting) && 1 <= t <= |setting.sides.working| && At(setting, s, t) && GoesBack(ownership, setting, s)
    requires forall i :: 0 <= i < |setting.regions| ==> !(setting.regions[i].first <= s <= setting.regions[i].last)
    ensures BlockedAt(ownership, setting, spans, t)
  {
    hide WorkingEntries, Contains, Started;
    ComesFrom(ownership, setting, s, t);
  }

  /** Line-by-line regions give back the baseline line at the same offset, insertions give back nothing. */
  lemma LineInRegion(ownership: BatchOwnership, setting: Setting, spans: seq<Span>, t: nat, s: nat, i: nat)
    requires Matched(ownership, setting) && 1 <= t <= |setting.sides.working| && At(setting, s, t) && GoesBack(ownership, setting, s)
    requires i < |setting.regions| && setting.regions[i].first <= s <= setting.regions[i].last && setting.regions[i].kind != ReplaceByHunk
    ensures var region := setting.regions[i];
      if region.kind == Insert then !BlockedAt(ownership, setting, spans, t) && LeftBy(ownership, setting, spans, t) == []
      else if s - region.first < |region.baseline| then
        !BlockedAt(ownership, setting, spans, t) && Contents(LeftBy(ownership, setting, spans, t)) == [region.baseline[s - region.first]]
      else BlockedAt(ownership, setting, spans, t)
  {
    hide WorkingEntries, Contains, Started;
    ComesFrom(ownership, setting, s, t);
    RegionIsUnique(setting.regions, s, i);
  }

  lemma CallIs(ownership: BatchOwnership, setting: Setting, spans: seq<Span>, region: Region, t: nat)
    requires Matched(ownership, setting) && Apart(ownership, setting, spans) && 1 <= t <= |setting.sides.working| && region.first >= 1
    ensures Calls(RequestOf(ownership, setting, spans), PreservedFirst, region, EntriesOf(setting)[t - 1].provenance.source)
       <==> CallsAt(ownership, setting, region, t)
  {
    hide WorkingEntries, Contains, RestoredApart;
    WorkingLineComesFrom(setting.sides.working, setting.sides.toWorking, [], t - 1);
    var s := EntriesOf(setting)[t - 1].provenance.source;
    assert s > 0 ==> At(setting, s, t);
  }

  lemma StartIs(ownership: BatchOwnership, setting: Setting, spans: seq<Span>, region: Region, t: nat)
    requires Matched(ownership, setting) && Apart(ownership, setting, spans) && 1 <= t <= |setting.sides.working| && region.first >= 1
    ensures Started(RequestOf(ownership, setting, spans), PreservedFirst, region, EntriesOf(setting), t - 1)
       <==> exists u :: 1 <= u < t && CallsAt(ownership, setting, region, u)
  {
    var request, entries := RequestOf(ownership, setting, spans), EntriesOf(setting);
    forall u | 1 <= u < t
      ensures Calls(request, PreservedFirst, region, entries[u - 1].provenance.source) <==> CallsAt(ownership, setting, region, u)
    {
      CallIs(ownership, setting, spans, region, u);
    }
    hide Calls, CallsAt, EntriesOf, Matched, Apart;
    if Started(request, PreservedFirst, region, entries, t - 1) {
      var j :| 0 <= j < t - 1 && Calls(request, PreservedFirst, region, entries[j].provenance.source);
      assert CallsAt(ownership, setting, region, j + 1);
    }
    if u :| 1 <= u < t && CallsAt(ownership, setting, region, u) {
      assert Calls(request, PreservedFirst, region, entries[u - 1].provenance.source);
    }
  }

  /**
   A line of a by-hunk region: independent lines and those restored apart just go.  Any other cannot be taken
   out unless the whole region is owned and meets no trusted line; then the first one that calls for it
   leaves the whole old text, and the rest nothing.
   */
  lemma LineInHunk(ownership: BatchOwnership, setting: Setting, spans: seq<Span>, t: nat, s: nat, i: nat)
    requires Matched(ownership, setting) && Apart(ownership, setting, spans)
    requires 1 <= t <= |setting.sides.working| && At(setting, s, t) && GoesBack(ownership, setting, s)
    requires i < |setting.regions| && setting.regions[i].first <= s <= setting.regions[i].last && setting.regions[i].kind == ReplaceByHunk
    ensures var region := setting.regions[i];
      if Contains(setting.independent, s) || RestoredApart(ownership, setting.sides, s)
      then !BlockedAt(ownership, setting, spans, t) && LeftBy(ownership, setting, spans, t) == []
      else
        && (BlockedAt(ownership, setting, spans, t) <==>
              exists line :: region.first <= line <= region.last && (Contains(setting.trustedInsertions, line) || !Contains(ownership.presence, line)))
        && Contents(LeftBy(ownership, setting, spans, t)) ==
             if exists u :: 1 <= u < t && CallsAt(ownership, setting, region, u) then [] else region.baseline
  {
    hide WorkingEntries, Contains, Started, RestoredApart, CallsAt;
    ComesFrom(ownership, setting, s, t);
    RegionIsUnique(setting.regions, s, i);
    StartIs(ownership, setting, spans, setting.regions[i], t);
    assert Contents(Unowned(setting.regions[i].baseline)) == setting.regions[i].baseline;
  }
}
