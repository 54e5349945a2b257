/** Who owns the differences of two files, told by the texts and alignments alone (batch/attribution.py:503-713). */
module AttributionMeaning {
  import opened Wrappers
  import opened LineRanges
  import opened Realized
  import opened LineMatching
  import opened AttributionUnits
  import opened FileComparisonUnits
  import opened ComparisonMeaning
  import opened Attribution

  /** The texts agree: one line literally, several lines by their fingerprint. */
  predicate HoldsSame(digests: Digests, source: seq<Line>, line: int, working: seq<Line>, from: int, upto: int)
    requires 1 <= line && 1 <= from <= upto <= |working| && line + (upto - from) <= |source|
  {
    if from == upto then source[line - 1] == working[from - 1]
    else digests.ofLines(source[line - 1..line + (upto - from)]) == digests.ofLines(working[from - 1..upto])
  }

  /** Claimed source lines hold the text of worktree lines, and the first one stands where those begin. */
  ghost predicate ClaimsFrom(file: File, context: Context, c: Comparison, s: nat, from: int, upto: int)
    requires 1 <= from <= upto <= |c.working|
  {
    && s in context.alignment.toTarget && context.alignment.toTarget[s] == from
    && 1 <= s && s + (upto - from) <= |context.source|
    && (forall x :: s <= x <= s + (upto - from) ==> Contains(context.presence, x))
    && HoldsSame(file.digests, context.source, s, c.working, from, upto)
  }

  /** The batch claims the text of these worktree lines. */
  ghost predicate ClaimsText(file: File, context: Context, c: Comparison, from: int, upto: int)
    requires 1 <= from <= upto <= |c.working|
  {
    exists s: nat :: ClaimsFrom(file, context, c, s, from, upto)
  }

  /** The entry stands where the deleted lines stood; one whose line is gone counts as standing at the start. */
  ghost predicate StandsThere(context: Context, c: Comparison, entry: DeletionEntry, first: int)
    requires first > 1 ==> first - 1 in c.alignment
  {
    var at := context.alignment.toTarget;
    if first <= 1 then entry.after.None? || entry.after.value !in at
    else entry.after.Some? && entry.after.value in at && at[entry.after.value] == c.alignment[first - 1]
  }

  /** One deletion entry of the batch has the fingerprint of the deleted lines, and stands where they stood. */
  ghost predicate KeepsText(file: File, context: Context, c: Comparison, first: int, last: int)
    requires DeletedRun(c, first, last)
  {
    exists i :: 0 <= i < |context.deletions| && KeepsAt(file, context, c, context.deletions[i], first, last)
  }

  ghost predicate KeepsAt(file: File, context: Context, c: Comparison, entry: DeletionEntry, first: int, last: int)
    requires DeletedRun(c, first, last)
  {
    && entry.blob != "" && entry.blob in file.blobs && file.blobs[entry.blob] == file.digests.ofLines(c.baseline[first - 1..last])
    && StandsThere(context, c, entry, first)
  }

  /** Which lines a batch claims, in a range of source lines. */
  lemma ClaimsAre(context: Context, first: int, count: int)
    ensures (forall x :: first <= x < first + count ==> context.Claims(x))
       <==> forall x :: first <= x <= first + (count - 1) ==> Contains(context.presence, x)
  {
    hide Contains;
    if forall x :: first <= x < first + count ==> context.Claims(x) {
      forall x | first <= x <= first + (count - 1) ensures Contains(context.presence, x) {
        assert context.Claims(x);
      }
    }
  }

  /** The claimed range that begins at a source line matches exactly when it holds the added text. */
  lemma RangeIsClaimed(file: File, context: Context, c: Comparison, unit: AttributionUnit, from: int, upto: int, s: nat)
    requires AddedRun(c, from, upto) && from < upto && TellsAdded(file.digests, c, unit, from, upto)
    requires s in context.alignment.toTarget && context.alignment.toTarget[s] == from
    ensures RangeMatches(file, context, unit, s) <==> ClaimsFrom(file, context, c, s, from, upto)
  {
    ClaimsAre(context, s, upto - from + 1);
    hide Contains, AddedRun;
  }

  lemma PresenceIsClaimed(file: File, context: Context, c: Comparison, unit: AttributionUnit, from: int, upto: int)
    requires context.alignment.Inverse() && AddedRun(c, from, upto) && TellsAdded(file.digests, c, unit, from, upto)
    ensures OwnsPresence(file, context, unit) <==> ClaimsText(file, context, c, from, upto)
  {
    if from == upto {
      LineIsClaimed(file, context, c, unit, from);
    } else {
      var source := context.alignment.Source(from);
      if source.Some? {
        RangeIsClaimed(file, context, c, unit, from, upto, source.value);
      }
      hide RangeMatches, HoldsSame, AddedRun;
      if OwnsPresence(file, context, unit) {
        assert ClaimsFrom(file, context, c, source.value, from, upto);
      }
      if s: nat :| ClaimsFrom(file, context, c, s, from, upto) {
        assert source == Some(s);
        assert Contains(context.presence, s);
      }
    }
  }

  lemma LineIsClaimed(file: File, context: Context, c: Comparison, unit: AttributionUnit, line: int)
    requires context.alignment.Inverse() && 1 <= line <= |c.working| && unit.line == Some(line) && unit.content == Some(c.working[line - 1])
    ensures OwnsPresence(file, context, unit) <==> ClaimsText(file, context, c, line, line)
  {
    if OwnsPresence(file, context, unit) {
      assert ClaimsFrom(file, context, c, context.alignment.Source(line).value, line, line);
    }
    if s: nat :| ClaimsFrom(file, context, c, s, line, line) {
      assert context.alignment.Source(line) == Some(s);
      assert context.Claims(s);
    }
  }

  lemma DeletionIsKept(file: File, context: Context, c: Comparison, unit: AttributionUnit, first: int, last: int)
    requires DeletedRun(c, first, last) && TellsRemoved(file.digests, c, unit, first, last)
    ensures OwnsDeletion(file, context, unit) <==> KeepsText(file, context, c, first, last)
  {
    forall i | 0 <= i < |context.deletions|
      ensures EntryMatches(file, context, unit, context.deletions[i]) <==> KeepsAt(file, context, c, context.deletions[i], first, last)
    {
    }
    hide EntryMatches, KeepsAt;
  }

  /**
   A batch owns the unit of a replacement exactly when it claims source lines with the text of the added
   lines, beginning where they begin, and one of its deletion entries keeps the deleted lines at their place.
   */
  lemma ReplacementIsOwned(file: File, context: Context, c: Comparison, unit: AttributionUnit, first: int, last: int, from: int, upto: int)
    requires context.alignment.Inverse() && IsReplacement(file.digests, c, unit, first, last, from, upto)
    ensures Owns(file, context, unit) <==> ClaimsText(file, context, c, from, upto) && KeepsText(file, context, c, first, last)
  {
    PresenceIsClaimed(file, context, c, unit, from, upto);
    DeletionIsKept(file, context, c, unit, first, last);
    hide OwnsPresence, OwnsDeletion, ClaimsText, KeepsText;
  }

  /** A batch owns the unit of a deletion exactly when one of its deletion entries keeps the deleted lines at their place. */
  lemma DeletionIsOwned(file: File, context: Context, c: Comparison, unit: AttributionUnit, first: int, last: int)
    requires IsDeletion(file.digests, c, unit, first, last)
    ensures Owns(file, context, unit) <==> KeepsText(file, context, c, first, last)
  {
    DeletionIsKept(file, context, c, unit, first, last);
    hide OwnsPresence, OwnsDeletion, KeepsText;
  }

  /** A batch owns the unit of an added line exactly when it claims the same line where it stands. */
  lemma AdditionIsOwned(file: File, context: Context, c: Comparison, unit: AttributionUnit, from: int, upto: int, line: int)
    requires context.alignment.Inverse() && IsAddition(file.digests, c, unit, from, upto, line)
    ensures Owns(file, context, unit) <==> ClaimsText(file, context, c, line, line)
  {
    LineIsClaimed(file, context, c, unit, line);
    hide OwnsPresence, OwnsDeletion, ClaimsText;
  }

  /** A claimed source line holds this text and does not stand in the worktree. */
  predicate ClaimsGone(context: Context, s: nat, content: Line) {
    && 1 <= s <= |context.source| && Contains(context.presence, s) && context.source[s - 1] == content
    && s !in context.alignment.toTarget
  }

  /** A batch owns the unit of a line that left the worktree exactly when it claims such a line that is not there. */
  lemma MissingLineIsOwned(file: File, context: Context, content: Line)
    ensures Owns(file, context, PresenceUnit(file, None, content)) <==>
      exists s: nat :: ClaimsGone(context, s, content)
  {
    var unit := PresenceUnit(file, None, content);
    if OwnsPresence(file, context, unit) {
      var line :| 1 <= line <= |context.source| && HoldsMissing(file, context, unit, line);
      assert context.alignment.Target(line).None?;
      assert ClaimsGone(context, line, content);
    }
    if s: nat :| ClaimsGone(context, s, content) {
      assert context.Claims(s);
      assert HoldsMissing(file, context, unit, s);
    }
  }

  /** The claimed lines from s on have this fingerprint, and none of them stands in the worktree. */
  ghost predicate ClaimsRunGone(file: File, context: Context, s: nat, count: nat, fingerprint: Fingerprint) {
    && 1 <= s && s - 1 + count <= |context.source|
    && (forall x: nat :: s <= x < s + count ==> Contains(context.presence, x) && x !in context.alignment.toTarget)
    && file.digests.ofLines(context.source[s - 1..s - 1 + count]) == fingerprint
  }

  /** Several lines that left the worktree are owned exactly when the batch claims such lines, all of them gone. */
  lemma MissingRunIsOwned(file: File, context: Context, unit: AttributionUnit)
    requires unit.kind == PresenceOnly && unit.line == None && unit.content == None
    requires unit.fingerprint.Some? && unit.lineCount.Some? && unit.lineCount.value > 0
    ensures Owns(file, context, unit) <==>
      exists s: nat :: ClaimsRunGone(file, context, s, unit.lineCount.value, unit.fingerprint.value)
  {
    hide Contains;
    var count := unit.lineCount.value;
    if Owns(file, context, unit) {
      var line :| 1 <= line <= |context.source| && HoldsMissing(file, context, unit, line);
      forall x: nat | line <= x < line + count ensures Contains(context.presence, x) && x !in context.alignment.toTarget {
        assert context.Claims(x) && context.alignment.Target(x).None?;
      }
      assert ClaimsRunGone(file, context, line, count, unit.fingerprint.value);
    }
    if s: nat :| ClaimsRunGone(file, context, s, count, unit.fingerprint.value) {
      RunHoldsMissing(file, context, unit, s);
      SomePresence(context, s);
    }
  }

  lemma SomePresence(context: Context, line: int)
    requires Contains(context.presence, line)
    ensures context.presence != []
  {
  }

  lemma RunHoldsMissing(file: File, context: Context, unit: AttributionUnit, s: nat)
    requires unit.content == None && unit.fingerprint.Some? && unit.lineCount.Some? && unit.lineCount.value > 0
    requires ClaimsRunGone(file, context, s, unit.lineCount.value, unit.fingerprint.value)
    ensures 1 <= s <= |context.source| && HoldsMissing(file, context, unit, s)
  {
    hide Contains;
    forall x | s <= x < s + unit.lineCount.value ensures context.Claims(x) && context.alignment.Target(x).None? {
      var line: nat := x;
      assert Contains(context.presence, line);
    }
  }

  // --------------------------------------------------------- what is proposed

  /** The unit goes by the identifier of its own fields. */
  predicate OwnId(file: File, unit: AttributionUnit) {
    unit.id == UnitId(file.digests, unit.kind, file.path, unit.line, unit.content, unit.fingerprint, unit.anchor, unit.deletion)
  }

  /** The unit of a claimed source line, at the worktree line where it stands if there is one. */
  predicate TellsClaim(file: File, context: Context, unit: AttributionUnit, s: nat) {
    var at := context.alignment.toTarget;
    && 1 <= s <= |context.source| && Contains(context.presence, s)
    && unit.kind == PresenceOnly && unit.content == Some(context.source[s - 1])
    && unit.line == (if s in at then Some(at[s]) else None)
    && unit.anchor == None && unit.deletion == None && unit.fingerprint == None && unit.lineCount == None
  }

  /** The unit of a deletion entry with a known blob, at the worktree line where the line it follows stands. */
  predicate TellsEntry(file: File, context: Context, unit: AttributionUnit, entry: DeletionEntry) {
    var at := context.alignment.toTarget;
    && entry.blob != "" && entry.blob in file.blobs
    && unit.kind == DeletionOnly && unit.deletion == Some(file.blobs[entry.blob])
    && unit.anchor == (if entry.after.Some? && entry.after.value in at then Some(at[entry.after.value]) else None)
    && unit.line == None && unit.content == None && unit.fingerprint == None && unit.lineCount == None
  }

  /** A batch proposes a unit for each claimed source line and each deletion entry, unless it claims lines of an empty source. */
  lemma ProposalsAre(file: File, context: Context, unit: AttributionUnit)
    ensures Proposes(file, context, unit) <==>
      && (context.source == [] ==> !context.claimsPresence)
      && OwnId(file, unit)
      && ((exists s: nat :: TellsClaim(file, context, unit, s))
          || exists i :: 0 <= i < |context.deletions| && TellsEntry(file, context, unit, context.deletions[i]))
  {
    hide UnitId, Contains;
    forall i | 0 <= i < |context.deletions|
      ensures ProposesEntry(file, context, context.deletions[i], unit) <==>
        OwnId(file, unit) && TellsEntry(file, context, unit, context.deletions[i])
    {
    }
    forall s: nat
      ensures ProposesLine(file, context, s, unit) <==>
        OwnId(file, unit) && TellsClaim(file, context, unit, s)
    {
    }
    if line :| ProposesLine(file, context, line, unit) {
      var s: nat := line;
      assert TellsClaim(file, context, unit, s);
    }
    hide ProposesEntry, TellsEntry, ProposesLine, TellsClaim;
  }

  // ------------------------------------------------------------- the table

  /** What makes a batch own a difference of the two files. */
  ghost predicate OwnsDifference(file: File, context: Context, c: Comparison, unit: AttributionUnit) {
    match unit.kind
    case Replacement =>
      exists first, last, from, upto :: IsReplacement(file.digests, c, unit, first, last, from, upto)
        && ClaimsText(file, context, c, from, upto) && KeepsText(file, context, c, first, last)
    case DeletionOnly =>
      exists first, last :: IsDeletion(file.digests, c, unit, first, last) && KeepsText(file, context, c, first, last)
    case PresenceOnly =>
      exists from, upto, line :: IsAddition(file.digests, c, unit, from, upto, line) && ClaimsText(file, context, c, line, line)
  }

  lemma DifferenceIsOwned(file: File, context: Context, c: Comparison, unit: AttributionUnit)
    requires context.alignment.Inverse() && TellsDifference(file.digests, c, unit)
    ensures Owns(file, context, unit) <==> OwnsDifference(file, context, c, unit)
  {
    hide Owns, ClaimsText, KeepsText, HasOwnId, TellsRemoved, TellsAdded, AtSamePlace;
    forall first, last, from, upto | IsReplacement(file.digests, c, unit, first, last, from, upto)
      ensures Owns(file, context, unit) <==> ClaimsText(file, context, c, from, upto) && KeepsText(file, context, c, first, last)
    {
      ReplacementIsOwned(file, context, c, unit, first, last, from, upto);
    }
    forall first, last | IsDeletion(file.digests, c, unit, first, last)
      ensures Owns(file, context, unit) <==> KeepsText(file, context, c, first, last)
    {
      DeletionIsOwned(file, context, c, unit, first, last);
    }
    forall from, upto, line | IsAddition(file.digests, c, unit, from, upto, line)
      ensures Owns(file, context, unit) <==> ClaimsText(file, context, c, line, line)
    {
      AdditionIsOwned(file, context, c, unit, from, upto, line);
    }
  }

  /** After attribution, the owners of a difference are exactly the batches that hold its text where it stands. */
  lemma OwnersOfDifference(file: File, c: Comparison, ids: seq<string>, units: map<string, AttributionUnit>, owners: map<string, set<string>>,
                           contexts: seq<Context>, id: string, batch: string)
    requires Attributed(file, ids, units, owners, contexts, |contexts|)
    requires forall b :: 0 <= b < |contexts| ==> contexts[b].alignment.Inverse()
    requires id in ids && id in units && TellsDifference(file.digests, c, units[id])
    ensures batch in OwnersOf(owners, id) <==>
      exists b :: 0 <= b < |contexts| && contexts[b].batch == batch && OwnsDifference(file, contexts[b], c, units[id])
  {
    hide Owns, OwnsDifference, TellsDifference, Owners, Stored, Enumerates, BatchShaped;
    OwnersAre(file, contexts, |contexts|, true, units[id], batch);
    forall b | 0 <= b < |contexts| ensures Owns(file, contexts[b], units[id]) <==> OwnsDifference(file, contexts[b], c, units[id]) {
      DifferenceIsOwned(file, contexts[b], c, units[id]);
    }
  }

  /** Fingerprints tell texts apart. */
  ghost predicate TellApart(digests: Digests) {
    forall a, b :: digests.ofLines(a) == digests.ofLines(b) ==> a == b
  }

  /** Where fingerprints tell texts apart, what a batch claims is literally the text of the worktree. */
  lemma SameMeansEqual(digests: Digests, source: seq<Line>, line: int, working: seq<Line>, from: int, upto: int)
    requires 1 <= line && 1 <= from <= upto <= |working| && line + (upto - from) <= |source| && TellApart(digests)
    ensures HoldsSame(digests, source, line, working, from, upto) <==> source[line - 1..line + (upto - from)] == working[from - 1..upto]
  {
    if from == upto {
      assert source[line - 1..line + (upto - from)] == [source[line - 1]] && working[from - 1..upto] == [working[from - 1]];
    }
  }
}
