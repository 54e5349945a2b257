/** Which batches own which units of a file (batch/attribution.py:389-430, 503-713). */
module Attribution {
  import opened Wrappers
  import opened LineRanges
  import opened Realized
  import opened LineMatching
  import opened AttributionUnits

  /** Old text kept as a blob, after a source line or at the start; an entry without a blob has the empty name. */
  datatype DeletionEntry = DeletionEntry(blob: string, after: Option<nat>)

  /** One batch's claims on the file, with the alignment from its source to the worktree. */
  datatype Context = Context(
    batch: string,
    source: seq<Line>,
    alignment: LineMapping,
    presence: seq<Span>,
    claimsPresence: bool,
    deletions: seq<DeletionEntry>)
  {
    predicate Valid() {
      forall i :: 0 <= i < |presence| ==> presence[i].first <= presence[i].last
    }

    /** Presence claims without any source text: the batch's own units are not enumerated. */
    predicate LeavesEarly() {
      |source| == 0 && claimsPresence
    }

    predicate Claims(line: int) {
      Contains(presence, line)
    }
  }

  /** What all batches of one file share. */
  datatype File = File(path: string, digests: Digests, blobs: map<string, Fingerprint>)

  // ------------------------------------------------------------------ ownership

  /** The claimed lines from `line` on hold the unit's several lines. */
  predicate RangeMatches(file: File, context: Context, unit: AttributionUnit, line: int) {
    && unit.fingerprint.Some? && unit.lineCount.Some?
    && 1 <= line && line + unit.lineCount.value - 1 <= |context.source|
    && (forall x :: line <= x < line + unit.lineCount.value ==> context.Claims(x))
    && line - 1 + unit.lineCount.value >= 0
    && file.digests.ofLines(context.source[line - 1..line - 1 + unit.lineCount.value]) == unit.fingerprint.value
  }

  predicate Unmapped(context: Context, line: int, count: nat) {
    forall x :: line <= x < line + count ==> x >= 0 && context.alignment.Target(x).None?
  }

  /** A claimed line holds new text that is not in the worktree. */
  predicate HoldsMissing(file: File, context: Context, unit: AttributionUnit, line: int) {
    && context.Claims(line) && 1 <= line <= |context.source|
    && if unit.content.Some? then context.source[line - 1] == unit.content.value && Unmapped(context, line, 1)
       else RangeMatches(file, context, unit, line) && Unmapped(context, line, unit.lineCount.value)
  }

  /** The batch owns the added side: by structure and content where it is in the worktree, else by an unmapped claim. */
  predicate OwnsPresence(file: File, context: Context, unit: AttributionUnit) {
    && (unit.content.Some? || unit.fingerprint.Some?) && context.presence != []
    && if unit.line.Some? then
         var source := context.alignment.Source(unit.line.value);
         && source.Some? && context.Claims(source.value) && 1 <= source.value <= |context.source|
         && if unit.content.Some? then context.source[source.value - 1] == unit.content.value
            else RangeMatches(file, context, unit, source.value)
       else exists line :: 1 <= line <= |context.source| && HoldsMissing(file, context, unit, line)
  }

  function AnchorOf(context: Context, entry: DeletionEntry): Option<nat> {
    if entry.after.None? then None else context.alignment.Target(entry.after.value)
  }

  predicate EntryMatches(file: File, context: Context, unit: AttributionUnit, entry: DeletionEntry) {
    && entry.blob != "" && AnchorOf(context, entry) == unit.anchor
    && unit.deletion.Some? && entry.blob in file.blobs && file.blobs[entry.blob] == unit.deletion.value
  }

  /** The batch owns the removed side through one of its deletion entries. */
  predicate OwnsDeletion(file: File, context: Context, unit: AttributionUnit) {
    unit.deletion.Some? && exists i :: 0 <= i < |context.deletions| && EntryMatches(file, context, unit, context.deletions[i])
  }

  predicate Owns(file: File, context: Context, unit: AttributionUnit) {
    match unit.kind
    case PresenceOnly => OwnsPresence(file, context, unit)
    case DeletionOnly => OwnsDeletion(file, context, unit)
    case Replacement => OwnsPresence(file, context, unit) && OwnsDeletion(file, context, unit)
  }

  // --------------------------------------------------------------- enumeration

  function PresenceUnit(file: File, line: Option<nat>, content: Line): AttributionUnit {
    AttributionUnit(UnitId(file.digests, PresenceOnly, file.path, line, Some(content), None, None, None),
      PresenceOnly, line, Some(content), None, None, None, None)
  }

  function DeletionUnit(file: File, anchor: Option<nat>, deletion: Fingerprint): AttributionUnit {
    AttributionUnit(UnitId(file.digests, DeletionOnly, file.path, None, None, None, anchor, Some(deletion)),
      DeletionOnly, None, None, anchor, Some(deletion), None, None)
  }

  /** The batch itself proposes a unit of one claimed line. */
  predicate ProposesLine(file: File, context: Context, line: int, unit: AttributionUnit) {
    context.Claims(line) && 1 <= line <= |context.source|
    && unit == PresenceUnit(file, context.alignment.Target(line), context.source[line - 1])
  }

  predicate ProposesEntry(file: File, context: Context, entry: DeletionEntry, unit: AttributionUnit) {
    entry.blob != "" && entry.blob in file.blobs && unit == DeletionUnit(file, AnchorOf(context, entry), file.blobs[entry.blob])
  }

  /** The identifier is among those the batch enumerates. */
  ghost predicate Enumerates(file: File, context: Context, id: string) {
    && !context.LeavesEarly()
    && ((exists line, unit :: ProposesLine(file, context, line, unit) && unit.id == id)
        || (exists i, unit :: 0 <= i < |context.deletions| && ProposesEntry(file, context, context.deletions[i], unit) && unit.id == id))
  }

  /** The batch itself proposes the unit. */
  ghost predicate Proposes(file: File, context: Context, unit: AttributionUnit) {
    && !context.LeavesEarly()
    && ((exists line :: ProposesLine(file, context, line, unit))
        || exists i :: 0 <= i < |context.deletions| && ProposesEntry(file, context, context.deletions[i], unit))
  }

  /** Stored units stay what they are, and every new one is proposed by the batch. */
  ghost predicate Extends(file: File, context: Context, before: map<string, AttributionUnit>, after: map<string, AttributionUnit>) {
    && (forall id :: id in before ==> id in after && after[id] == before[id])
    && forall id :: id in after && id !in before ==> Proposes(file, context, after[id])
  }

  lemma ExtendsFurther(file: File, context: Context, before: map<string, AttributionUnit>, middle: map<string, AttributionUnit>,
                       after: map<string, AttributionUnit>)
    requires Extends(file, context, before, middle) && Extends(file, context, middle, after)
    ensures Extends(file, context, before, after)
  {
    hide Proposes;
  }

  /** A unit of the shape that batches propose. */
  ghost predicate BatchShaped(file: File, unit: AttributionUnit) {
    || (unit.content.Some? && unit == PresenceUnit(file, unit.line, unit.content.value))
    || (unit.deletion.Some? && unit == DeletionUnit(file, unit.anchor, unit.deletion.value))
  }

  /** Pruning loses no owner: a batch enumerates every proposed unit that it owns, whoever proposed it. */
  lemma OwnersEnumerate(file: File, context: Context, unit: AttributionUnit)
    requires context.alignment.Inverse() && BatchShaped(file, unit) && Owns(file, context, unit) && !context.LeavesEarly()
    ensures Enumerates(file, context, unit.id)
  {
    if unit.kind == PresenceOnly {
      if unit.line.Some? {
        var line := context.alignment.Source(unit.line.value).value;
        assert ProposesLine(file, context, line, unit);
      } else {
        var line :| 1 <= line <= |context.source| && HoldsMissing(file, context, unit, line);
        assert context.alignment.Target(line).None?;
        assert ProposesLine(file, context, line, unit);
      }
    } else {
      var i :| 0 <= i < |context.deletions| && EntryMatches(file, context, unit, context.deletions[i]);
      assert ProposesEntry(file, context, context.deletions[i], unit);
    }
  }

  // ---------------------------------------------------------------- attribution

  /** The batches among the first `count` that own a unit, tested against all of them. */
  ghost function Owners(file: File, contexts: seq<Context>, count: nat, fromBaseline: bool, unit: AttributionUnit): set<string>
    requires count <= |contexts|
  {
    if count == 0 then {}
    else
      Owners(file, contexts, count - 1, fromBaseline, unit)
        + (if Owns(file, contexts[count - 1], unit) && (fromBaseline || !contexts[count - 1].LeavesEarly()) then {contexts[count - 1].batch} else {})
  }

  /** Every unit is stored under its identifier, and comes from the comparison or from a batch. */
  ghost predicate IsTable(file: File, baselineIds: seq<string>, units: map<string, AttributionUnit>, owners: map<string, set<string>>) {
    && (forall id :: id in baselineIds ==> id in units)
    && (forall id :: id in units ==> units[id].id == id && (id in baselineIds || BatchShaped(file, units[id])))
    && (forall id :: id in owners ==> id in units)
  }

  function OwnersOf(owners: map<string, set<string>>, id: string): set<string> {
    if id in owners then owners[id] else {}
  }

  /** All that the earlier batches enumerate is there. */
  ghost predicate Stored(file: File, units: map<string, AttributionUnit>, contexts: seq<Context>, count: nat)
    requires count <= |contexts|
  {
    forall b, id :: 0 <= b < count && Enumerates(file, contexts[b], id) ==> id in units
  }

  /** The first batches are attributed, and one more batch has been tested against some units. */
  ghost predicate Testing(file: File, baselineIds: seq<string>, units: map<string, AttributionUnit>, owners: map<string, set<string>>,
                          contexts: seq<Context>, count: nat, context: Context, tested: set<string>)
  {
    && IsTable(file, baselineIds, units, owners) && count <= |contexts| && Stored(file, units, contexts, count)
    && tested <= units.Keys
    && forall id :: id in units ==>
         OwnersOf(owners, id) == WithTested(file, contexts, count, context, tested, id in baselineIds, units[id])
  }

  /** Every unit has the owners found among the first batches. */
  ghost predicate Attributed(file: File, baselineIds: seq<string>, units: map<string, AttributionUnit>, owners: map<string, set<string>>,
                             contexts: seq<Context>, count: nat)
  {
    && IsTable(file, baselineIds, units, owners) && count <= |contexts| && Stored(file, units, contexts, count)
    && forall id :: id in units ==> OwnersOf(owners, id) == Owners(file, contexts, count, id in baselineIds, units[id])
  }

  /** Storing a new unit: no earlier batch owns it. */
  lemma ProposeKeepsTesting(file: File, baselineIds: seq<string>, units: map<string, AttributionUnit>, owners: map<string, set<string>>,
                            contexts: seq<Context>, count: nat, context: Context, tested: set<string>, unit: AttributionUnit)
    requires Testing(file, baselineIds, units, owners, contexts, count, context, tested)
    requires BatchShaped(file, unit) && unit.id !in units
    requires forall b :: 0 <= b < count ==> contexts[b].alignment.Inverse()
    ensures Testing(file, baselineIds, units[unit.id := unit], owners, contexts, count, context, tested)
  {
    hide Owns, Enumerates, BatchShaped, Owners;
    NewUnitHasNoOwners(file, contexts, count, unit);
  }

  lemma TestKeepsTesting(file: File, baselineIds: seq<string>, units: map<string, AttributionUnit>,
                         owners: map<string, set<string>>, after: map<string, set<string>>,
                         contexts: seq<Context>, count: nat, context: Context, tested: set<string>, id: string)
    requires Testing(file, baselineIds, units, owners, contexts, count, context, tested) && id in units
    requires forall x :: x in after <==> x in owners || x == id
    requires forall x :: OwnersOf(after, x) == OwnersOf(owners, x) + if x == id && Owns(file, context, units[id]) then {context.batch} else {}
    ensures Testing(file, baselineIds, units, after, contexts, count, context, tested + {id})
  {
    hide Owns, Enumerates, BatchShaped, Owners, Stored;
    forall x | x in units
      ensures OwnersOf(after, x) == WithTested(file, contexts, count, context, tested + {id}, x in baselineIds, units[x])
    {
      assert units[x].id == x;
    }
  }

  lemma TestingStarts(file: File, baselineIds: seq<string>, units: map<string, AttributionUnit>, owners: map<string, set<string>>,
                      contexts: seq<Context>, count: nat, context: Context)
    requires Attributed(file, baselineIds, units, owners, contexts, count)
    ensures Testing(file, baselineIds, units, owners, contexts, count, context, {})
  {
    hide Owns, Enumerates, BatchShaped, Owners, Stored;
  }

  /** Once the comparison's units and the batch's own have been tested, the batch is attributed. */
  lemma TestingFinished(file: File, baselineIds: seq<string>, units: map<string, AttributionUnit>, owners: map<string, set<string>>,
                        contexts: seq<Context>, count: nat, context: Context, tested: set<string>)
    requires Testing(file, baselineIds, units, owners, contexts, count, context, tested)
    requires count < |contexts| && contexts[count] == context && context.alignment.Inverse()
    requires forall id :: id in baselineIds || Enumerates(file, context, id) ==> id in tested
    requires context.LeavesEarly() ==> forall id :: id in tested ==> id in baselineIds
    ensures Attributed(file, baselineIds, units, owners, contexts, count + 1)
  {
    hide Owns, Enumerates, BatchShaped;
    forall id | id in units ensures OwnersOf(owners, id) == Owners(file, contexts, count + 1, id in baselineIds, units[id]) {
      if Owns(file, context, units[id]) && id !in baselineIds && !context.LeavesEarly() {
        OwnersEnumerate(file, context, units[id]);
      }
    }
  }

  /** The unit of a claimed source line has been tested. */
  ghost predicate LineTested(file: File, context: Context, line: int, tested: set<string>) {
    1 <= line <= |context.source| ==>
      PresenceUnit(file, context.alignment.Target(line), context.source[line - 1]).id in tested
  }

  ghost predicate RangeTested(file: File, context: Context, span: Span, tested: set<string>) {
    forall line :: span.first <= line <= span.last ==> LineTested(file, context, line, tested)
  }

  ghost predicate EntryTested(file: File, context: Context, entry: DeletionEntry, tested: set<string>) {
    forall unit :: ProposesEntry(file, context, entry, unit) ==> unit.id in tested
  }

  lemma AllProposalsTested(file: File, context: Context, tested: set<string>)
    requires forall i :: 0 <= i < |context.presence| ==> RangeTested(file, context, context.presence[i], tested)
    requires forall i :: 0 <= i < |context.deletions| ==> EntryTested(file, context, context.deletions[i], tested)
    ensures forall id :: Enumerates(file, context, id) ==> id in tested
  {
    forall id | Enumerates(file, context, id) ensures id in tested {
      if line, unit :| ProposesLine(file, context, line, unit) && unit.id == id {
        var i :| 0 <= i < |context.presence| && context.presence[i].first <= line <= context.presence[i].last;
        assert RangeTested(file, context, context.presence[i], tested);
        assert LineTested(file, context, line, tested);
      } else {
        var i, unit :| 0 <= i < |context.deletions| && ProposesEntry(file, context, context.deletions[i], unit) && unit.id == id;
        assert EntryTested(file, context, context.deletions[i], tested);
      }
    }
  }

  /** The units of a file and their owners while batches are attributed one after another. */
  class Table {
    const file: File
    const baselineIds: seq<string>
    var units: map<string, AttributionUnit>
    var owners: map<string, set<string>>

    ghost predicate Valid()
      reads this
    {
      IsTable(file, baselineIds, units, owners)
    }

    constructor (file: File, units: map<string, AttributionUnit>, ids: seq<string>)
      requires forall id :: id in ids <==> id in units
      requires forall id :: id in units ==> units[id].id == id
      ensures Valid() && this.file == file && this.baselineIds == ids && this.units == units
      ensures forall id :: OwnersOf(owners, id) == {}
    {
      this.file, this.baselineIds, this.units := file, ids, units;
      this.owners := map id | id in units :: {};
    }

    /** Test one batch against the unit stored under an identifier. */
    method Test(context: Context, id: string)
      requires id in units
      modifies this`owners
      ensures forall x :: x in owners <==> x in old(owners) || x == id
      ensures forall x :: OwnersOf(owners, x) == OwnersOf(old(owners), x) + if x == id && Owns(file, context, units[id]) then {context.batch} else {}
    {
      if id !in owners {
        owners := owners[id := {}];
      }
      if Owns(file, context, units[id]) {
        owners := owners[id := owners[id] + {context.batch}];
      }
    }

    /** Propose one unit of a batch and test the batch against what is stored under its identifier. */
    method Attribute(ghost contexts: seq<Context>, ghost count: nat, context: Context, unit: AttributionUnit, ghost tested: set<string>)
      requires BatchShaped(file, unit) && count <= |contexts|
      requires forall b :: 0 <= b < count ==> contexts[b].alignment.Inverse()
      requires Testing(file, baselineIds, units, owners, contexts, count, context, tested)
      modifies this
      ensures Testing(file, baselineIds, units, owners, contexts, count, context, tested + {unit.id})
      ensures units == if unit.id in old(units) then old(units) else old(units)[unit.id := unit]
    {
      hide Owns, BatchShaped, Testing;
      if unit.id !in units {
        ProposeKeepsTesting(file, baselineIds, units, owners, contexts, count, context, tested, unit);
        units := units[unit.id := unit];
      }
      ghost var before := owners;
      Test(context, unit.id);
      TestKeepsTesting(file, baselineIds, units, before, owners, contexts, count, context, tested, unit.id);
    }

    /** Test the batch against every unit of the comparison. */
    method TestBaselineUnits(ghost contexts: seq<Context>, ghost count: nat, context: Context) returns (ghost tested: set<string>)
      requires Valid() && Attributed(file, baselineIds, units, owners, contexts, count)
      modifies this`owners
      ensures Testing(file, baselineIds, units, owners, contexts, count, context, tested)
      ensures forall id :: id in tested <==> id in baselineIds
    {
      hide Owns, BatchShaped, Testing;
      TestingStarts(file, baselineIds, units, owners, contexts, count, context);
      tested := {};
      var i := 0;
      while i < |baselineIds|
        invariant 0 <= i <= |baselineIds| && Testing(file, baselineIds, units, owners, contexts, count, context, tested)
        invariant forall id :: id in tested <==> id in baselineIds[..i]
      {
        assert baselineIds[..i + 1] == baselineIds[..i] + [baselineIds[i]];
        ghost var before := owners;
        Test(context, baselineIds[i]);
        TestKeepsTesting(file, baselineIds, units, before, owners, contexts, count, context, tested, baselineIds[i]);
        tested := tested + {baselineIds[i]};
        i := i + 1;
      }
      assert baselineIds[..i] == baselineIds;
    }

    /** Propose a unit for each claimed source line of one range. */
    method AttributeRange(ghost contexts: seq<Context>, ghost count: nat, context: Context, span: Span, ghost before: set<string>)
      returns (ghost tested: set<string>)
      requires count <= |contexts| && forall b :: 0 <= b < count ==> contexts[b].alignment.Inverse()
      requires span in context.presence && !context.LeavesEarly() && Testing(file, baselineIds, units, owners, contexts, count, context, before)
      modifies this
      ensures Testing(file, baselineIds, units, owners, contexts, count, context, tested)
      ensures before <= tested && RangeTested(file, context, span, tested) && Extends(file, context, old(units), units)
    {
      hide Testing, PresenceUnit, Proposes;
      tested := before;
      var line := span.first;
      while line <= span.last
        invariant span.first <= line && before <= tested
        invariant Testing(file, baselineIds, units, owners, contexts, count, context, tested)
        invariant forall x :: span.first <= x < line ==> LineTested(file, context, x, tested)
        invariant Extends(file, context, old(units), units)
      {
        ghost var sofar := tested;
        if 1 <= line <= |context.source| {
          var unit := PresenceUnit(file, context.alignment.Target(line), context.source[line - 1]);
          PresenceIsShaped(file, context.alignment.Target(line), context.source[line - 1]);
          LineIsProposed(file, context, span, line);
          Attribute(contexts, count, context, unit, tested);
          tested := tested + {unit.id};
        }
        forall x | span.first <= x <= line ensures LineTested(file, context, x, tested) {
          assert x < line ==> LineTested(file, context, x, sofar);
        }
        line := line + 1;
      }
    }

    /** Propose a unit for each claimed source line. */
    method AttributeLines(ghost contexts: seq<Context>, ghost count: nat, context: Context, ghost before: set<string>)
      returns (ghost tested: set<string>)
      requires count <= |contexts| && forall b :: 0 <= b < count ==> contexts[b].alignment.Inverse()
      requires !context.LeavesEarly() && Testing(file, baselineIds, units, owners, contexts, count, context, before)
      modifies this
      ensures Testing(file, baselineIds, units, owners, contexts, count, context, tested)
      ensures before <= tested && Extends(file, context, old(units), units)
      ensures forall i :: 0 <= i < |context.presence| ==> RangeTested(file, context, context.presence[i], tested)
    {
      hide Testing, LineTested, Extends;
      ExtendsNothing(file, context, units);
      tested := before;
      var i := 0;
      while i < |context.presence|
        invariant 0 <= i <= |context.presence| && before <= tested
        invariant Testing(file, baselineIds, units, owners, contexts, count, context, tested)
        invariant forall k :: 0 <= k < i ==> RangeTested(file, context, context.presence[k], tested)
        invariant Extends(file, context, old(units), units)
      {
        ghost var sofar, were := tested, units;
        tested := AttributeRange(contexts, count, context, context.presence[i], tested);
        ExtendsFurther(file, context, old(units), were, units);
        forall k | 0 <= k < i ensures RangeTested(file, context, context.presence[k], tested) {
          RangeStaysTested(file, context, context.presence[k], sofar, tested);
        }
        i := i + 1;
      }
    }

    /** Propose a unit for each deletion entry with known old text. */
    method AttributeEntries(ghost contexts: seq<Context>, ghost count: nat, context: Context, ghost before: set<string>)
      returns (ghost tested: set<string>)
      requires count <= |contexts| && forall b :: 0 <= b < count ==> contexts[b].alignment.Inverse()
      requires !context.LeavesEarly() && Testing(file, baselineIds, units, owners, contexts, count, context, before)
      modifies this
      ensures Testing(file, baselineIds, units, owners, contexts, count, context, tested)
      ensures before <= tested && Extends(file, context, old(units), units)
      ensures forall i :: 0 <= i < |context.deletions| ==> EntryTested(file, context, context.deletions[i], tested)
    {
      hide Testing, DeletionUnit, Proposes;
      tested := before;
      var i := 0;
      while i < |context.deletions|
        invariant 0 <= i <= |context.deletions| && before <= tested
        invariant Testing(file, baselineIds, units, owners, contexts, count, context, tested)
        invariant forall k :: 0 <= k < i ==> EntryTested(file, context, context.deletions[k], tested)
        invariant Extends(file, context, old(units), units)
      {
        var entry := context.deletions[i];
        if entry.blob != "" && entry.blob in file.blobs {
          var unit := DeletionUnit(file, AnchorOf(context, entry), file.blobs[entry.blob]);
          DeletionIsShaped(file, AnchorOf(context, entry), file.blobs[entry.blob]);
          EntryIsProposed(file, context, i);
          Attribute(contexts, count, context, unit, tested);
          tested := tested + {unit.id};
        }
        i := i + 1;
      }
    }

    /** Attribute one batch: test it against the comparison's units and against those it proposes itself. */
    method AttributeBatch(ghost contexts: seq<Context>, ghost count: nat, context: Context)
      requires count < |contexts| && contexts[count] == context
      requires forall b :: 0 <= b < |contexts| ==> contexts[b].alignment.Inverse()
      requires Valid() && Attributed(file, baselineIds, units, owners, contexts, count)
      modifies this
      ensures Valid() && Attributed(file, baselineIds, units, owners, contexts, count + 1)
      ensures Extends(file, context, old(units), units)
    {
      hide Testing, RangeTested, EntryTested, Stored, BatchShaped, Extends;
      ExtendsNothing(file, context, units);
      ghost var tested := TestBaselineUnits(contexts, count, context);
      if !context.LeavesEarly() {
        tested := AttributeLines(contexts, count, context, tested);
        ghost var lines, were := tested, units;
        tested := AttributeEntries(contexts, count, context, tested);
        ExtendsFurther(file, context, old(units), were, units);
        forall i | 0 <= i < |context.presence| ensures RangeTested(file, context, context.presence[i], tested) {
          RangeStaysTested(file, context, context.presence[i], lines, tested);
        }
        AllProposalsTested(file, context, tested);
      }
      TestingFinished(file, baselineIds, units, owners, contexts, count, context, tested);
    }

    /** Attribute the batches one after another. */
    method AttributeBatches(contexts: seq<Context>)
      requires Valid() && forall id :: OwnersOf(owners, id) == {}
      requires forall b :: 0 <= b < |contexts| ==> contexts[b].alignment.Inverse()
      modifies this
      ensures Valid() && Attributed(file, baselineIds, units, owners, contexts, |contexts|)
      ensures ExtendsBy(file, contexts, |contexts|, old(units), units)
    {
      hide Attributed, Extends, ExtendsBy, IsTable;
      NothingAttributed(file, baselineIds, units, owners, contexts);
      var b := 0;
      while b < |contexts|
        invariant 0 <= b <= |contexts| && Valid() && Attributed(file, baselineIds, units, owners, contexts, b)
        invariant ExtendsBy(file, contexts, b, old(units), units)
      {
        ghost var were := units;
        AttributeBatch(contexts, b, contexts[b]);
        ExtendsByOneMore(file, contexts, b, old(units), were, units);
        b := b + 1;
      }
    }
  }

  /** Stored units stay what they are, and every new one is proposed by one of the first batches. */
  ghost predicate ExtendsBy(file: File, contexts: seq<Context>, count: nat, before: map<string, AttributionUnit>, after: map<string, AttributionUnit>)
    requires count <= |contexts|
  {
    && (forall id :: id in before ==> id in after && after[id] == before[id])
    && forall id :: id in after && id !in before ==> exists b :: 0 <= b < count && Proposes(file, contexts[b], after[id])
  }

  lemma ExtendsNothing(file: File, context: Context, units: map<string, AttributionUnit>)
    ensures Extends(file, context, units, units)
  {
  }

  lemma NothingAttributed(file: File, baselineIds: seq<string>, units: map<string, AttributionUnit>, owners: map<string, set<string>>,
                          contexts: seq<Context>)
    requires IsTable(file, baselineIds, units, owners) && forall id :: OwnersOf(owners, id) == {}
    ensures Attributed(file, baselineIds, units, owners, contexts, 0) && ExtendsBy(file, contexts, 0, units, units)
  {
  }

  lemma ExtendsByOneMore(file: File, contexts: seq<Context>, b: nat, before: map<string, AttributionUnit>, middle: map<string, AttributionUnit>,
                         after: map<string, AttributionUnit>)
    requires b < |contexts| && ExtendsBy(file, contexts, b, before, middle) && Extends(file, contexts[b], middle, after)
    ensures ExtendsBy(file, contexts, b + 1, before, after)
  {
    hide Proposes;
  }

  lemma LineIsProposed(file: File, context: Context, span: Span, line: int)
    requires span in context.presence && span.first <= line <= span.last && 1 <= line <= |context.source| && !context.LeavesEarly()
    ensures Proposes(file, context, PresenceUnit(file, context.alignment.Target(line), context.source[line - 1]))
  {
    var i :| 0 <= i < |context.presence| && context.presence[i] == span;
    assert ProposesLine(file, context, line, PresenceUnit(file, context.alignment.Target(line), context.source[line - 1]));
  }

  lemma EntryIsProposed(file: File, context: Context, i: nat)
    requires i < |context.deletions| && !context.LeavesEarly()
    requires var entry := context.deletions[i]; entry.blob != "" && entry.blob in file.blobs
    ensures var entry := context.deletions[i];
      Proposes(file, context, DeletionUnit(file, AnchorOf(context, entry), file.blobs[entry.blob]))
  {
    var entry := context.deletions[i];
    assert ProposesEntry(file, context, entry, DeletionUnit(file, AnchorOf(context, entry), file.blobs[entry.blob]));
  }

  lemma RangeStaysTested(file: File, context: Context, span: Span, before: set<string>, after: set<string>)
    requires RangeTested(file, context, span, before) && before <= after
    ensures RangeTested(file, context, span, after)
  {
    hide PresenceUnit;
    forall line | span.first <= line <= span.last ensures LineTested(file, context, line, after) {
      assert LineTested(file, context, line, before);
    }
  }

  lemma PresenceIsShaped(file: File, line: Option<nat>, content: Line)
    ensures BatchShaped(file, PresenceUnit(file, line, content))
  {
  }

  lemma DeletionIsShaped(file: File, anchor: Option<nat>, deletion: Fingerprint)
    ensures BatchShaped(file, DeletionUnit(file, anchor, deletion))
  {
  }

  /** The owners among the first batches, and one more batch where it has been tested. */
  ghost function WithTested(file: File, contexts: seq<Context>, count: nat, context: Context, tested: set<string>,
                            fromBaseline: bool, unit: AttributionUnit): set<string>
    requires count <= |contexts|
  {
    Owners(file, contexts, count, fromBaseline, unit) + if unit.id in tested && Owns(file, context, unit) then {context.batch} else {}
  }

  /** A unit whose identifier nobody enumerated before has no owner among the earlier batches. */
  lemma {:induction false} NewUnitHasNoOwners(file: File, contexts: seq<Context>, count: nat, unit: AttributionUnit)
    requires count <= |contexts| && BatchShaped(file, unit)
    requires forall b :: 0 <= b < count ==> contexts[b].alignment.Inverse() && !Enumerates(file, contexts[b], unit.id)
    ensures Owners(file, contexts, count, false, unit) == {}
  {
    hide Owns, Enumerates, BatchShaped;
    if count > 0 {
      NewUnitHasNoOwners(file, contexts, count - 1, unit);
      if Owns(file, contexts[count - 1], unit) && !contexts[count - 1].LeavesEarly() {
        OwnersEnumerate(file, contexts[count - 1], unit);
      }
    }
  }

  /** Whether a batch is an owner does not depend on the other batches or on their order. */
  lemma {:induction false} OwnersAre(file: File, contexts: seq<Context>, count: nat, fromBaseline: bool, unit: AttributionUnit, batch: string)
    requires count <= |contexts|
    ensures batch in Owners(file, contexts, count, fromBaseline, unit) <==>
      exists b :: 0 <= b < count && contexts[b].batch == batch && Owns(file, contexts[b], unit) && (fromBaseline || !contexts[b].LeavesEarly())
  {
    hide Owns;
    if count > 0 {
      OwnersAre(file, contexts, count - 1, fromBaseline, unit, batch);
    }
  }

  /** A batch without source text but with presence claims is left out of a unit that it owns and another batch proposes. */
  lemma EarlyLeaverIsLeftOut(file: File, blob: string)
    requires blob != "" && blob in file.blobs
    ensures exists early: Context, other: Context, unit: AttributionUnit ::
      && early.alignment.Inverse() && other.alignment.Inverse() && early.batch != other.batch
      && early.LeavesEarly() && Owns(file, early, unit) && Proposes(file, other, unit)
      && Owners(file, [early, other], 2, false, unit) == {other.batch}
  {
    var nothing, entries := LineMapping(map[], map[]), [DeletionEntry(blob, None)];
    var early, other := Context("early", [], nothing, [], true, entries), Context("other", [], nothing, [], false, entries);
    var unit := DeletionUnit(file, None, file.blobs[blob]);
    EntryIsProposed(file, other, 0);
    EntryIsOwned(file, early, 0, unit);
    EntryIsOwned(file, other, 0, unit);
    var contexts := [early, other];
    hide Owns, Proposes, DeletionUnit;
    assert Owners(file, contexts, 0, false, unit) == {};
    assert contexts[0] == early && Owners(file, contexts, 1, false, unit) == {};
    assert contexts[1] == other && Owners(file, contexts, 2, false, unit) == {other.batch};
  }

  lemma EntryIsOwned(file: File, context: Context, i: nat, unit: AttributionUnit)
    requires i < |context.deletions| && context.deletions[i].blob != "" && context.deletions[i].blob in file.blobs
    requires unit == DeletionUnit(file, AnchorOf(context, context.deletions[i]), file.blobs[context.deletions[i].blob])
    ensures Owns(file, context, unit)
  {
    assert EntryMatches(file, context, unit, context.deletions[i]);
  }
}
