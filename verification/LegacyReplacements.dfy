/** Live replacements that old metadata did not couple (batch/discard.py:1744-1831). */
module LegacyReplacements {
  import opened MappedRecords
  import opened Sequences
  import opened LineRanges
  import opened LineMatching
  import opened Ownership
  import opened DiscardRestoration

  /** A source line whose new text is still there and not inherited from elsewhere. */
  predicate LiveLine(mapping: LineMapping, preserved: set<nat>, line: nat) {
    mapping.Target(line).Some? && line !in preserved
  }

  /** Some line from start to end is live. */
  ghost predicate LiveSuffix(mapping: LineMapping, preserved: set<nat>, start: nat, end: int) {
    exists line: nat :: start <= line <= end && LiveLine(mapping, preserved, line)
  }

  /** The presence range that a deletion immediately precedes. */
  ghost predicate Precedes(ownership: BatchOwnership, d: nat, r: nat)
    requires d < |ownership.deletions| && r < |ownership.presence|
  {
    var start := ownership.deletions[d].anchor + 1;
    ownership.presence[r].first <= start <= ownership.presence[r].last
  }

  /** A deletion with old text, not yet handled, that immediately precedes an owned line. */
  ghost predicate IsCandidate(ownership: BatchOwnership, records: seq<RestoreRecord>, d: nat)
    requires d < |ownership.deletions| == |records|
  {
    && records[d].flag == 0 && ownership.deletions[d].content != []
    && Contains(ownership.presence, ownership.deletions[d].anchor + 1)
  }

  datatype Candidate = Candidate(range: nat, start: nat, deletion: nat)

  predicate CandidateLe(a: Candidate, b: Candidate) {
    || a.range < b.range
    || (a.range == b.range && (a.start < b.start || (a.start == b.start && a.deletion <= b.deletion)))
  }

  lemma CandidateLeIsTotal()
    ensures TotalOrder(CandidateLe)
  {
  }

  /** Exactly the candidates among the first `count` deletions, each in its own range. */
  ghost predicate CandidatesOf(ownership: BatchOwnership, records: seq<RestoreRecord>, count: nat, found: seq<Candidate>)
    requires count <= |ownership.deletions| == |records|
  {
    && (forall i :: 0 <= i < |found| ==>
         var c := found[i];
         && c.deletion < count && c.range < |ownership.presence| && IsCandidate(ownership, records, c.deletion)
         && c.start == ownership.deletions[c.deletion].anchor + 1 && Precedes(ownership, c.deletion, c.range))
    && (forall i, j :: 0 <= i < j < |found| ==> found[i].deletion != found[j].deletion)
    && (forall d :: 0 <= d < count && IsCandidate(ownership, records, d) ==> exists i :: 0 <= i < |found| && found[i].deletion == d)
  }

  method CollectCandidates(ownership: BatchOwnership, records: array<RestoreRecord>) returns (found: seq<Candidate>)
    requires ownership.Valid() && records.Length == |ownership.deletions|
    ensures CandidatesOf(ownership, records[..], |ownership.deletions|, found)
  {
    hide CandidatesOf;
    found := [];
    var d := 0;
    NoCandidates(ownership, records[..]);
    while d < |ownership.deletions|
      invariant 0 <= d <= |ownership.deletions|
      invariant CandidatesOf(ownership, records[..], d, found)
    {
      var claim := ownership.deletions[d];
      if records[d].flag == 0 && claim.content != [] {
        var range := ContainingRangeIndex(ownership.presence, claim.anchor + 1);
        if range.Some? {
          assert Contains(ownership.presence, claim.anchor + 1);
          AddCandidate(ownership, records[..], d, found, range.value);
          found := found + [Candidate(range.value, claim.anchor + 1, d)];
        } else {
          SkipCandidate(ownership, records[..], d, found);
        }
      } else {
        SkipCandidate(ownership, records[..], d, found);
      }
      d := d + 1;
    }
  }

  lemma NoCandidates(ownership: BatchOwnership, records: seq<RestoreRecord>)
    requires |records| == |ownership.deletions|
    ensures CandidatesOf(ownership, records, 0, [])
  {
  }

  lemma AddCandidate(ownership: BatchOwnership, records: seq<RestoreRecord>, d: nat, found: seq<Candidate>, range: nat)
    requires d < |ownership.deletions| == |records| && CandidatesOf(ownership, records, d, found)
    requires IsCandidate(ownership, records, d) && range < |ownership.presence| && Precedes(ownership, d, range)
    ensures CandidatesOf(ownership, records, d + 1, found + [Candidate(range, ownership.deletions[d].anchor + 1, d)])
  {
    hide IsCandidate, Precedes;
    var longer := found + [Candidate(range, ownership.deletions[d].anchor + 1, d)];
    forall e | 0 <= e < d + 1 && IsCandidate(ownership, records, e) ensures exists i :: 0 <= i < |longer| && longer[i].deletion == e {
      if e < d {
        var i :| 0 <= i < |found| && found[i].deletion == e;
        assert longer[i].deletion == e;
      } else {
        assert longer[|found|].deletion == e;
      }
    }
  }

  lemma SkipCandidate(ownership: BatchOwnership, records: seq<RestoreRecord>, d: nat, found: seq<Candidate>)
    requires d < |ownership.deletions| == |records| && CandidatesOf(ownership, records, d, found)
    requires !IsCandidate(ownership, records, d)
    ensures CandidatesOf(ownership, records, d + 1, found)
  {
    hide IsCandidate, Precedes;
  }

  /** What the scan decides for one deletion. */
  ghost function LegacyRecord(ownership: BatchOwnership, mapping: LineMapping, preserved: set<nat>, c: Candidate): RestoreRecord
    requires c.range < |ownership.presence|
  {
    RestoreRecord(if LiveSuffix(mapping, preserved, c.start, ownership.presence[c.range].last) then 2 else 1, 0, 0)
  }

  /** The ranges restored apart, in the order the scan meets them: right to left. */
  ghost function LiveSpans(ownership: BatchOwnership, mapping: LineMapping, preserved: set<nat>, candidates: seq<Candidate>, from: nat): seq<Span>
    requires from <= |candidates| && Scannable(ownership, candidates, |ownership.deletions|)
    decreases |candidates| - from
  {
    if from == |candidates| then []
    else
      var c := candidates[from];
      var end := ownership.presence[c.range].last;
      var here := if LiveSuffix(mapping, preserved, c.start, end) then [Span(c.start, end)] else [];
      LiveSpans(ownership, mapping, preserved, candidates, from + 1) + here
  }

  /** The scan visits sorted candidates of distinct deletions, each inside its presence range. */
  ghost predicate Scannable(ownership: BatchOwnership, candidates: seq<Candidate>, count: nat) {
    && (forall i :: 0 <= i < |candidates| ==>
         var c := candidates[i];
         && c.range < |ownership.presence| && c.deletion < count && 1 <= c.start
         && ownership.presence[c.range].first <= c.start <= ownership.presence[c.range].last)
    && (forall i, j :: 0 <= i < j < |candidates| ==> candidates[i].deletion != candidates[j].deletion)
    && (forall i, j :: 0 <= i < j < |candidates| ==> candidates[i].range <= candidates[j].range)
    && (forall i, j :: 0 <= i < j < |candidates| && candidates[i].range == candidates[j].range ==> candidates[i].start <= candidates[j].start)
  }

  /** The candidates from `done` on have their records; all other records are as before. */
  ghost predicate Decided(ownership: BatchOwnership, mapping: LineMapping, preserved: set<nat>, candidates: seq<Candidate>, done: nat,
                          before: seq<RestoreRecord>, after: seq<RestoreRecord>)
    requires Scannable(ownership, candidates, |before|)
  {
    && |after| == |before|
    && (forall i :: done <= i < |candidates| ==>
         after[candidates[i].deletion] == LegacyRecord(ownership, mapping, preserved, candidates[i]))
    && (forall d :: 0 <= d < |before| && (forall i :: done <= i < |candidates| ==> candidates[i].deletion != d) ==> after[d] == before[d])
  }

  /** A lookup of one source line made for one presence range. */
  datatype Probe = Probe(range: nat, line: nat)

  /** No line of a range has been looked up twice, and the lines up to `line` of `range` are still to come. */
  ghost predicate ProbedOnce(probes: seq<Probe>, range: nat, line: int) {
    && (forall i, j :: 0 <= i < j < |probes| ==> probes[i] != probes[j])
    && (forall i :: 0 <= i < |probes| ==> probes[i].range > range || (probes[i].range == range && probes[i].line > line))
  }

  lemma DecideNext(ownership: BatchOwnership, mapping: LineMapping, preserved: set<nat>, candidates: seq<Candidate>, done: nat,
                   before: seq<RestoreRecord>, after: seq<RestoreRecord>, record: RestoreRecord)
    requires Scannable(ownership, candidates, |before|) && 0 < done <= |candidates|
    requires Decided(ownership, mapping, preserved, candidates, done, before, after)
    requires record == LegacyRecord(ownership, mapping, preserved, candidates[done - 1])
    ensures Decided(ownership, mapping, preserved, candidates, done - 1, before, after[candidates[done - 1].deletion := record])
  {
    hide LegacyRecord;
    var d := candidates[done - 1].deletion;
    var next := after[d := record];
    forall e | 0 <= e < |before| && (forall i :: done - 1 <= i < |candidates| ==> candidates[i].deletion != e) ensures next[e] == before[e] {
      assert candidates[done - 1].deletion != e;
    }
  }

  /** Scan one presence range from its end, shared by all of its candidates. */
  method ScanRange(ownership: BatchOwnership, mapping: LineMapping, preserved: set<nat>, candidates: seq<Candidate>, start: nat,
                   records: array<RestoreRecord>, spans: seq<Span>, ghost before: seq<RestoreRecord>, ghost probed: seq<Probe>)
    returns (done: nat, restored: seq<Span>, ghost probes: seq<Probe>)
    requires Scannable(ownership, candidates, |before|) && 0 < start <= |candidates|
    requires records.Length == |before| == |ownership.deletions|
    requires start < |candidates| ==> candidates[start - 1].range < candidates[start].range
    requires Decided(ownership, mapping, preserved, candidates, start, before, records[..])
    requires spans == LiveSpans(ownership, mapping, preserved, candidates, start)
    requires ProbedOnce(probed, candidates[start - 1].range, ownership.presence[candidates[start - 1].range].last)
    modifies records
    ensures done < start && (done > 0 ==> candidates[done - 1].range < candidates[done].range)
    ensures Decided(ownership, mapping, preserved, candidates, done, before, records[..])
    ensures restored == LiveSpans(ownership, mapping, preserved, candidates, done)
    ensures ProbedOnce(probes, candidates[done].range, 0)
  {
    hide Decided, LegacyRecord, LiveLine;
    var range := candidates[start - 1].range;
    var end := ownership.presence[range].last;
    var nextLine: int := end;
    var live := false;
    done, restored, probes := start, spans, probed;
    while done > 0 && candidates[done - 1].range == range
      invariant done <= start && (done < start ==> candidates[done].range == range)
      invariant done == start ==> nextLine == end
      invariant done < start ==> nextLine == candidates[done].start - 1
      invariant live <==> LiveSuffix(mapping, preserved, nextLine + 1, end)
      invariant records.Length == |before| && Decided(ownership, mapping, preserved, candidates, done, before, records[..])
      invariant restored == LiveSpans(ownership, mapping, preserved, candidates, done)
      invariant ProbedOnce(probes, range, nextLine)
    {
      var c := candidates[done - 1];
      live, nextLine, probes := ScanLines(mapping, preserved, range, c.start, end, nextLine, live, probes);
      var record := RestoreRecord(if live then 2 else 1, 0, 0);
      RecordIs(ownership, mapping, preserved, c, live);
      DecideNext(ownership, mapping, preserved, candidates, done, before, records[..], record);
      ghost var now := records[..];
      records[c.deletion] := record;
      assert records[..] == now[c.deletion := record];
      if live {
        restored := restored + [Span(c.start, end)];
      } else {
        assert restored + [] == restored;
      }
      done := done - 1;
    }
  }

  lemma RecordIs(ownership: BatchOwnership, mapping: LineMapping, preserved: set<nat>, c: Candidate, live: bool)
    requires c.range < |ownership.presence|
    requires live <==> LiveSuffix(mapping, preserved, c.start, ownership.presence[c.range].last)
    ensures LegacyRecord(ownership, mapping, preserved, c) == RestoreRecord(if live then 2 else 1, 0, 0)
  {
  }

  /** Extend the scan down to one candidate's first line. */
  method ScanLines(mapping: LineMapping, preserved: set<nat>, ghost range: nat, start: nat, ghost end: int, from: int, liveBehind: bool,
                   ghost probed: seq<Probe>)
    returns (live: bool, next: int, ghost probes: seq<Probe>)
    requires 1 <= start <= from + 1 <= end + 1
    requires liveBehind <==> LiveSuffix(mapping, preserved, from + 1, end)
    requires ProbedOnce(probed, range, from)
    ensures next == start - 1
    ensures live <==> LiveSuffix(mapping, preserved, start, end)
    ensures ProbedOnce(probes, range, start - 1)
  {
    live, next, probes := liveBehind, from, probed;
    while next >= start
      invariant start - 1 <= next <= from
      invariant live <==> LiveSuffix(mapping, preserved, next + 1, end)
      invariant ProbedOnce(probes, range, next)
    {
      assert LiveSuffix(mapping, preserved, next, end) <==> LiveLine(mapping, preserved, next) || LiveSuffix(mapping, preserved, next + 1, end);
      if LiveLine(mapping, preserved, next) {
        live := true;
      }
      probes := probes + [Probe(range, next)];
      next := next - 1;
    }
  }

  /**
   Couple the live legacy replacements: a candidate is live exactly when some line from its
   start to the end of its presence range is, and no line is looked up twice for a range.
   */
  method AppendLiveLegacyReplacementRestoreRecords(ownership: BatchOwnership, mapping: LineMapping, preserved: set<nat>,
                                                   records: array<RestoreRecord>, spans: seq<Span>)
    returns (restored: seq<Span>, ghost candidates: seq<Candidate>, ghost probes: seq<Probe>)
    requires ownership.Valid() && records.Length == |ownership.deletions|
    modifies records
    ensures CandidatesOf(ownership, old(records[..]), |ownership.deletions|, candidates)
    ensures Scannable(ownership, candidates, |ownership.deletions|)
    ensures Decided(ownership, mapping, preserved, candidates, 0, old(records[..]), records[..])
    ensures restored == spans + LiveSpans(ownership, mapping, preserved, candidates, 0)
    ensures forall i, j :: 0 <= i < j < |probes| ==> probes[i] != probes[j]
  {
    hide Decided, CandidatesOf, Scannable, LiveSpans, ProbedOnce, Sorted;
    ghost var before := records[..];
    var found := CollectCandidates(ownership, records);
    CandidateLeIsTotal();
    var sorted := Sort(found, CandidateLe);
    candidates, probes := sorted, [];
    SortedCandidates(ownership, before, found, sorted);
    SortedIsScannable(ownership, before, sorted);
    NothingScanned(ownership, mapping, preserved, sorted, before);
    var scanned: seq<Span> := [];
    var done: nat := |sorted|;
    while done > 0
      invariant done <= |sorted| && records.Length == |before|
      invariant 0 < done < |sorted| ==> sorted[done - 1].range < sorted[done].range
      invariant Decided(ownership, mapping, preserved, sorted, done, before, records[..])
      invariant scanned == LiveSpans(ownership, mapping, preserved, sorted, done)
      invariant done < |sorted| ==> ProbedOnce(probes, sorted[done].range, 0)
      invariant done == |sorted| ==> probes == []
    {
      RangeAhead(ownership, sorted, done, probes);
      done, scanned, probes := ScanRange(ownership, mapping, preserved, sorted, done, records, scanned, before, probes);
    }
    ProbesDistinct(sorted, probes);
    restored := spans + scanned;
  }

  lemma NothingScanned(ownership: BatchOwnership, mapping: LineMapping, preserved: set<nat>, candidates: seq<Candidate>, records: seq<RestoreRecord>)
    requires Scannable(ownership, candidates, |records|) && |records| == |ownership.deletions|
    ensures Decided(ownership, mapping, preserved, candidates, |candidates|, records, records)
    ensures LiveSpans(ownership, mapping, preserved, candidates, |candidates|) == []
  {
  }

  lemma RangeAhead(ownership: BatchOwnership, candidates: seq<Candidate>, done: nat, probes: seq<Probe>)
    requires Scannable(ownership, candidates, |ownership.deletions|) && 0 < done <= |candidates|
    requires done == |candidates| ==> probes == []
    requires done < |candidates| ==> candidates[done - 1].range < candidates[done].range && ProbedOnce(probes, candidates[done].range, 0)
    ensures candidates[done - 1].range < |ownership.presence|
    ensures ProbedOnce(probes, candidates[done - 1].range, ownership.presence[candidates[done - 1].range].last)
  {
  }

  lemma ProbesDistinct(candidates: seq<Candidate>, probes: seq<Probe>)
    requires candidates == [] ==> probes == []
    requires candidates != [] ==> ProbedOnce(probes, candidates[0].range, 0)
    ensures forall i, j :: 0 <= i < j < |probes| ==> probes[i] != probes[j]
  {
  }

  lemma SortedCandidates(ownership: BatchOwnership, records: seq<RestoreRecord>, found: seq<Candidate>, sorted: seq<Candidate>)
    requires |records| == |ownership.deletions| && CandidatesOf(ownership, records, |ownership.deletions|, found)
    requires multiset(sorted) == multiset(found)
    ensures CandidatesOf(ownership, records, |ownership.deletions|, sorted)
  {
    hide IsCandidate, Precedes;
    RearrangedDistinct(found, sorted);
    forall i | 0 <= i < |sorted|
      ensures var c := sorted[i];
        && c.deletion < |ownership.deletions| && c.range < |ownership.presence| && IsCandidate(ownership, records, c.deletion)
        && c.start == ownership.deletions[c.deletion].anchor + 1 && Precedes(ownership, c.deletion, c.range)
    {
      assert sorted[i] in found;
    }
    forall i, j | 0 <= i < j < |sorted| ensures sorted[i].deletion != sorted[j].deletion {
      assert sorted[i] in found && sorted[j] in found;
    }
    forall d | 0 <= d < |ownership.deletions| && IsCandidate(ownership, records, d)
      ensures exists i :: 0 <= i < |sorted| && sorted[i].deletion == d
    {
      var k :| 0 <= k < |found| && found[k].deletion == d;
      assert found[k] in sorted;
    }
  }

  lemma SortedIsScannable(ownership: BatchOwnership, records: seq<RestoreRecord>, sorted: seq<Candidate>)
    requires |records| == |ownership.deletions| && CandidatesOf(ownership, records, |ownership.deletions|, sorted)
    requires Sorted(sorted, CandidateLe)
    ensures Scannable(ownership, sorted, |ownership.deletions|)
  {
    hide IsCandidate;
    forall i, j | 0 <= i < j < |sorted|
      ensures sorted[i].range <= sorted[j].range && (sorted[i].range == sorted[j].range ==> sorted[i].start <= sorted[j].start)
    {
      assert CandidateLe(sorted[i], sorted[j]);
    }
  }
}
