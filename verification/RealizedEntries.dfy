/**
 Realized content with run-length provenance (batch/realization/entry_storage.py,
 batch/realization/provenance.py).
 */
module Realized {

  /** Line contents are only ever compared, so a line is a string. */
  datatype Line = Line(text: string)

  /** Where an output line came from; the stored line number 0 means nowhere. */
  datatype Provenance = Provenance(source: nat, target: nat, claimed: bool)

  datatype Entry = Entry(content: Line, provenance: Provenance)

  /** Linear provenance over the half-open destination range start..end. */
  datatype Run = Run(start: nat, end: nat, source: nat, target: nat, claimed: bool)

  function Advance(line: nat, offset: nat): nat {
    if line == 0 then 0 else line + offset
  }

  function RunProvenance(run: Run): (p: seq<Provenance>)
    requires run.start <= run.end
    ensures |p| == run.end - run.start
    ensures forall k :: 0 <= k < |p| ==> p[k] == Provenance(Advance(run.source, k), Advance(run.target, k), run.claimed)
  {
    seq(run.end - run.start, k requires 0 <= k => Provenance(Advance(run.source, k), Advance(run.target, k), run.claimed))
  }

  /** The first `count` runs cover 0..length without gap or overlap, and none is empty. */
  ghost predicate TilesUpTo(runs: seq<Run>, count: nat, length: nat)
    requires count <= |runs|
  {
    if count == 0 then length == 0
    else
      var last := runs[count - 1];
      last.start < last.end == length && TilesUpTo(runs, count - 1, last.start)
  }

  ghost predicate Tiles(runs: seq<Run>, length: nat) {
    TilesUpTo(runs, |runs|, length)
  }

  function DecodeUpTo(runs: seq<Run>, count: nat, length: nat): (p: seq<Provenance>)
    requires count <= |runs| && TilesUpTo(runs, count, length)
    ensures |p| == length
  {
    if count == 0 then []
    else DecodeUpTo(runs, count - 1, runs[count - 1].start) + RunProvenance(runs[count - 1])
  }

  function Decode(runs: seq<Run>, length: nat): (p: seq<Provenance>)
    requires Tiles(runs, length)
    ensures |p| == length
  {
    DecodeUpTo(runs, |runs|, length)
  }

  lemma {:induction false} TilesPrefix(runs: seq<Run>, count: nat, length: nat, r: nat)
    requires r < count <= |runs| && TilesUpTo(runs, count, length)
    ensures runs[r].start < runs[r].end <= length && TilesUpTo(runs, r, runs[r].start)
    ensures runs[r].end == if r + 1 < count then runs[r + 1].start else length
  {
    if r + 1 < count {
      TilesPrefix(runs, count - 1, runs[count - 1].start, r);
    }
  }

  /** A run decides the provenance of every position it covers. */
  lemma {:induction false} DecodeAt(runs: seq<Run>, count: nat, length: nat, r: nat, i: nat)
    requires r < count <= |runs| && TilesUpTo(runs, count, length) && runs[r].start <= i < runs[r].end
    ensures i < length
    ensures DecodeUpTo(runs, count, length)[i] == Provenance(Advance(runs[r].source, i - runs[r].start),
              Advance(runs[r].target, i - runs[r].start), runs[r].claimed)
  {
    TilesPrefix(runs, count, length, r);
    if r + 1 < count {
      DecodeAt(runs, count - 1, runs[count - 1].start, r, i);
    }
  }

  /** The decoding of a prefix only looks at that prefix. */
  lemma {:induction false} DecodeSamePrefix(a: seq<Run>, b: seq<Run>, count: nat, length: nat)
    requires count <= |a| && count <= |b| && TilesUpTo(a, count, length)
    requires forall i :: 0 <= i < count ==> a[i] == b[i]
    ensures TilesUpTo(b, count, length) && DecodeUpTo(a, count, length) == DecodeUpTo(b, count, length)
  {
    if count > 0 {
      DecodeSamePrefix(a, b, count - 1, a[count - 1].start);
    }
  }

  function Zip(contents: seq<Line>, provenance: seq<Provenance>): (entries: seq<Entry>)
    requires |contents| == |provenance|
    ensures |entries| == |contents|
    ensures forall i :: 0 <= i < |entries| ==> entries[i] == Entry(contents[i], provenance[i])
  {
    seq(|contents|, i requires 0 <= i < |contents| => Entry(contents[i], provenance[i]))
  }

  /** Consecutive lines whose provenance advances in step with them. */
  function LinearEntries(lines: seq<Line>, source: nat, target: nat, claimed: bool): (entries: seq<Entry>)
    ensures |entries| == |lines|
  {
    Zip(lines, RunProvenance(Run(0, |lines|, source, target, claimed)))
  }

  function Contents(entries: seq<Entry>): (lines: seq<Line>)
    ensures |lines| == |entries|
  {
    seq(|entries|, i requires 0 <= i < |entries| => entries[i].content)
  }

  /** The same provenance over other content. */
  function WithContents(entries: seq<Entry>, lines: seq<Line>): (result: seq<Entry>)
    requires |lines| == |entries|
    ensures |result| == |entries|
    ensures forall i :: 0 <= i < |result| ==> result[i] == Entry(lines[i], entries[i].provenance)
  {
    seq(|entries|, i requires 0 <= i < |entries| => Entry(lines[i], entries[i].provenance))
  }

  predicate Contiguous(line: nat, length: nat, next: nat) {
    if line == 0 || next == 0 then line == 0 && next == 0
    else next == line + length
  }

  predicate CanMerge(left: Run, right: Run)
    requires left.start <= left.end
  {
    && left.end == right.start
    && left.claimed == right.claimed
    && Contiguous(left.source, left.end - left.start, right.source)
    && Contiguous(left.target, left.end - left.start, right.target)
  }

  /** The table keeps one run where two would continue each other. */
  function AppendRun(runs: seq<Run>, run: Run): seq<Run>
    requires Tiles(runs, run.start)
  {
    if runs != [] && CanMerge(runs[|runs| - 1], run) then runs[|runs| - 1 := runs[|runs| - 1].(end := run.end)]
    else runs + [run]
  }

  lemma MergedRunDecodes(last: Run, run: Run)
    requires last.start < last.end && run.start < run.end && CanMerge(last, run)
    ensures RunProvenance(last.(end := run.end)) == RunProvenance(last) + RunProvenance(run)
  {
  }

  lemma AppendRunExtends(runs: seq<Run>, run: Run)
    requires run.start < run.end && Tiles(runs, run.start)
    ensures Tiles(AppendRun(runs, run), run.end)
    ensures Decode(AppendRun(runs, run), run.end) == Decode(runs, run.start) + RunProvenance(run)
  {
    hide RunProvenance;
    var result := AppendRun(runs, run);
    if runs != [] && CanMerge(runs[|runs| - 1], run) {
      var last := runs[|runs| - 1];
      DecodeSamePrefix(runs, result, |runs| - 1, last.start);
      MergedRunDecodes(last, run);
      var before := DecodeUpTo(runs, |runs| - 1, last.start);
      assert before + (RunProvenance(last) + RunProvenance(run)) == (before + RunProvenance(last)) + RunProvenance(run);
    } else {
      DecodeSamePrefix(runs, result, |runs|, run.start);
    }
  }

  class RealizedEntries {
    var contents: seq<Line>
    var runs: seq<Run>

    ghost predicate Valid()
      reads this
    {
      Tiles(runs, |contents|)
    }

    ghost function Entries(): (entries: seq<Entry>)
      reads this
      requires Valid()
      ensures |entries| == |contents|
    {
      Zip(contents, Decode(runs, |contents|))
    }

    constructor ()
      ensures Valid() && Entries() == []
    {
      contents, runs := [], [];
    }

    /** Append lines under one linear provenance, merging with the last run when it continues. */
    method AppendLineRange(lines: seq<Line>, start: nat, end: nat, source: nat, target: nat, claimed: bool)
      requires Valid() && start <= end <= |lines|
      modifies this
      ensures Valid()
      ensures Entries() == old(Entries()) + LinearEntries(lines[start..end], source, target, claimed)
    {
      if start == end {
        return;
      }
      var run := Run(|contents|, |contents| + end - start, source, target, claimed);
      AppendRunExtends(runs, run);
      assert RunProvenance(run) == RunProvenance(Run(0, end - start, source, target, claimed));
      contents, runs := contents + lines[start..end], AppendRun(runs, run);
    }

    /** Copy a slice of another collection's provenance over content read from an indexed sequence. */
    method CopyProvenanceSlice(entries: RealizedEntries, lines: seq<Line>, start: nat, stop: nat)
      requires Valid() && entries.Valid() && entries != this
      requires start <= stop <= |entries.contents| && stop <= |lines|
      modifies this
      ensures Valid()
      ensures Entries() == old(Entries()) + WithContents(entries.Entries()[start..stop], lines[start..stop])
    {
      ghost var from := entries.Entries();
      ghost var position := start;
      var r := 0;
      if entries.runs != [] {
        TilesPrefix(entries.runs, |entries.runs|, |entries.contents|, 0);
      }
      while r < |entries.runs|
        invariant 0 <= r <= |entries.runs|
        invariant Valid() && entries.Valid() && start <= position <= stop
        invariant position == if r < |entries.runs| then Clamp(entries.runs[r].start, start, stop) else stop
        invariant Entries() == old(Entries()) + WithContents(from[start..position], lines[start..position])
      {
        var run := entries.runs[r];
        TilesPrefix(entries.runs, |entries.runs|, |entries.contents|, r);
        var first, last := Clamp(run.start, start, stop), Clamp(run.end, start, stop);
        if first < last {
          RunsCarry(entries.contents, entries.runs, r);
          ExtendCopy(old(Entries()), from, run, lines, start, first, last);
          AppendLineRange(lines, first, last, Advance(run.source, first - run.start),
            Advance(run.target, first - run.start), run.claimed);
        }
        position := last;
        r := r + 1;
      }
    }
  }

  lemma WithContentsSplit(entries: seq<Entry>, lines: seq<Line>, a: nat, b: nat, c: nat)
    requires a <= b <= c <= |entries| && c <= |lines|
    ensures WithContents(entries[a..c], lines[a..c])
         == WithContents(entries[a..b], lines[a..b]) + WithContents(entries[b..c], lines[b..c])
  {
    var whole := WithContents(entries[a..c], lines[a..c]);
    var left, right := WithContents(entries[a..b], lines[a..b]), WithContents(entries[b..c], lines[b..c]);
    forall i | 0 <= i < c - a ensures whole[i] == (left + right)[i] {
      assert whole[i] == Entry(lines[a + i], entries[a + i].provenance);
    }
  }

  lemma ExtendCopy(done: seq<Entry>, entries: seq<Entry>, run: Run, lines: seq<Line>, start: nat, first: nat, last: nat)
    requires start <= first <= last <= run.end <= |entries| && run.start <= first && last <= |lines|
    requires Carries(entries, run)
    ensures done + WithContents(entries[start..first], lines[start..first])
      + LinearEntries(lines[first..last], Advance(run.source, first - run.start), Advance(run.target, first - run.start), run.claimed)
      == done + WithContents(entries[start..last], lines[start..last])
  {
    SliceOfRun(entries, run, lines, first, last);
    WithContentsSplit(entries, lines, start, first, last);
    var a, b := WithContents(entries[start..first], lines[start..first]), WithContents(entries[first..last], lines[first..last]);
    assert done + a + b == done + (a + b);
  }

  function Clamp(x: nat, low: nat, high: nat): nat
    requires low <= high
  {
    if x < low then low else if x > high then high else x
  }

  /** The entries a run covers carry its provenance. */
  ghost predicate Carries(entries: seq<Entry>, run: Run)
    requires run.start <= run.end <= |entries|
  {
    forall i :: run.start <= i < run.end ==>
      entries[i].provenance == Provenance(Advance(run.source, i - run.start), Advance(run.target, i - run.start), run.claimed)
  }

  lemma RunsCarry(contents: seq<Line>, runs: seq<Run>, r: nat)
    requires Tiles(runs, |contents|) && r < |runs|
    ensures runs[r].start < runs[r].end <= |contents|
    ensures Carries(Zip(contents, Decode(runs, |contents|)), runs[r])
  {
    TilesPrefix(runs, |runs|, |contents|, r);
    var provenance := Decode(runs, |contents|);
    forall i | runs[r].start <= i < runs[r].end
      ensures Zip(contents, provenance)[i].provenance
           == Provenance(Advance(runs[r].source, i - runs[r].start), Advance(runs[r].target, i - runs[r].start), runs[r].claimed)
    {
      DecodeAt(runs, |runs|, |contents|, r, i);
    }
  }

  lemma SliceOfRun(entries: seq<Entry>, run: Run, lines: seq<Line>, first: nat, last: nat)
    requires run.start <= first <= last <= run.end <= |entries| && last <= |lines|
    requires Carries(entries, run)
    ensures LinearEntries(lines[first..last], Advance(run.source, first - run.start), Advance(run.target, first - run.start), run.claimed)
         == WithContents(entries[first..last], lines[first..last])
  {
    var left := LinearEntries(lines[first..last], Advance(run.source, first - run.start), Advance(run.target, first - run.start), run.claimed);
    var right := WithContents(entries[first..last], lines[first..last]);
    forall k | 0 <= k < last - first ensures left[k] == right[k] {
      assert entries[first..last][k] == entries[first + k];
    }
  }
}
