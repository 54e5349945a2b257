/** Units of change between a baseline and a worktree file (batch/attribution_units.py). */
module AttributionUnits {
  import opened Wrappers
  import opened LineRanges
  import opened Realized

  datatype UnitKind = PresenceOnly | DeletionOnly | Replacement

  datatype Fingerprint = Fingerprint(byteCount: nat, sha1: string)

  /** SHA-1 of one line and of several lines; any functions will do. */
  datatype Digests = Digests(ofLine: Line -> Fingerprint, ofLines: seq<Line> -> Fingerprint)

  datatype AttributionUnit = AttributionUnit(
    id: string,
    kind: UnitKind,
    line: Option<nat>,
    content: Option<Line>,
    anchor: Option<nat>,
    deletion: Option<Fingerprint>,
    fingerprint: Option<Fingerprint>,
    lineCount: Option<nat>)

  // --------------------------------------------------------------- identifiers

  function Digit(d: nat): (c: char)
    requires d < 10
    ensures '0' <= c <= '9'
  {
    ('0' as int + d) as char
  }

  function Decimal(n: nat): (text: string)
    ensures text != [] && forall i :: 0 <= i < |text| ==> '0' <= text[i] <= '9'
  {
    if n < 10 then [Digit(n)] else Decimal(n / 10) + [Digit(n % 10)]
  }

  lemma {:induction false} DecimalIsInjective(a: nat, b: nat)
    requires Decimal(a) == Decimal(b)
    ensures a == b
    decreases a
  {
    var x, y := Decimal(a), Decimal(b);
    assert x[|x| - 1] == Digit(a % 10) && y[|y| - 1] == Digit(b % 10);
    if a >= 10 && b >= 10 {
      assert x[..|x| - 1] == Decimal(a / 10) && y[..|y| - 1] == Decimal(b / 10);
      DecimalIsInjective(a / 10, b / 10);
    }
  }

  /** A line number in an identifier, or the word for none. */
  function NumberText(number: Option<nat>, none: string): string {
    if number.Some? then Decimal(number.value) else none
  }

  function First8(text: string): string {
    if |text| <= 8 then text else text[..8]
  }

  function ShortHash(digests: Digests, content: Option<Line>, fingerprint: Option<Fingerprint>): string {
    if fingerprint.Some? then (if fingerprint.value.byteCount == 0 then "none" else First8(fingerprint.value.sha1))
    else if content.None? || content.value.text == "" then "none"
    else First8(digests.ofLine(content.value).sha1)
  }

  const MISSING := "missing"
  const START := "start"

  /** A batch-independent identifier: kind, path, place and short hashes. */
  function UnitId(digests: Digests, kind: UnitKind, path: string, line: Option<nat>, content: Option<Line>,
                  fingerprint: Option<Fingerprint>, anchor: Option<nat>, deletion: Option<Fingerprint>): string
  {
    match kind
    case PresenceOnly =>
      "PRESENCE_ONLY:" + path + ":" + (NumberText(line, MISSING) + ":" + ShortHash(digests, content, fingerprint))
    case DeletionOnly =>
      "DELETION_ONLY:" + path + ":after-" + (NumberText(anchor, START) + ":" + ShortHash(digests, None, deletion))
    case Replacement =>
      "REPLACEMENT:" + path + ":" + (NumberText(line, MISSING) + ":"
        + ("after-" + NumberText(anchor, START) + ":c" + ShortHash(digests, content, fingerprint) + ":d" + ShortHash(digests, None, deletion)))
  }

  predicate NoColon(text: string) {
    forall i :: 0 <= i < |text| ==> text[i] != ':'
  }

  lemma ColonNotBefore(a: string, x: string, b: string, y: string)
    requires NoColon(b) && a + ":" + x == b + ":" + y
    ensures |b| <= |a|
  {
    var all := b + ":" + y;
    assert (a + ":" + x)[|a|] == ':';
    forall k | 0 <= k < |b| ensures all[k] != ':' {
      assert all[k] == b[k];
    }
  }

  lemma ColonSplits(a: string, x: string, b: string, y: string)
    requires NoColon(a) && NoColon(b) && a + ":" + x == b + ":" + y
    ensures a == b
  {
    ColonNotBefore(a, x, b, y);
    ColonNotBefore(b, y, a, x);
    assert a == (a + ":" + x)[..|a|] && b == (b + ":" + y)[..|b|];
  }

  lemma SamePrefix(prefix: string, a: string, b: string)
    requires prefix + a == prefix + b
    ensures a == b
  {
    assert a == (prefix + a)[|prefix|..] && b == (prefix + b)[|prefix|..];
  }

  lemma NumberTextIsInjective(a: Option<nat>, b: Option<nat>, none: string)
    requires none != "" && NoColon(none) && !('0' <= none[0] <= '9')
    ensures NoColon(NumberText(a, none))
    ensures NumberText(a, none) == NumberText(b, none) ==> a == b
  {
    if NumberText(a, none) == NumberText(b, none) && a.Some? && b.Some? {
      DecimalIsInjective(a.value, b.value);
    }
  }

  /** Units of one file share an identifier only when kind and place agree, whatever the hashes. */
  lemma IdTellsPlace(digests: Digests, path: string, kindA: UnitKind, lineA: Option<nat>, contentA: Option<Line>,
                     fingerprintA: Option<Fingerprint>, anchorA: Option<nat>, deletionA: Option<Fingerprint>,
                     kindB: UnitKind, lineB: Option<nat>, contentB: Option<Line>,
                     fingerprintB: Option<Fingerprint>, anchorB: Option<nat>, deletionB: Option<Fingerprint>)
    requires UnitId(digests, kindA, path, lineA, contentA, fingerprintA, anchorA, deletionA)
          == UnitId(digests, kindB, path, lineB, contentB, fingerprintB, anchorB, deletionB)
    ensures kindA == kindB
    ensures kindA == DeletionOnly ==> anchorA == anchorB
    ensures kindA != DeletionOnly ==> lineA == lineB
  {
    var a, b := UnitId(digests, kindA, path, lineA, contentA, fingerprintA, anchorA, deletionA),
                UnitId(digests, kindB, path, lineB, contentB, fingerprintB, anchorB, deletionB);
    assert a[0] == b[0];
    NumberTextIsInjective(lineA, lineB, MISSING);
    NumberTextIsInjective(lineB, lineA, MISSING);
    NumberTextIsInjective(anchorA, anchorB, START);
    NumberTextIsInjective(anchorB, anchorA, START);
    hide ShortHash, NumberText;
    match kindA {
      case PresenceOnly =>
        PlaceAgrees("PRESENCE_ONLY:" + path + ":", NumberText(lineA, MISSING), ShortHash(digests, contentA, fingerprintA),
          NumberText(lineB, MISSING), ShortHash(digests, contentB, fingerprintB));
      case DeletionOnly =>
        PlaceAgrees("DELETION_ONLY:" + path + ":after-", NumberText(anchorA, START), ShortHash(digests, None, deletionA),
          NumberText(anchorB, START), ShortHash(digests, None, deletionB));
      case Replacement =>
        PlaceAgrees("REPLACEMENT:" + path + ":", NumberText(lineA, MISSING),
          "after-" + NumberText(anchorA, START) + ":c" + ShortHash(digests, contentA, fingerprintA) + ":d" + ShortHash(digests, None, deletionA),
          NumberText(lineB, MISSING),
          "after-" + NumberText(anchorB, START) + ":c" + ShortHash(digests, contentB, fingerprintB) + ":d" + ShortHash(digests, None, deletionB));
    }
  }

  /** The identifier made of a unit's own fields. */
  function IdOf(digests: Digests, path: string, unit: AttributionUnit): string {
    UnitId(digests, unit.kind, path, unit.line, unit.content, unit.fingerprint, unit.anchor, unit.deletion)
  }

  /** Two units say the same: kind, place, and the short hashes of what they added and removed. */
  predicate SaysSame(digests: Digests, a: AttributionUnit, b: AttributionUnit) {
    && a.kind == b.kind
    && (a.kind != DeletionOnly ==>
          a.line == b.line && ShortHash(digests, a.content, a.fingerprint) == ShortHash(digests, b.content, b.fingerprint))
    && (a.kind != PresenceOnly ==>
          a.anchor == b.anchor && ShortHash(digests, None, a.deletion) == ShortHash(digests, None, b.deletion))
  }

  /** Identifiers of one file agree exactly when the units say the same, as long as short hashes hold no colon. */
  lemma IdTellsUnit(digests: Digests, path: string, a: AttributionUnit, b: AttributionUnit)
    requires NoColon(ShortHash(digests, a.content, a.fingerprint)) && NoColon(ShortHash(digests, b.content, b.fingerprint))
    ensures IdOf(digests, path, a) == IdOf(digests, path, b) <==> SaysSame(digests, a, b)
  {
    if IdOf(digests, path, a) == IdOf(digests, path, b) {
      IdTellsPlace(digests, path, a.kind, a.line, a.content, a.fingerprint, a.anchor, a.deletion,
        b.kind, b.line, b.content, b.fingerprint, b.anchor, b.deletion);
      NumberTextIsInjective(a.anchor, b.anchor, START);
      NumberTextIsInjective(b.anchor, a.anchor, START);
      hide ShortHash, NumberText, NoColon;
      var line, anchor := NumberText(a.line, MISSING), NumberText(a.anchor, START);
      var x, y := ShortHash(digests, a.content, a.fingerprint), ShortHash(digests, b.content, b.fingerprint);
      var c, d := ShortHash(digests, None, a.deletion), ShortHash(digests, None, b.deletion);
      match a.kind {
        case PresenceOnly =>
          RestAgrees("PRESENCE_ONLY:" + path + ":", line + ":", x, y);
        case DeletionOnly =>
          RestAgrees("DELETION_ONLY:" + path + ":after-", anchor + ":", c, d);
        case Replacement =>
          var other := NumberText(b.anchor, START);
          RestAgrees("REPLACEMENT:" + path + ":", line + ":", "after-" + anchor + ":c" + x + ":d" + c, "after-" + other + ":c" + y + ":d" + d);
          BothTextsAgree(anchor, x, c, other, y, d);
      }
    }
  }

  lemma RestAgrees(prefix: string, place: string, a: string, b: string)
    ensures prefix + (place + a) == prefix + (place + b) ==> a == b
  {
    if prefix + (place + a) == prefix + (place + b) {
      SamePrefix(prefix, place + a, place + b);
      SamePrefix(place, a, b);
    }
  }

  lemma BothTextsAgree(a: string, x: string, c: string, b: string, y: string, d: string)
    requires NoColon(a) && NoColon(b) && NoColon(x) && NoColon(y)
    requires "after-" + a + ":c" + x + ":d" + c == "after-" + b + ":c" + y + ":d" + d
    ensures a == b && x == y && c == d
  {
    hide NoColon;
    assert "after-" + a + ":c" + x + ":d" + c == "after-" + (a + ":" + ("c" + (x + ":" + ("d" + c))));
    assert "after-" + b + ":c" + y + ":d" + d == "after-" + (b + ":" + ("c" + (y + ":" + ("d" + d))));
    PlaceAgrees("after-", a, "c" + (x + ":" + ("d" + c)), b, "c" + (y + ":" + ("d" + d)));
    SamePrefix("after-", a + ":" + ("c" + (x + ":" + ("d" + c))), a + ":" + ("c" + (y + ":" + ("d" + d))));
    SamePrefix(a + ":", "c" + (x + ":" + ("d" + c)), "c" + (y + ":" + ("d" + d)));
    PlaceAgrees("c", x, "d" + c, y, "d" + d);
    SamePrefix("c", x + ":" + ("d" + c), x + ":" + ("d" + d));
    SamePrefix(x + ":", "d" + c, "d" + d);
    SamePrefix("d", c, d);
  }

  /** A short hash is the beginning of a hash: of the text, of one line, or the word for no text. */
  lemma ShortHashIs(digests: Digests, content: Option<Line>, fingerprint: Option<Fingerprint>)
    ensures var short := ShortHash(digests, content, fingerprint);
      && |short| <= 8
      && (fingerprint.Some? && fingerprint.value.byteCount > 0 ==> short <= fingerprint.value.sha1)
      && (fingerprint.Some? && fingerprint.value.byteCount > 0 && |fingerprint.value.sha1| > 8 ==> |short| == 8)
      && (fingerprint.None? && content.Some? && content.value.text != "" ==> short <= digests.ofLine(content.value).sha1)
      && (fingerprint.None? && content.Some? && content.value.text != "" && |digests.ofLine(content.value).sha1| > 8 ==> |short| == 8)
      && (fingerprint.None? && (content.None? || content.value.text == "") ==> short == "none")
      && (fingerprint.Some? && fingerprint.value.byteCount == 0 ==> short == "none")
  {
  }

  lemma PlaceAgrees(prefix: string, a: string, x: string, b: string, y: string)
    requires NoColon(a) && NoColon(b)
    ensures prefix + (a + ":" + x) == prefix + (b + ":" + y) ==> a == b
  {
    if prefix + (a + ":" + x) == prefix + (b + ":" + y) {
      SamePrefix(prefix, a + ":" + x, b + ":" + y);
      ColonSplits(a, x, b, y);
    }
  }

  // ---------------------------------------------------------------------- runs

  /** Group ascending line numbers into runs without gaps. */
  method GroupConsecutive(lines: seq<nat>) returns (runs: seq<Span>)
    requires forall i, j :: 0 <= i < j < |lines| ==> lines[i] < lines[j]
    ensures Normalized(runs) && forall x :: Contains(runs, x) <==> x in lines
  {
    if lines == [] {
      return [];
    }
    runs := [Span(lines[0], lines[0])];
    OneRun(lines[0]);
    assert lines[..1] == [lines[0]];
    var i := 1;
    while i < |lines|
      invariant 1 <= i <= |lines| && runs != [] && runs[|runs| - 1].last == lines[i - 1]
      invariant Normalized(runs) && forall x :: Contains(runs, x) <==> x in lines[..i]
    {
      assert lines[..i + 1] == lines[..i] + [lines[i]];
      if lines[i] == runs[|runs| - 1].last + 1 {
        GrowLastRun(runs);
        runs := runs[|runs| - 1 := Span(runs[|runs| - 1].first, lines[i])];
      } else {
        NewRun(runs, lines[i]);
        runs := runs + [Span(lines[i], lines[i])];
      }
      i := i + 1;
    }
    assert lines[..i] == lines;
  }

  lemma OneRun(line: int)
    ensures Normalized([Span(line, line)])
    ensures forall x :: Contains([Span(line, line)], x) <==> x == line
  {
    forall x ensures Contains([Span(line, line)], x) <==> x == line {
      ContainsAppend([], Span(line, line), x);
      assert [] + [Span(line, line)] == [Span(line, line)];
    }
  }

  lemma GrowLastRun(runs: seq<Span>)
    requires Normalized(runs) && runs != []
    ensures var last := runs[|runs| - 1];
      var grown := runs[|runs| - 1 := Span(last.first, last.last + 1)];
      Normalized(grown) && forall x :: Contains(grown, x) <==> Contains(runs, x) || x == last.last + 1
  {
    var init, last := runs[..|runs| - 1], runs[|runs| - 1];
    var grown := runs[|runs| - 1 := Span(last.first, last.last + 1)];
    assert runs == init + [last] && grown == init + [Span(last.first, last.last + 1)];
    forall x ensures Contains(grown, x) <==> Contains(runs, x) || x == last.last + 1 {
      ContainsAppend(init, last, x);
      ContainsAppend(init, Span(last.first, last.last + 1), x);
    }
  }

  lemma NewRun(runs: seq<Span>, line: int)
    requires Normalized(runs) && runs != [] && runs[|runs| - 1].last + 1 < line
    ensures Normalized(runs + [Span(line, line)])
    ensures forall x :: Contains(runs + [Span(line, line)], x) <==> Contains(runs, x) || x == line
  {
    AppendRange(runs, Span(line, line));
    forall x ensures Contains(runs + [Span(line, line)], x) <==> Contains(runs, x) || x == line {
      ContainsAppend(runs, Span(line, line), x);
    }
  }

  /** The last matched line before a line, if any. */
  function Predecessor(matched: set<nat>, line: int): Option<nat>
    decreases if line > 0 then line else 0
  {
    if line <= 1 then None
    else if line - 1 in matched then Some(line - 1)
    else Predecessor(matched, line - 1)
  }

  method FindStructuralPredecessor(first: int, matched: map<nat, nat>) returns (predecessor: Option<nat>)
    ensures predecessor == Predecessor(matched.Keys, first)
  {
    var candidate := first - 1;
    while candidate > 0
      invariant Predecessor(matched.Keys, candidate + 1) == Predecessor(matched.Keys, first)
    {
      if candidate in matched {
        return Some(candidate);
      }
      candidate := candidate - 1;
    }
    predecessor := None;
  }

  lemma {:induction false} PredecessorIs(matched: set<nat>, line: int)
    ensures match Predecessor(matched, line)
      case Some(p) => 1 <= p < line && p in matched && forall x: nat :: p < x < line ==> x !in matched
      case None => forall x: nat :: 1 <= x < line ==> x !in matched
    decreases if line > 0 then line else 0
  {
    if line > 1 && line - 1 !in matched {
      PredecessorIs(matched, line - 1);
    }
  }

  /** Runs of the lines 1..count that are not matched. */
  ghost predicate RunsOfUnmatched(matched: set<nat>, count: nat, runs: seq<Span>) {
    Normalized(runs) && forall x :: Contains(runs, x) <==> 1 <= x <= count && x !in matched
  }

  /** Two runs never follow the same matched line. */
  lemma RunsFollowDifferentLines(matched: set<nat>, count: nat, runs: seq<Span>, i: nat, j: nat)
    requires RunsOfUnmatched(matched, count, runs) && i < j < |runs|
    ensures Predecessor(matched, runs[i].first) != Predecessor(matched, runs[j].first)
  {
    PredecessorIs(matched, runs[i].first);
    PredecessorIs(matched, runs[j].first);
    var between := runs[i].last + 1;
    assert Contains(runs, runs[i].last) && Contains(runs, runs[j].first);
    BetweenRanges(runs, i + 1, between);
    assert between in matched;
    assert between < runs[j].first;
  }
}
