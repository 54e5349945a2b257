/** Keeping the tail of an applied run when a saved prefix only adds words (batch/applied_text_replay.py:362-449). */
module PrefixComposition {
  import opened Wrappers
  import opened LineRanges
  import opened Tags
  import opened Bytes
  import opened WordTokens
  import opened WordInsertions
  import opened WordComposition

  type Lines = seq<Chunk>

  /** What another diff proposes, given the earlier text, the changed text and the replacement. */
  type Proposer = (Lines, Lines, Lines) -> Option<seq<Insertion>>

  /** Every proposal fits its replacement. */
  ghost predicate Fitting(others: Proposer) {
    forall before, changed, replacement :: others(before, changed, replacement).Some? ==>
      Proposed(|Words(Joined(replacement))|, others(before, changed, replacement).value)
  }

  function ProposedBy(others: Proposer, before: Lines, changed: Lines, replacement: Lines): seq<Insertion> {
    if others(before, changed, replacement).Some? then others(before, changed, replacement).value else []
  }

  /** The added words of the change can be carried over to the replacement, to these places. */
  ghost predicate CarriesOver(others: Proposer, before: Lines, changed: Lines, replacement: Lines, placed: seq<Insertion>) {
    var alternative := ProposedBy(others, before, changed, replacement);
    && !TooLarge(before) && !TooLarge(changed) && !TooLarge(replacement)
    && ToCarry(Joined(before), Joined(changed), alternative) != []
    && Solution(Joined(before), Joined(changed), Joined(replacement), alternative, placed)
  }

  /** The batch that an application recorded, and how its source matches the replacement. */
  datatype Application = Application(source: Lines, presence: seq<Span>, toSource: map<nat, nat>)
  {
    predicate Within() {
      forall t :: t in toSource ==> toSource[t] <= |source|
    }
  }

  // ---------------------------------------------------- where the texts differ

  /** Outside changed[start..stop] and replacement[start..end] the texts agree, and no further. */
  ghost predicate Differ(changed: Lines, replacement: Lines, start: nat, stop: nat, end: nat) {
    && start <= stop <= |changed| && start <= end <= |replacement|
    && changed[..start] == replacement[..start] && changed[stop..] == replacement[end..]
    && (start < |changed| && start < |replacement| ==> changed[start] != replacement[start])
    && (start < stop && start < end ==> changed[stop - 1] != replacement[end - 1])
  }

  method FindDifference(changed: Lines, replacement: Lines) returns (start: nat, stop: nat, end: nat)
    ensures Differ(changed, replacement, start, stop, end)
  {
    start := 0;
    while start < |changed| && start < |replacement| && changed[start] == replacement[start]
      invariant start <= |changed| && start <= |replacement| && changed[..start] == replacement[..start]
    {
      start := start + 1;
    }
    stop, end := |changed|, |replacement|;
    while stop > start && end > start && changed[stop - 1] == replacement[end - 1]
      invariant start <= stop <= |changed| && start <= end <= |replacement| && changed[stop..] == replacement[end..]
    {
      assert changed[stop - 1..] == [changed[stop - 1]] + changed[stop..];
      assert replacement[end - 1..] == [replacement[end - 1]] + replacement[end..];
      stop, end := stop - 1, end - 1;
    }
  }

  lemma SameStart(a: Lines, b: Lines, m: nat, n: nat)
    requires m <= |a| && m <= |b| && n <= |a| && n <= |b| && a[..n] == b[..n]
    requires m < |a| && m < |b| ==> a[m] != b[m]
    ensures n <= m
  {
    forall i | 0 <= i < n ensures a[i] == b[i] {
      assert a[..n][i] == b[..n][i];
    }
  }

  /** A common end that cannot begin any earlier, behind a limit, holds every other one behind it. */
  lemma SameEnd(a: Lines, b: Lines, limit: nat, i: nat, j: nat, p: nat, q: nat)
    requires limit <= i <= |a| && limit <= j <= |b| && limit <= p <= |a| && limit <= q <= |b|
    requires a[i..] == b[j..] && a[p..] == b[q..]
    requires limit < i && limit < j ==> a[i - 1] != b[j - 1]
    ensures i <= p
  {
    assert |a[i..]| == |b[j..]| && |a[p..]| == |b[q..]|;
    forall x | p <= x < |a| ensures a[x] == b[x - p + q] {
      assert a[p..][x - p] == b[q..][x - p];
    }
  }

  /** There is one such window. */
  lemma OneDifference(changed: Lines, replacement: Lines, start: nat, stop: nat, end: nat, first: nat, last: nat, upto: nat)
    requires Differ(changed, replacement, start, stop, end) && Differ(changed, replacement, first, last, upto)
    ensures start == first && stop == last && end == upto
  {
    SameStart(changed, replacement, start, first);
    SameStart(changed, replacement, first, start);
    SameEnd(changed, replacement, start, stop, end, last, upto);
    SameEnd(changed, replacement, start, last, upto, stop, end);
    assert |changed[stop..]| == |replacement[end..]| && |changed[last..]| == |replacement[upto..]|;
  }

  // ------------------------------------------------------- the applied run

  /** One presence range holds these source lines. */
  ghost predicate InOneRange(presence: seq<Span>, first: int, last: int) {
    exists i :: 0 <= i < |presence| && presence[i].first <= first && last <= presence[i].last
  }

  /** The replacement lines from the last common one to the end of the window stand in one applied run, as they are there. */
  ghost predicate FollowsRun(application: Application, replacement: Lines, start: nat, end: nat, s: nat)
    requires 0 < start <= end <= |replacement|
  {
    && s > 0 && InOneRange(application.presence, s, s + (end - start))
    && forall line: nat :: start <= line <= end ==> StandsAs(application, replacement, start, s, line)
  }

  /** A replacement line comes from the source line as far behind s as it is behind the start, with the same text. */
  predicate StandsAs(application: Application, replacement: Lines, start: nat, s: nat, line: nat)
    requires 0 < start <= line <= |replacement|
  {
    var from := s + (line - start);
    && line in application.toSource && application.toSource[line] == from && 1 <= from <= |application.source|
    && application.source[from - 1] == replacement[line - 1]
  }

  /** Every source line of such a run is claimed. */
  lemma RunIsClaimed(application: Application, replacement: Lines, start: nat, end: nat, s: nat, line: int)
    requires 0 < start <= end <= |replacement| && FollowsRun(application, replacement, start, end, s)
    requires s <= line <= s + (end - start)
    ensures Contains(application.presence, line) && 1 <= line <= |application.source|
    ensures application.source[line - 1] == replacement[start + line - s - 1]
  {
    var at: nat := start + (line - s);
    assert StandsAs(application, replacement, start, s, at);
  }

  method CheckRun(application: Application, replacement: Lines, start: nat, end: nat) returns (follows: bool)
    requires 0 < start <= end <= |replacement| && application.Within()
    ensures follows <==> exists s :: FollowsRun(application, replacement, start, end, s)
  {
    hide StandsAs;
    RunStarts(application, replacement, start, end);
    if start !in application.toSource || application.toSource[start] == 0 {
      return false;
    }
    var s := application.toSource[start];
    if !(exists i :: 0 <= i < |application.presence| && application.presence[i].first <= s && s + (end - start) <= application.presence[i].last) {
      return false;
    }
    var line := start;
    while line <= end
      invariant start <= line <= end + 1
      invariant forall x: nat :: start <= x < line ==> StandsAs(application, replacement, start, s, x)
    {
      if !StandsAs(application, replacement, start, s, line) {
        return false;
      }
      line := line + 1;
    }
    assert FollowsRun(application, replacement, start, end, s);
    return true;
  }

  /** A run begins where the last common line comes from. */
  lemma RunStarts(application: Application, replacement: Lines, start: nat, end: nat)
    requires 0 < start <= end <= |replacement|
    ensures forall s :: FollowsRun(application, replacement, start, end, s) ==>
      start in application.toSource && application.toSource[start] == s > 0
  {
    forall s: nat | FollowsRun(application, replacement, start, end, s)
      ensures start in application.toSource && application.toSource[start] == s > 0
    {
      assert StandsAs(application, replacement, start, s, start);
    }
  }

  // ------------------------------------------------------- the saved prefix

  /** A line whose last word this is. */
  predicate EndsWith(line: Chunk, word: Word) {
    var words := Words(line.bytes);
    words != [] && words[|words| - 1] == word
  }

  /** The replacement lines start..p are the only ones, short of the whole window, that end with the word. */
  ghost predicate OnlyPrefix(replacement: Lines, start: nat, end: nat, word: Word, p: nat)
    requires end <= |replacement|
  {
    && start < p < end && EndsWith(replacement[p - 1], word)
    && forall i :: start <= i < end - 1 && EndsWith(replacement[i], word) ==> i == p - 1
  }

  method FindPrefix(replacement: Lines, start: nat, end: nat, word: Word) returns (prefix: Option<nat>)
    requires start < end <= |replacement|
    ensures prefix.Some? ==> OnlyPrefix(replacement, start, end, word, prefix.value)
    ensures prefix.None? ==> forall p :: !OnlyPrefix(replacement, start, end, word, p)
  {
    hide EndsWith;
    prefix := None;
    var index := start;
    while index < end - 1
      invariant start <= index <= end - 1
      invariant prefix.None? ==> forall i :: start <= i < index ==> !EndsWith(replacement[i], word)
      invariant prefix.Some? ==> start < prefix.value <= index && EndsWith(replacement[prefix.value - 1], word)
      invariant prefix.Some? ==> forall i :: start <= i < index && EndsWith(replacement[i], word) ==> i == prefix.value - 1
    {
      if EndsWith(replacement[index], word) {
        if prefix.Some? {
          return None;
        }
        prefix := Some(index + 1);
      }
      index := index + 1;
    }
  }

  // ---------------------------------------------------------- the composition

  /** One way to keep the tail of the applied run. */
  ghost predicate KeepsTail(others: Proposer, application: Application, changed: Lines, replacement: Lines,
                            start: nat, stop: nat, end: nat, p: nat, placed: seq<Insertion>) {
    && !TooLarge(changed) && !TooLarge(replacement) && Differ(changed, replacement, start, stop, end)
    && 0 < start < stop && end - start >= 2 && (exists s :: FollowsRun(application, replacement, start, end, s))
    && Words(Joined(changed[start..stop])) != []
    && OnlyPrefix(replacement, start, end, LastWord(changed[start..stop]), p)
    && (exists i :: p <= i < end && Words(replacement[i].bytes) != [])
    && CarriesOver(others, replacement[start..p], changed[start..stop], replacement[start..end], placed)
  }

  function LastWord(lines: Lines): Word
    requires Words(Joined(lines)) != []
  {
    Words(Joined(lines))[|Words(Joined(lines))| - 1]
  }

  lemma {:induction false} PartIsSmall(lines: Lines, from: nat, upto: nat)
    requires from <= upto <= |lines|
    ensures |Joined(lines[from..upto])| <= |Joined(lines)|
    decreases |lines|
  {
    if upto < |lines| {
      var init := lines[..|lines| - 1];
      PartIsSmall(init, from, upto);
      assert init[from..upto] == lines[from..upto];
    } else if from < upto {
      var init := lines[..|lines| - 1];
      PartIsSmall(init, from, upto - 1);
      assert lines[from..upto][..upto - from - 1] == init[from..upto - 1];
    }
  }

  /** Carry the added words over to the window, and keep the replacement around it. */
  method ComposeOverlappingPresencePrefix(others: Proposer, application: Application, changed: Lines, replacement: Lines)
    returns (composed: Option<seq<Byte>>, ghost start: nat, ghost stop: nat, ghost end: nat, ghost p: nat, ghost placed: seq<Insertion>)
    requires Fitting(others) && application.Within()
    ensures composed.Some? ==>
      && KeepsTail(others, application, changed, replacement, start, stop, end, p, placed)
      && composed.value == Joined(replacement[..start]) + Composed(Joined(replacement[start..end]), placed) + Joined(replacement[end..])
    ensures composed.None? ==>
      forall first, last, upto, q, whole :: !KeepsTail(others, application, changed, replacement, first, last, upto, q, whole)
  {
    hide Differ, FollowsRun, Words, OnlyPrefix, Solution, Composed, ToCarry, Joined;
    composed, p, placed := None, 0, [];
    var from, till, upto := FindDifference(changed, replacement);
    start, stop, end := from, till, upto;
    var changedContent := BoundedContent(changed);
    var content := BoundedContent(replacement);
    forall first, last, next, q, whole | KeepsTail(others, application, changed, replacement, first, last, next, q, whole)
      ensures first == from && last == till && next == upto
    {
      OneDifference(changed, replacement, from, till, upto, first, last, next);
    }
    DifferInside(changed, replacement, from, till, upto);
    if changedContent.None? || content.None? || from == 0 || till == from || upto - from < 2 {
      return;
    }
    var follows := CheckRun(application, replacement, from, upto);
    if !follows {
      return;
    }
    var block := changed[from..till];
    PartIsSmall(changed, from, till);
    if Words(Joined(block)) == [] {
      return;
    }
    var prefix := FindPrefix(replacement, from, upto, LastWord(block));
    if prefix.None? {
      return;
    }
    p := prefix.value;
    OnePrefix(replacement, from, upto, LastWord(block), prefix.value);
    if !(exists i :: prefix.value <= i < upto && Words(replacement[i].bytes) != []) {
      return;
    }
    PartIsSmall(replacement, from, prefix.value);
    PartIsSmall(replacement, from, upto);
    var inner;
    inner, placed := ComposeWordInsertions(replacement[from..prefix.value], block, replacement[from..upto],
      others(replacement[from..prefix.value], block, replacement[from..upto]));
    if inner.Some? {
      composed := Some(Joined(replacement[..from]) + inner.value + Joined(replacement[upto..]));
    }
  }

  /** The text's last stretch without white space is this word. */
  ghost predicate EndsIn(content: seq<Byte>, word: Word) {
    exists token :: LastStretch(content, token) && token.value == word
  }

  ghost predicate LastStretch(content: seq<Byte>, token: Token) {
    IsToken(content, token) && forall k :: token.end <= k < |content| ==> IsSpace(content[k])
  }

  /** Two maximal stretches that meet are one. */
  lemma SameToken(content: seq<Byte>, a: Token, b: Token)
    requires IsToken(content, a) && IsToken(content, b) && b.start <= a.start < b.end
    ensures a == b
  {
  }

  lemma TokenWithin(content: seq<Byte>, token: Token)
    requires IsToken(content, token)
    ensures token.start < token.end <= |content| && !IsSpace(content[token.start])
  {
  }

  /** Nothing but white space follows the last token. */
  lemma LastTokenEnds(content: seq<Byte>)
    requires Tokens(content) != []
    ensures LastStretch(content, Tokens(content)[|Tokens(content)| - 1])
  {
    hide Tokens, IsToken;
    var tokens := Tokens(content);
    TokensAre(content);
    var last := tokens[|tokens| - 1];
    TokenWithin(content, last);
    forall k: nat | k < |content| && !IsSpace(content[k]) ensures k < last.end {
      assert InSome(tokens, k);
    }
  }

  lemma OneLastStretch(content: seq<Byte>, token: Token)
    requires LastStretch(content, token)
    ensures Tokens(content) != [] && Tokens(content)[|Tokens(content)| - 1] == token
  {
    hide Tokens, IsToken;
    var tokens := Tokens(content);
    TokensAre(content);
    TokenWithin(content, token);
    assert InSome(tokens, token.start);
    var i :| 0 <= i < |tokens| && tokens[i].start <= token.start < tokens[i].end;
    SameToken(content, token, tokens[i]);
    var last := tokens[|tokens| - 1];
    TokenWithin(content, last);
  }

  lemma LastWordIs(content: seq<Byte>, word: Word)
    ensures EndsIn(content, word) <==> Words(content) != [] && Words(content)[|Words(content)| - 1] == word
  {
    hide Tokens, LastStretch;
    if Tokens(content) != [] {
      LastTokenEnds(content);
    }
    if token :| LastStretch(content, token) && token.value == word {
      OneLastStretch(content, token);
    }
  }

  /** The kept lines of the run end in the last word of the changed text, and no other line short of the whole window does. */
  lemma KeptLinesEndAlike(others: Proposer, application: Application, changed: Lines, replacement: Lines,
                          start: nat, stop: nat, end: nat, p: nat, placed: seq<Insertion>)
    requires KeepsTail(others, application, changed, replacement, start, stop, end, p, placed)
    ensures start < p < end <= |replacement| && start < stop <= |changed|
    ensures exists word ::
      && EndsIn(Joined(changed[start..stop]), word) && EndsIn(replacement[p - 1].bytes, word)
      && forall i :: start <= i < end - 1 && EndsIn(replacement[i].bytes, word) ==> i == p - 1
  {
    hide CarriesOver, FollowsRun, Joined, Words, EndsIn;
    var word := LastWord(changed[start..stop]);
    LastWordIs(Joined(changed[start..stop]), word);
    forall i | start <= i < end ensures EndsIn(replacement[i].bytes, word) <==> EndsWith(replacement[i], word) {
      LastWordIs(replacement[i].bytes, word);
    }
  }

  lemma DifferInside(changed: Lines, replacement: Lines, start: nat, stop: nat, end: nat)
    requires Differ(changed, replacement, start, stop, end)
    ensures start <= stop <= |changed| && start <= end <= |replacement|
  {
  }

  lemma OnePrefix(replacement: Lines, start: nat, end: nat, word: Word, p: nat)
    requires end <= |replacement| && OnlyPrefix(replacement, start, end, word, p)
    ensures start < p < end && forall q :: OnlyPrefix(replacement, start, end, word, q) ==> q == p
  {
    hide EndsWith;
  }
}
