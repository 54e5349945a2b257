/** Words added between two versions, and where they go in a third (batch/applied_text_replay.py:111-155, 231-282). */
module WordInsertions {
  import opened Wrappers
  import opened Sequences
  import opened WordTokens

  /** Words inserted at one boundary of the earlier text. */
  datatype Insertion = Insertion(boundary: nat, words: seq<Word>)

  const MAX_WORD_INSERTIONS := 8
  const WORD_CONTEXT_LIMIT := 16

  // ------------------------------------------------------- the insertion diff

  /** The boundary that the first `count` insertions reach. */
  function Reached(insertions: seq<Insertion>, count: nat): nat
    requires count <= |insertions|
  {
    if count == 0 then 0 else insertions[count - 1].boundary
  }

  /** Boundaries that do not go back, inside a text of `length` words. */
  ghost predicate Forward(insertions: seq<Insertion>, length: nat) {
    && (forall n :: 0 <= n < |insertions| ==> insertions[n].boundary <= length)
    && (forall m, n :: 0 <= m < n < |insertions| ==> insertions[m].boundary <= insertions[n].boundary)
  }

  /** The text up to and with the first `count` insertions. */
  ghost function WovenTo(base: seq<Word>, insertions: seq<Insertion>, count: nat): seq<Word>
    requires Forward(insertions, |base|) && count <= |insertions|
  {
    if count == 0 then []
    else
      WovenTo(base, insertions, count - 1) + base[Reached(insertions, count - 1)..Reached(insertions, count)]
        + insertions[count - 1].words
  }

  /** The text with every insertion at its boundary. */
  ghost function Woven(base: seq<Word>, insertions: seq<Insertion>): seq<Word>
    requires Forward(insertions, |base|)
  {
    WovenTo(base, insertions, |insertions|) + base[Reached(insertions, |insertions|)..]
  }

  /** Where a word next occurs, or the end. */
  function NextAt(words: seq<Word>, from: nat, word: Word): (k: nat)
    requires from <= |words|
    ensures from <= k <= |words| && (k < |words| ==> words[k] == word)
    ensures forall i :: from <= i < k ==> words[i] != word
    decreases |words| - from
  {
    if from == |words| || words[from] == word then from else NextAt(words, from + 1, word)
  }

  function Gap(boundary: nat, words: seq<Word>): seq<Insertion> {
    if words == [] then [] else [Insertion(boundary, words)]
  }

  /** Match every base word with its next occurrence, from base word i and changed word j on. */
  function Greedy(base: seq<Word>, i: nat, changed: seq<Word>, j: nat): Option<seq<Insertion>>
    requires i <= |base| && j <= |changed|
    decreases |base| - i
  {
    if i == |base| then Some(Gap(i, changed[j..]))
    else
      var k := NextAt(changed, j, base[i]);
      if k == |changed| then None
      else
        match Greedy(base, i + 1, changed, k + 1)
        case None => None
        case Some(rest) => Some(Gap(i, changed[j..k]) + rest)
  }

  /** Every word of the one text, in order, somewhere in the other. */
  ghost predicate Embeds(base: seq<Word>, i: nat, changed: seq<Word>, j: nat, at: seq<nat>) {
    && |at| == |base|
    && (forall n :: i <= n < |at| ==> j <= at[n] < |changed| && changed[at[n]] == base[n])
    && (forall m, n :: i <= m < n < |at| ==> at[m] < at[n])
  }

  ghost predicate IsSubsequence(base: seq<Word>, changed: seq<Word>) {
    exists at :: Embeds(base, 0, changed, 0, at)
  }

  /** Taking the next occurrence never misses an embedding. */
  lemma {:induction false} GreedyFindsAll(base: seq<Word>, i: nat, changed: seq<Word>, j: nat, at: seq<nat>)
    requires i <= |base| && j <= |changed| && Embeds(base, i, changed, j, at)
    ensures Greedy(base, i, changed, j).Some?
    decreases |base| - i
  {
    if i < |base| {
      var k := NextAt(changed, j, base[i]);
      assert k <= at[i];
      GreedyFindsAll(base, i + 1, changed, k + 1, at);
    }
  }

  lemma {:induction false} GreedyEmbeds(base: seq<Word>, i: nat, changed: seq<Word>, j: nat) returns (at: seq<nat>)
    requires i <= |base| && j <= |changed| && Greedy(base, i, changed, j).Some?
    ensures Embeds(base, i, changed, j, at)
    decreases |base| - i
  {
    if i == |base| {
      at := seq(|base|, n => 0);
    } else {
      var k := NextAt(changed, j, base[i]);
      var rest := GreedyEmbeds(base, i + 1, changed, k + 1);
      at := rest[i := k];
    }
  }

  /** The insertions start at base word i or later, grow strictly, and none is empty. */
  ghost predicate Strict(insertions: seq<Insertion>, from: nat, length: nat) {
    && (forall n :: 0 <= n < |insertions| ==> from <= insertions[n].boundary <= length && insertions[n].words != [])
    && (forall m, n :: 0 <= m < n < |insertions| ==> insertions[m].boundary < insertions[n].boundary)
  }

  lemma GapIsStrict(boundary: nat, words: seq<Word>, rest: seq<Insertion>, length: nat)
    requires boundary < length && Strict(rest, boundary + 1, length)
    ensures Strict(Gap(boundary, words) + rest, boundary, length)
  {
  }

  lemma GreedySplits(base: seq<Word>, i: nat, changed: seq<Word>, j: nat)
    requires i < |base| && j <= |changed| && Greedy(base, i, changed, j).Some?
    ensures var k := NextAt(changed, j, base[i]);
      && k < |changed| && Greedy(base, i + 1, changed, k + 1).Some?
      && Greedy(base, i, changed, j).value == Gap(i, changed[j..k]) + Greedy(base, i + 1, changed, k + 1).value
  {
  }

  lemma {:induction false} GreedyIsStrict(base: seq<Word>, i: nat, changed: seq<Word>, j: nat)
    requires i <= |base| && j <= |changed| && Greedy(base, i, changed, j).Some?
    ensures Strict(Greedy(base, i, changed, j).value, i, |base|)
    decreases |base| - i
  {
    if i < |base| {
      hide Strict, Gap, Greedy, NextAt;
      var k := NextAt(changed, j, base[i]);
      GreedySplits(base, i, changed, j);
      GreedyIsStrict(base, i + 1, changed, k + 1);
      GapIsStrict(i, changed[j..k], Greedy(base, i + 1, changed, k + 1).value, |base|);
    }
  }

  /** Inserted words are words of the changed text. */
  lemma {:induction false} GreedyTakesChanged(base: seq<Word>, i: nat, changed: seq<Word>, j: nat)
    requires i <= |base| && j <= |changed| && Greedy(base, i, changed, j).Some?
    ensures var insertions := Greedy(base, i, changed, j).value;
      forall n :: 0 <= n < |insertions| ==> forall w :: w in insertions[n].words ==> w in changed
    decreases |base| - i
  {
    if i < |base| {
      GreedyTakesChanged(base, i + 1, changed, NextAt(changed, j, base[i]) + 1);
    }
  }

  /** The insertions found so far account for the changed words read so far. */
  ghost predicate Accounts(base: seq<Word>, i: nat, changed: seq<Word>, j: nat, done: seq<Insertion>)
    requires i <= |base| && j <= |changed|
  {
    && Forward(done, |base|) && Reached(done, |done|) <= i
    && WovenTo(base, done, |done|) + base[Reached(done, |done|)..i] == changed[..j]
  }

  lemma {:induction false} WovenPrefix(base: seq<Word>, a: seq<Insertion>, b: seq<Insertion>, count: nat)
    requires Forward(a, |base|) && Forward(b, |base|) && count <= |a| && count <= |b|
    requires forall n :: 0 <= n < count ==> a[n] == b[n]
    ensures WovenTo(base, a, count) == WovenTo(base, b, count)
  {
    if count > 0 {
      WovenPrefix(base, a, b, count - 1);
    }
  }

  /** A gap in front of base word i is one more insertion. */
  lemma GapAccounts(base: seq<Word>, i: nat, changed: seq<Word>, j: nat, k: nat, done: seq<Insertion>)
    requires i <= |base| && j <= k <= |changed| && Accounts(base, i, changed, j, done)
    ensures Accounts(base, i, changed, k, done + Gap(i, changed[j..k]))
  {
    if j == k {
      assert done + [] == done;
    } else {
      var longer := done + [Insertion(i, changed[j..k])];
      WovenPrefix(base, done, longer, |done|);
      assert base[i..i] == [];
      assert changed[..k] == changed[..j] + changed[j..k];
    }
  }

  lemma MatchAccounts(base: seq<Word>, i: nat, changed: seq<Word>, j: nat, done: seq<Insertion>)
    requires i < |base| && j < |changed| && changed[j] == base[i] && Accounts(base, i, changed, j, done)
    ensures Accounts(base, i + 1, changed, j + 1, done)
  {
    ExtendSlice(WovenTo(base, done, |done|), base, Reached(done, |done|), i + 1);
    assert changed[..j + 1] == changed[..j] + [changed[j]];
  }

  /** Applying the insertions to the base gives the changed words. */
  lemma {:induction false} GreedyAccounts(base: seq<Word>, i: nat, changed: seq<Word>, j: nat, done: seq<Insertion>)
    requires i <= |base| && j <= |changed| && Greedy(base, i, changed, j).Some? && Accounts(base, i, changed, j, done)
    ensures Accounts(base, |base|, changed, |changed|, done + Greedy(base, i, changed, j).value)
    decreases |base| - i
  {
    hide Accounts;
    if i == |base| {
      GapAccounts(base, i, changed, j, |changed|, done);
      assert changed[j..|changed|] == changed[j..];
    } else {
      var k := NextAt(changed, j, base[i]);
      GapAccounts(base, i, changed, j, k, done);
      var longer := done + Gap(i, changed[j..k]);
      MatchAccounts(base, i, changed, k, longer);
      GreedyAccounts(base, i + 1, changed, k + 1, longer);
      Reassociate(done, Gap(i, changed[j..k]), Greedy(base, i + 1, changed, k + 1).value);
    }
  }

  lemma NothingAccounts(base: seq<Word>, changed: seq<Word>)
    ensures Accounts(base, 0, changed, 0, [])
  {
  }

  /** The diff is exact: it fails just when a base word is lost, and otherwise rebuilds the changed words. */
  lemma DiffIsExact(base: seq<Word>, changed: seq<Word>)
    ensures Greedy(base, 0, changed, 0).Some? <==> IsSubsequence(base, changed)
    ensures Greedy(base, 0, changed, 0).Some? ==>
      var insertions := Greedy(base, 0, changed, 0).value;
      Strict(insertions, 0, |base|) && Forward(insertions, |base|) && Woven(base, insertions) == changed
  {
    hide Greedy, Accounts, Woven;
    if at :| Embeds(base, 0, changed, 0, at) {
      GreedyFindsAll(base, 0, changed, 0, at);
    }
    if Greedy(base, 0, changed, 0).Some? {
      var at := GreedyEmbeds(base, 0, changed, 0);
      GreedyIsStrict(base, 0, changed, 0);
      NothingAccounts(base, changed);
      GreedyAccounts(base, 0, changed, 0, []);
      var insertions := Greedy(base, 0, changed, 0).value;
      assert [] + insertions == insertions;
      AccountsForAll(base, changed, insertions);
    }
  }

  lemma AccountsForAll(base: seq<Word>, changed: seq<Word>, insertions: seq<Insertion>)
    requires Accounts(base, |base|, changed, |changed|, insertions)
    ensures Forward(insertions, |base|) && Woven(base, insertions) == changed
  {
    assert changed[..|changed|] == changed;
    assert base[Reached(insertions, |insertions|)..|base|] == base[Reached(insertions, |insertions|)..];
  }

  /** The added words, when every earlier word stays in order and few places change. */
  method InsertionOnlyWordChanges(base: seq<Word>, changed: seq<Word>) returns (insertions: Option<seq<Insertion>>)
    ensures insertions ==
      var full := Greedy(base, 0, changed, 0);
      if full.Some? && |full.value| <= 8 then full else None
  {
    hide Greedy;
    var found: seq<Insertion> := [];
    var i, j := 0, 0;
    GreedyRest([], base, 0, changed, 0);
    while i < |base|
      invariant i <= |base| && j <= |changed| && |found| <= MAX_WORD_INSERTIONS
      invariant Greedy(base, 0, changed, 0) == Resume(found, base, i, changed, j)
      decreases |base| - i, |changed| - j
    {
      if j < |changed| && changed[j] == base[i] {
        GreedyStep(found, base, i, changed, j, j);
        i, j := i + 1, j + 1;
        continue;
      }
      var start := j;
      while j < |changed| && changed[j] != base[i]
        invariant start <= j <= |changed|
        invariant forall n :: start <= n < j ==> changed[n] != base[i]
      {
        j := j + 1;
      }
      GreedyStep(found, base, i, changed, start, j);
      if j == |changed| {
        return None;
      }
      found := found + [Insertion(i, changed[start..j])];
      if |found| > MAX_WORD_INSERTIONS {
        ResumeHolds(found, base, i + 1, changed, j + 1);
        return None;
      }
      i, j := i + 1, j + 1;
    }
    GreedyEnd(found, base, changed, j);
    if j < |changed| {
      found := found + [Insertion(|base|, changed[j..])];
      if |found| > MAX_WORD_INSERTIONS {
        return None;
      }
    }
    insertions := Some(found);
  }

  /** What the scan has found, followed by what it has still to find. */
  function Resume(found: seq<Insertion>, base: seq<Word>, i: nat, changed: seq<Word>, j: nat): Option<seq<Insertion>>
    requires i <= |base| && j <= |changed|
  {
    match Greedy(base, i, changed, j)
    case None => None
    case Some(rest) => Some(found + rest)
  }

  lemma GreedyRest(found: seq<Insertion>, base: seq<Word>, i: nat, changed: seq<Word>, j: nat)
    requires i <= |base| && j <= |changed| && found == []
    ensures Resume(found, base, i, changed, j) == Greedy(base, i, changed, j)
  {
    hide Greedy;
    if Greedy(base, i, changed, j).Some? {
      assert [] + Greedy(base, i, changed, j).value == Greedy(base, i, changed, j).value;
    }
  }

  lemma ResumeHolds(found: seq<Insertion>, base: seq<Word>, i: nat, changed: seq<Word>, j: nat)
    requires i <= |base| && j <= |changed|
    ensures Resume(found, base, i, changed, j).Some? ==> |Resume(found, base, i, changed, j).value| >= |found|
  {
    hide Greedy;
  }

  /** Reading on to the next occurrence of base word i. */
  lemma GreedyStep(found: seq<Insertion>, base: seq<Word>, i: nat, changed: seq<Word>, j: nat, k: nat)
    requires i < |base| && j <= k <= |changed|
    requires (forall n :: j <= n < k ==> changed[n] != base[i]) && (k < |changed| ==> changed[k] == base[i])
    ensures k == |changed| ==> Resume(found, base, i, changed, j) == None
    ensures k < |changed| ==>
      Resume(found, base, i, changed, j)
        == Resume(if j == k then found else found + [Insertion(i, changed[j..k])], base, i + 1, changed, k + 1)
  {
    assert NextAt(changed, j, base[i]) == k;
    if k < |changed| && Greedy(base, i + 1, changed, k + 1).Some? {
      Reassociate(found, Gap(i, changed[j..k]), Greedy(base, i + 1, changed, k + 1).value);
    }
    if k == j {
      assert found + [] == found;
    }
  }

  lemma GreedyEnd(found: seq<Insertion>, base: seq<Word>, changed: seq<Word>, j: nat)
    requires j <= |changed|
    ensures Resume(found, base, |base|, changed, j)
      == Some(if j == |changed| then found else found + [Insertion(|base|, changed[j..])])
  {
    assert found + [] == found;
  }

  // ---------------------------------------------------- the boundary elsewhere

  /** How many words in front of two boundaries agree, at most `limit`. */
  function AgreeBefore(base: seq<Word>, boundary: nat, target: seq<Word>, candidate: nat, limit: nat): (n: nat)
    requires boundary <= |base| && candidate <= |target|
    ensures n <= limit && n <= boundary && n <= candidate
    decreases limit
  {
    if limit == 0 || boundary == 0 || candidate == 0 || base[boundary - 1] != target[candidate - 1] then 0
    else 1 + AgreeBefore(base, boundary - 1, target, candidate - 1, limit - 1)
  }

  /** How many words behind two boundaries agree, at most `limit`. */
  function AgreeAfter(base: seq<Word>, boundary: nat, target: seq<Word>, candidate: nat, limit: nat): (n: nat)
    requires boundary <= |base| && candidate <= |target|
    ensures n <= limit && n <= |base| - boundary && n <= |target| - candidate
    decreases limit
  {
    if limit == 0 || boundary == |base| || candidate == |target| || base[boundary] != target[candidate] then 0
    else 1 + AgreeAfter(base, boundary + 1, target, candidate + 1, limit - 1)
  }

  function Score(base: seq<Word>, boundary: nat, target: seq<Word>, candidate: nat): nat
    requires boundary <= |base| && candidate <= |target|
  {
    AgreeBefore(base, boundary, target, candidate, WORD_CONTEXT_LIMIT)
    + AgreeAfter(base, boundary, target, candidate, WORD_CONTEXT_LIMIT)
  }

  method MatchingWordContext(base: seq<Word>, boundary: nat, target: seq<Word>, candidate: nat) returns (matched: nat)
    requires boundary <= |base| && candidate <= |target|
    ensures matched == Score(base, boundary, target, candidate)
  {
    var before := MatchingBefore(base, boundary, target, candidate);
    var after := MatchingAfter(base, boundary, target, candidate);
    matched := before + after;
  }

  method MatchingBefore(base: seq<Word>, boundary: nat, target: seq<Word>, candidate: nat) returns (matched: nat)
    requires boundary <= |base| && candidate <= |target|
    ensures matched == AgreeBefore(base, boundary, target, candidate, WORD_CONTEXT_LIMIT)
  {
    hide AgreeBefore;
    matched := 0;
    var offset := 1;
    while offset <= WORD_CONTEXT_LIMIT && boundary - offset >= 0 && candidate - offset >= 0
          && base[boundary - offset] == target[candidate - offset]
      invariant 1 <= offset <= WORD_CONTEXT_LIMIT + 1 && matched == offset - 1 <= boundary && matched <= candidate
      invariant AgreeBefore(base, boundary, target, candidate, WORD_CONTEXT_LIMIT)
        == matched + AgreeBefore(base, boundary - matched, target, candidate - matched, WORD_CONTEXT_LIMIT - matched)
    {
      AgreeBeforeStep(base, boundary - matched, target, candidate - matched, WORD_CONTEXT_LIMIT - matched);
      matched := matched + 1;
      offset := offset + 1;
    }
    AgreeBeforeStep(base, boundary - matched, target, candidate - matched, WORD_CONTEXT_LIMIT - matched);
  }

  method MatchingAfter(base: seq<Word>, boundary: nat, target: seq<Word>, candidate: nat) returns (matched: nat)
    requires boundary <= |base| && candidate <= |target|
    ensures matched == AgreeAfter(base, boundary, target, candidate, WORD_CONTEXT_LIMIT)
  {
    hide AgreeAfter;
    var offset := 0;
    while offset < WORD_CONTEXT_LIMIT && boundary + offset < |base| && candidate + offset < |target|
          && base[boundary + offset] == target[candidate + offset]
      invariant 0 <= offset <= WORD_CONTEXT_LIMIT && boundary + offset <= |base| && candidate + offset <= |target|
      invariant AgreeAfter(base, boundary, target, candidate, WORD_CONTEXT_LIMIT)
        == offset + AgreeAfter(base, boundary + offset, target, candidate + offset, WORD_CONTEXT_LIMIT - offset)
    {
      AgreeAfterStep(base, boundary + offset, target, candidate + offset, WORD_CONTEXT_LIMIT - offset);
      offset := offset + 1;
    }
    AgreeAfterStep(base, boundary + offset, target, candidate + offset, WORD_CONTEXT_LIMIT - offset);
    matched := offset;
  }

  lemma AgreeBeforeStep(base: seq<Word>, boundary: nat, target: seq<Word>, candidate: nat, limit: nat)
    requires boundary <= |base| && candidate <= |target|
    ensures AgreeBefore(base, boundary, target, candidate, limit) ==
      if limit == 0 || boundary == 0 || candidate == 0 || base[boundary - 1] != target[candidate - 1] then 0
      else 1 + AgreeBefore(base, boundary - 1, target, candidate - 1, limit - 1)
  {
  }

  lemma AgreeAfterStep(base: seq<Word>, boundary: nat, target: seq<Word>, candidate: nat, limit: nat)
    requires boundary <= |base| && candidate <= |target|
    ensures AgreeAfter(base, boundary, target, candidate, limit) ==
      if limit == 0 || boundary == |base| || candidate == |target| || base[boundary] != target[candidate] then 0
      else 1 + AgreeAfter(base, boundary + 1, target, candidate + 1, limit - 1)
  {
  }

  /** The agreement in front of two boundaries is the longest one within the limit. */
  lemma {:induction false} AgreeBeforeIs(base: seq<Word>, boundary: nat, target: seq<Word>, candidate: nat, limit: nat)
    requires boundary <= |base| && candidate <= |target|
    ensures var n := AgreeBefore(base, boundary, target, candidate, limit);
      && (forall i :: boundary - n <= i < boundary ==> base[i] == target[i - boundary + candidate])
      && (n == limit || n == boundary || n == candidate || base[boundary - n - 1] != target[candidate - n - 1])
    decreases limit
  {
    hide AgreeBefore;
    AgreeBeforeStep(base, boundary, target, candidate, limit);
    if limit > 0 && boundary > 0 && candidate > 0 && base[boundary - 1] == target[candidate - 1] {
      AgreeBeforeIs(base, boundary - 1, target, candidate - 1, limit - 1);
    }
  }

  lemma {:induction false} AgreeAfterIs(base: seq<Word>, boundary: nat, target: seq<Word>, candidate: nat, limit: nat)
    requires boundary <= |base| && candidate <= |target|
    ensures var n := AgreeAfter(base, boundary, target, candidate, limit);
      && (forall i :: boundary <= i < boundary + n ==> base[i] == target[i - boundary + candidate])
      && (n == limit || n == |base| - boundary || n == |target| - candidate || base[boundary + n] != target[candidate + n])
    decreases limit
  {
    hide AgreeAfter;
    AgreeAfterStep(base, boundary, target, candidate, limit);
    if limit > 0 && boundary < |base| && candidate < |target| && base[boundary] == target[candidate] {
      AgreeAfterIs(base, boundary + 1, target, candidate + 1, limit - 1);
    }
  }

  /** The score is how many words agree right in front and right behind, at most sixteen on either side. */
  lemma ScoreIs(base: seq<Word>, boundary: nat, target: seq<Word>, candidate: nat) returns (front: nat, back: nat)
    requires boundary <= |base| && candidate <= |target|
    ensures Score(base, boundary, target, candidate) == front + back
    ensures front <= 16 && front <= boundary && front <= candidate
    ensures back <= 16 && back <= |base| - boundary && back <= |target| - candidate
    ensures forall i :: boundary - front <= i < boundary + back ==> base[i] == target[i - boundary + candidate]
    ensures front == 16 || front == boundary || front == candidate || base[boundary - front - 1] != target[candidate - front - 1]
    ensures back == 16 || back == |base| - boundary || back == |target| - candidate || base[boundary + back] != target[candidate + back]
  {
    hide AgreeBefore, AgreeAfter;
    front := AgreeBefore(base, boundary, target, candidate, WORD_CONTEXT_LIMIT);
    back := AgreeAfter(base, boundary, target, candidate, WORD_CONTEXT_LIMIT);
    AgreeBeforeIs(base, boundary, target, candidate, WORD_CONTEXT_LIMIT);
    AgreeAfterIs(base, boundary, target, candidate, WORD_CONTEXT_LIMIT);
  }

  /** One boundary agrees better than every other, and well enough. */
  ghost predicate StandsOut(base: seq<Word>, boundary: nat, target: seq<Word>, candidate: nat)
    requires boundary <= |base|
  {
    && candidate <= |target|
    && Score(base, boundary, target, candidate) >= (if |base| < 3 then |base| else 3)
    && Score(base, boundary, target, candidate) > 0
    && forall other :: 0 <= other <= |target| && other != candidate ==>
         Score(base, boundary, target, other) < Score(base, boundary, target, candidate)
  }

  /** The one target boundary with the strongest nearby context. */
  method UniqueTargetBoundary(base: seq<Word>, boundary: nat, target: seq<Word>) returns (best: Option<nat>)
    requires boundary <= |base|
    ensures best.Some? ==> StandsOut(base, boundary, target, best.value)
    ensures best.None? ==> forall candidate: nat :: !StandsOut(base, boundary, target, candidate)
  {
    hide Score;
    var bestBoundary: Option<nat>, bestScore, tied := None, 0, false;
    var candidate := 0;
    while candidate <= |target|
      invariant 0 <= candidate <= |target| + 1
      invariant bestBoundary.None? ==> bestScore == 0 && !tied
      invariant bestBoundary.Some? ==>
        bestBoundary.value < candidate && bestScore == Score(base, boundary, target, bestBoundary.value) && bestScore > 0
      invariant forall c :: 0 <= c < candidate ==> Score(base, boundary, target, c) <= bestScore
      invariant tied <==> bestScore > 0 && exists c :: 0 <= c < candidate && Some(c) != bestBoundary && Score(base, boundary, target, c) == bestScore
    {
      var score := MatchingWordContext(base, boundary, target, candidate);
      if score > bestScore {
        bestBoundary, bestScore, tied := Some(candidate), score, false;
      } else if score == bestScore && score > 0 {
        tied := true;
      }
      candidate := candidate + 1;
    }
    var required := if |base| < 3 then |base| else 3;
    if tied || bestBoundary.None? || bestScore < required {
      if tied {
        var c: nat :| c <= |target| && Some(c) != bestBoundary && Score(base, boundary, target, c) == bestScore;
        TieStandsOutNowhere(base, boundary, target, bestBoundary.value, c);
      }
      return None;
    }
    best := bestBoundary;
  }

  lemma TieStandsOutNowhere(base: seq<Word>, boundary: nat, target: seq<Word>, a: nat, b: nat)
    requires boundary <= |base| && a <= |target| && b <= |target| && a != b
    requires Score(base, boundary, target, a) == Score(base, boundary, target, b)
    requires forall c :: 0 <= c <= |target| ==> Score(base, boundary, target, c) <= Score(base, boundary, target, a)
    ensures forall candidate: nat :: !StandsOut(base, boundary, target, candidate)
  {
    hide Score;
    forall candidate: nat ensures !StandsOut(base, boundary, target, candidate) {
      var other := if candidate == a then b else a;
      if candidate <= |target| {
        assert Score(base, boundary, target, candidate) <= Score(base, boundary, target, other);
      }
    }
  }

  lemma {:induction false} OwnContextBefore(base: seq<Word>, boundary: nat, limit: nat)
    requires boundary <= |base|
    ensures AgreeBefore(base, boundary, base, boundary, limit) == if limit < boundary then limit else boundary
    decreases limit
  {
    if limit > 0 && boundary > 0 {
      OwnContextBefore(base, boundary - 1, limit - 1);
    }
  }

  lemma {:induction false} OwnContextAfter(base: seq<Word>, boundary: nat, limit: nat)
    requires boundary <= |base|
    ensures AgreeAfter(base, boundary, base, boundary, limit) == if limit < |base| - boundary then limit else |base| - boundary
    decreases limit
  {
    if limit > 0 && boundary < |base| {
      OwnContextAfter(base, boundary + 1, limit - 1);
    }
  }

  /** Carried into the text it came from, a boundary stays where it is or is refused. */
  lemma OwnBoundaryStays(base: seq<Word>, boundary: nat, candidate: nat)
    requires boundary <= |base| && StandsOut(base, boundary, base, candidate)
    ensures candidate == boundary
  {
    OwnContextBefore(base, boundary, WORD_CONTEXT_LIMIT);
    OwnContextAfter(base, boundary, WORD_CONTEXT_LIMIT);
    assert Score(base, boundary, base, candidate) <= Score(base, boundary, base, boundary);
  }
}
