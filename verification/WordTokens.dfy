/** Words of a byte string: maximal stretches without white space (batch/applied_text_replay.py:103-108). */
module WordTokens {
  import opened Bytes

  const SPACE: Byte := 32

  /** Space, tab, line feed, vertical tab, form feed and carriage return. */
  predicate IsSpace(b: Byte) {
    b == 32 || 9 <= b <= 13
  }

  /** White space is what separates words for the program's pattern: six characters. */
  lemma SpaceCharacters(b: Byte)
    ensures IsSpace(b) <==> b as char in {' ', '\t', '\n', '\r', 11 as char, 12 as char}
  {
  }

  datatype Word = Word(bytes: seq<Byte>)
  {
    /** Something that tokenizing can produce. */
    predicate Proper() {
      bytes != [] && forall i :: 0 <= i < |bytes| ==> !IsSpace(bytes[i])
    }
  }

  datatype Token = Token(value: Word, start: nat, end: nat)

  /** The tokens closed so far, and where the text that is not closed yet begins. */
  datatype Scanner = Scanner(tokens: seq<Token>, start: nat)

  function Close(content: seq<Byte>, scanner: Scanner, n: nat): seq<Token>
    requires scanner.start <= n <= |content|
  {
    if scanner.start < n then scanner.tokens + [Token(Word(content[scanner.start..n]), scanner.start, n)] else scanner.tokens
  }

  /** The state of the scan after n bytes. */
  function Scan(content: seq<Byte>, n: nat): (scanner: Scanner)
    requires n <= |content|
    ensures scanner.start <= n
  {
    if n == 0 then Scanner([], 0)
    else
      var before := Scan(content, n - 1);
      if IsSpace(content[n - 1]) then Scanner(Close(content, before, n - 1), n) else before
  }

  function Tokens(content: seq<Byte>): seq<Token> {
    Close(content, Scan(content, |content|), |content|)
  }

  function Values(tokens: seq<Token>): (words: seq<Word>)
    ensures |words| == |tokens|
    ensures forall i :: 0 <= i < |words| ==> words[i] == tokens[i].value
  {
    seq(|tokens|, i requires 0 <= i < |tokens| => tokens[i].value)
  }

  function Words(content: seq<Byte>): (words: seq<Word>)
    ensures |words| == |Tokens(content)|
  {
    Values(Tokens(content))
  }

  // ------------------------------------------------------------ what tokens are

  /** A maximal stretch without white space. */
  ghost predicate IsToken(content: seq<Byte>, token: Token) {
    && token.start < token.end <= |content|
    && token.value == Word(content[token.start..token.end])
    && (forall k :: token.start <= k < token.end ==> !IsSpace(content[k]))
    && (token.start > 0 ==> IsSpace(content[token.start - 1]))
    && (token.end < |content| ==> IsSpace(content[token.end]))
  }

  ghost predicate InSome(tokens: seq<Token>, k: nat) {
    exists i :: 0 <= i < |tokens| && tokens[i].start <= k < tokens[i].end
  }

  /** The tokens of the first n bytes: in order, apart, and around every byte that is not white space. */
  ghost predicate TokensTo(content: seq<Byte>, tokens: seq<Token>, n: nat)
    requires n <= |content|
  {
    && (forall i :: 0 <= i < |tokens| ==> IsToken(content, tokens[i]) && tokens[i].end <= n)
    && (forall i, j :: 0 <= i < j < |tokens| ==> tokens[i].end < tokens[j].start)
    && (forall k :: 0 <= k < n && !IsSpace(content[k]) ==> InSome(tokens, k))
  }

  lemma {:induction false} ScanIs(content: seq<Byte>, n: nat)
    requires n <= |content|
    ensures var scanner := Scan(content, n);
      && TokensTo(content, scanner.tokens, scanner.start)
      && (forall i :: 0 <= i < |scanner.tokens| ==> scanner.tokens[i].end < scanner.start)
      && (forall k :: scanner.start <= k < n ==> !IsSpace(content[k]))
      && (scanner.start > 0 ==> IsSpace(content[scanner.start - 1]))
  {
    hide TokensTo;
    if n == 0 {
      assert TokensTo(content, [], 0) by { NoTokens(content); }
    } else {
      ScanIs(content, n - 1);
      var before := Scan(content, n - 1);
      if IsSpace(content[n - 1]) {
        CloseIs(content, before, n - 1);
        SpaceFollows(content, Close(content, before, n - 1), n - 1);
      }
    }
  }

  lemma NoTokens(content: seq<Byte>)
    ensures TokensTo(content, [], 0)
  {
  }

  lemma SpaceFollows(content: seq<Byte>, tokens: seq<Token>, n: nat)
    requires n < |content| && TokensTo(content, tokens, n) && IsSpace(content[n])
    ensures TokensTo(content, tokens, n + 1)
    ensures forall i :: 0 <= i < |tokens| ==> tokens[i].end < n + 1
  {
    hide IsToken, InSome;
  }

  lemma CloseIs(content: seq<Byte>, scanner: Scanner, n: nat)
    requires scanner.start <= n <= |content| && (n < |content| ==> IsSpace(content[n]))
    requires TokensTo(content, scanner.tokens, scanner.start)
    requires forall i :: 0 <= i < |scanner.tokens| ==> scanner.tokens[i].end < scanner.start
    requires forall k :: scanner.start <= k < n ==> !IsSpace(content[k])
    requires scanner.start > 0 ==> IsSpace(content[scanner.start - 1])
    ensures TokensTo(content, Close(content, scanner, n), n)
  {
    if scanner.start < n {
      var last := Token(Word(content[scanner.start..n]), scanner.start, n);
      var tokens := scanner.tokens + [last];
      assert IsToken(content, last);
      hide IsToken;
      forall k | 0 <= k < n && !IsSpace(content[k]) ensures InSome(tokens, k) {
        if k < scanner.start {
          var i :| 0 <= i < |scanner.tokens| && scanner.tokens[i].start <= k < scanner.tokens[i].end;
          assert tokens[i] == scanner.tokens[i];
        } else {
          assert tokens[|scanner.tokens|] == last;
        }
      }
    }
  }

  /** Tokens are exactly the maximal stretches without white space, in order. */
  lemma TokensAre(content: seq<Byte>)
    ensures TokensTo(content, Tokens(content), |content|)
    ensures forall i :: 0 <= i < |Words(content)| ==> Words(content)[i].Proper()
  {
    ScanIs(content, |content|);
    CloseIs(content, Scan(content, |content|), |content|);
    forall i | 0 <= i < |Words(content)| ensures Words(content)[i].Proper() {
      assert IsToken(content, Tokens(content)[i]);
    }
  }

  // ------------------------------------------------------- cutting at a token

  lemma {:induction false} TokenOpens(content: seq<Byte>, n: nat, i: nat)
    requires n <= |content| && i < |Scan(content, n).tokens|
    ensures var token := Scan(content, n).tokens[i];
      token.start < n && Scan(content, token.start) == Scanner(Scan(content, n).tokens[..i], token.start)
  {
    var before := Scan(content, n - 1);
    if i < |before.tokens| {
      TokenOpens(content, n - 1, i);
      assert Scan(content, n).tokens[..i] == before.tokens[..i];
    } else {
      StartIsClean(content, n - 1);
      assert Scan(content, n).tokens[..i] == before.tokens;
    }
  }

  /** When the open text began, the scanner stood there with the same tokens. */
  lemma {:induction false} StartIsClean(content: seq<Byte>, n: nat)
    requires n <= |content|
    ensures Scan(content, Scan(content, n).start) == Scan(content, n)
  {
    if n > 0 && !IsSpace(content[n - 1]) {
      StartIsClean(content, n - 1);
    }
  }

  /** The scan stands between words at position p. */
  predicate Between(content: seq<Byte>, p: nat)
    requires p <= |content|
  {
    Scan(content, p).start == p
  }

  lemma BetweenMeans(content: seq<Byte>, p: nat)
    requires p <= |content|
    ensures Between(content, p) <==> (p == 0 || IsSpace(content[p - 1]))
  {
  }

  lemma {:induction false} ScanOfPrefix(content: seq<Byte>, p: nat, n: nat)
    requires n <= p <= |content|
    ensures Scan(content[..p], n) == Scan(content, n)
  {
    if n > 0 {
      ScanOfPrefix(content, p, n - 1);
      var start := Scan(content, n - 1).start;
      assert content[..p][start..n - 1] == content[start..n - 1];
    }
  }

  lemma TokenStart(content: seq<Byte>, i: nat)
    requires i < |Tokens(content)|
    ensures var p := Tokens(content)[i].start;
      p < |content| && !IsSpace(content[p]) && Scan(content, p) == Scanner(Tokens(content)[..i], p)
  {
    TokensAre(content);
    assert IsToken(content, Tokens(content)[i]);
    hide TokensTo, IsToken;
    var scanner := Scan(content, |content|);
    if i < |scanner.tokens| {
      TokenOpens(content, |content|, i);
      assert Tokens(content)[..i] == scanner.tokens[..i];
    } else {
      StartIsClean(content, |content|);
      assert Tokens(content)[..i] == scanner.tokens;
    }
  }

  /** Text before a token's start holds the words before it, text from there on the others. */
  lemma CutAtToken(content: seq<Byte>, i: nat)
    requires i < |Tokens(content)|
    ensures var p := Tokens(content)[i].start;
      && p < |content| && Between(content, p) && !IsSpace(content[p])
      && Words(content[..p]) == Words(content)[..i] && Words(content[p..]) == Words(content)[i..]
  {
    TokenStart(content, i);
    var p := Tokens(content)[i].start;
    ScanOfPrefix(content, p, p);
    hide Scan;
    var front, back := content[..p], content[p..];
    assert Words(front) == Words(content)[..i];
    assert front + back == content;
    WordsJoin(front, back);
  }

  // --------------------------------------------------------------- concatenation

  lemma ValuesAppend(a: seq<Token>, b: seq<Token>)
    ensures Values(a + b) == Values(a) + Values(b)
  {
  }

  /** The scan of a + b after |a| + m bytes has the words of a, and then those of b so far. */
  ghost predicate InStep(a: seq<Byte>, b: seq<Byte>, m: nat)
    requires m <= |b|
  {
    && Scan(a + b, |a| + m).start == |a| + Scan(b, m).start
    && Values(Scan(a + b, |a| + m).tokens) == Words(a) + Values(Scan(b, m).tokens)
  }

  lemma StepsStart(a: seq<Byte>, b: seq<Byte>)
    requires Between(a, |a|)
    ensures InStep(a, b, 0)
  {
    assert (a + b)[..|a|] == a;
    ScanOfPrefix(a + b, |a|, |a|);
    assert Words(a) + Values([]) == Words(a);
  }

  lemma StepsStartAtSpace(a: seq<Byte>, b: seq<Byte>)
    requires b != [] && IsSpace(b[0])
    ensures InStep(a, b, 1)
  {
    var all := a + b;
    assert all[..|a|] == a;
    ScanOfPrefix(all, |a|, |a|);
    var before := Scan(all, |a|);
    assert all[before.start..|a|] == a[before.start..|a|];
    assert Close(all, before, |a|) == Tokens(a);
    assert Scan(b, 0) == Scanner([], 0);
    assert Words(a) + Values([]) == Words(a);
  }

  lemma StepFurther(a: seq<Byte>, b: seq<Byte>, m: nat)
    requires 0 < m <= |b| && InStep(a, b, m - 1)
    ensures InStep(a, b, m)
  {
    var all := a + b;
    var before, alone := Scan(all, |a| + m - 1), Scan(b, m - 1);
    assert all[|a| + m - 1] == b[m - 1];
    if IsSpace(b[m - 1]) && alone.start < m - 1 {
      var here, there := Token(Word(all[before.start..|a| + m - 1]), before.start, |a| + m - 1), Token(Word(b[alone.start..m - 1]), alone.start, m - 1);
      assert all[before.start..|a| + m - 1] == b[alone.start..m - 1];
      ValuesAppend(before.tokens, [here]);
      ValuesAppend(alone.tokens, [there]);
      assert Values([here]) == Values([there]);
    }
  }

  /** Once between words, the scan of the rest does not depend on what came before. */
  lemma {:induction false} ScanGoesOn(a: seq<Byte>, b: seq<Byte>, m: nat)
    requires m <= |b|
    requires Between(a, |a|) || (m > 0 && IsSpace(b[0]))
    ensures InStep(a, b, m)
  {
    hide InStep;
    if m == 0 {
      StepsStart(a, b);
    } else if m == 1 && IsSpace(b[0]) {
      StepsStartAtSpace(a, b);
    } else {
      ScanGoesOn(a, b, m - 1);
      StepFurther(a, b, m);
    }
  }

  /** Two texts that meet at white space, or at an edge, have their words side by side. */
  lemma WordsJoin(a: seq<Byte>, b: seq<Byte>)
    requires Between(a, |a|) || b == [] || IsSpace(b[0])
    ensures Words(a + b) == Words(a) + Words(b)
  {
    var all := a + b;
    if b == [] {
      assert all == a;
      assert Words(b) == [];
    } else {
      ScanGoesOn(a, b, |b|);
      var here, there := Scan(all, |all|), Scan(b, |b|);
      SameTail(all, here, b, there, |a|);
    }
  }

  lemma SameTail(all: seq<Byte>, here: Scanner, b: seq<Byte>, there: Scanner, offset: nat)
    requires |all| == offset + |b| && all[offset..] == b
    requires there.start <= |b| && here.start == offset + there.start
    ensures forall words :: Values(here.tokens) == words + Values(there.tokens) ==>
      Values(Close(all, here, |all|)) == words + Values(Close(b, there, |b|))
  {
    if there.start < |b| {
      var mine, its := Token(Word(all[here.start..]), here.start, |all|), Token(Word(b[there.start..]), there.start, |b|);
      assert all[here.start..] == all[offset..][there.start..];
      assert all[here.start..|all|] == all[here.start..] && b[there.start..|b|] == b[there.start..];
      ValuesAppend(here.tokens, [mine]);
      ValuesAppend(there.tokens, [its]);
      assert Values([mine]) == [mine.value] && Values([its]) == [its.value];
    }
  }

  function CountTo(content: seq<Byte>, n: nat): nat
    requires n <= |content|
  {
    |Close(content, Scan(content, n), n)|
  }

  lemma CountStep(content: seq<Byte>, n: nat)
    requires n < |content|
    ensures if IsSpace(content[n]) then CountTo(content, n + 1) == CountTo(content, n) && Scan(content, n + 1).start == n + 1
            else
              && CountTo(content, n + 1) == CountTo(content, n) + (if Scan(content, n).start == n then 1 else 0)
              && Scan(content, n + 1).start == Scan(content, n).start
  {
  }

  lemma {:induction false} FusedCount(a: seq<Byte>, b: seq<Byte>, m: nat)
    requires a != [] && !IsSpace(a[|a| - 1]) && 0 < m <= |b| && !IsSpace(b[0])
    ensures CountTo(a + b, |a| + m) == CountTo(a, |a|) + CountTo(b, m) - 1
    ensures Scan(a + b, |a| + m).start < |a| + m <==> Scan(b, m).start < m
  {
    hide Scan, CountTo, IsSpace;
    var all := a + b;
    assert all[|a| + m - 1] == b[m - 1];
    CountStep(all, |a| + m - 1);
    CountStep(b, m - 1);
    if m == 1 {
      FusedStart(a, b);
    } else {
      FusedCount(a, b, m - 1);
    }
  }

  lemma FusedStart(a: seq<Byte>, b: seq<Byte>)
    requires a != [] && !IsSpace(a[|a| - 1])
    ensures CountTo(a + b, |a|) == CountTo(a, |a|) && Scan(a + b, |a|).start < |a|
    ensures Scan(b, 0).start == 0 && CountTo(b, 0) == 0
  {
    var all := a + b;
    assert all[..|a|] == a;
    ScanOfPrefix(all, |a|, |a|);
    assert Scan(b, 0) == Scanner([], 0);
    CountStep(a, |a| - 1);
  }

  /** Two texts that meet inside a word lose one word. */
  lemma WordsFuse(a: seq<Byte>, b: seq<Byte>)
    requires a != [] && b != [] && !IsSpace(a[|a| - 1]) && !IsSpace(b[0])
    ensures |Words(a + b)| == |Words(a)| + |Words(b)| - 1
  {
    hide Scan, Close, Tokens;
    FusedCount(a, b, |b|);
    CountOfWords(a);
    CountOfWords(b);
    CountOfWords(a + b);
    hide CountTo, Words;
  }

  lemma CountOfWords(content: seq<Byte>)
    ensures |Words(content)| == CountTo(content, |content|)
  {
    hide Scan, Close;
  }

  // ------------------------------------------------------------------- joining

  /** The words separated by single spaces. */
  function Join(words: seq<Word>): seq<Byte> {
    if words == [] then []
    else if |words| == 1 then words[0].bytes
    else Join(words[..|words| - 1]) + [SPACE] + words[|words| - 1].bytes
  }

  /** One space between any two neighbours, none around, and every word as it is. */
  lemma {:induction false} JoinSplits(a: seq<Word>, b: seq<Word>)
    requires a != [] && b != []
    ensures Join(a + b) == Join(a) + [' ' as int] + Join(b)
    ensures |b| == 1 ==> Join(b) == b[0].bytes
    decreases |b|
  {
    var init := (a + b)[..|a + b| - 1];
    if |b| == 1 {
      assert init == a;
    } else {
      assert init == a + b[..|b| - 1];
      JoinSplits(a, b[..|b| - 1]);
    }
  }

  lemma {:induction false} OneWordScan(word: Word, n: nat)
    requires word.Proper() && n <= |word.bytes|
    ensures Scan(word.bytes, n) == Scanner([], 0)
  {
    if n > 0 {
      OneWordScan(word, n - 1);
    }
  }

  lemma OneWord(word: Word)
    requires word.Proper()
    ensures Words(word.bytes) == [word]
  {
    OneWordScan(word, |word.bytes|);
    assert word.bytes[0..|word.bytes|] == word.bytes;
    assert Tokens(word.bytes) == [Token(word, 0, |word.bytes|)];
  }

  /** Tokenizing joined words gives the words back, and the text starts and ends inside a word. */
  lemma {:induction false} JoinedWords(words: seq<Word>)
    requires words != [] && forall i :: 0 <= i < |words| ==> words[i].Proper()
    ensures Words(Join(words)) == words
    ensures Join(words) != [] && !IsSpace(Join(words)[0]) && !IsSpace(Join(words)[|Join(words)| - 1])
  {
    if |words| == 1 {
      OneWord(words[0]);
    } else {
      var init, last := words[..|words| - 1], words[|words| - 1];
      JoinedWords(init);
      OneWord(last);
      SpaceHasNoWords();
      WordsJoin(Join(init), [SPACE]);
      var spaced := Join(init) + [SPACE];
      assert Between(spaced, |spaced|);
      WordsJoin(spaced, last.bytes);
      assert words == init + [last];
    }
  }

  lemma SpaceHasNoWords()
    ensures Words([SPACE]) == []
  {
    assert Scan([SPACE], 0) == Scanner([], 0);
  }
}
