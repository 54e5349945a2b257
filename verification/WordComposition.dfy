/** Carrying added words across a rewrite of the same text (batch/applied_text_replay.py:90-100, 285-359). */
module WordComposition {
  import opened Wrappers
  import opened Tags
  import opened Bytes
  import opened WordTokens
  import opened WordInsertions

  const MAX_WORD_COMPOSITION_BYTES := 256 * 1024

  function Joined(chunks: seq<Chunk>): seq<Byte> {
    if chunks == [] then [] else Joined(chunks[..|chunks| - 1]) + chunks[|chunks| - 1].bytes
  }

  lemma {:induction false} JoinedGrows(chunks: seq<Chunk>, count: nat)
    requires count <= |chunks|
    ensures |Joined(chunks[..count])| <= |Joined(chunks)|
    decreases |chunks|
  {
    if count == |chunks| {
      assert chunks[..count] == chunks;
    } else {
      JoinedGrows(chunks[..|chunks| - 1], count);
      assert chunks[..|chunks| - 1][..count] == chunks[..count];
    }
  }

  /** The joined text, unless it is too large. */
  method BoundedContent(chunks: seq<Chunk>) returns (content: Option<seq<Byte>>)
    ensures content == if |Joined(chunks)| > 262144 then None else Some(Joined(chunks))
  {
    var joined: seq<Byte>, count := [], 0;
    var i := 0;
    while i < |chunks|
      invariant 0 <= i <= |chunks| && joined == Joined(chunks[..i]) && count == |joined| <= MAX_WORD_COMPOSITION_BYTES
    {
      assert chunks[..i + 1][..i] == chunks[..i];
      count := count + |chunks[i].bytes|;
      if count > MAX_WORD_COMPOSITION_BYTES {
        JoinedGrows(chunks, i + 1);
        return None;
      }
      joined := joined + chunks[i].bytes;
      i := i + 1;
    }
    assert chunks[..i] == chunks;
    content := Some(joined);
  }

  // -------------------------------------------------------------- the splicing

  datatype Edit = Edit(position: nat, text: seq<Byte>)

  /** Where a word boundary lies in the text: at the start of its word, or at the end. */
  function PositionOf(content: seq<Byte>, boundary: nat): (position: nat)
    requires boundary <= |Tokens(content)|
  {
    if boundary == |Tokens(content)| then |content| else Tokens(content)[boundary].start
  }

  /** The inserted words, set apart from neighbours that are not white space. */
  function Padded(content: seq<Byte>, position: nat, words: seq<Word>): seq<Byte>
    requires position <= |content|
  {
    (if position == 0 || IsSpace(content[position - 1]) then [] else [SPACE])
    + Join(words)
    + (if position == |content| || IsSpace(content[position]) then [] else [SPACE])
  }

  lemma PositionInside(content: seq<Byte>, boundary: nat)
    requires boundary <= |Tokens(content)|
    ensures PositionOf(content, boundary) <= |content|
    ensures PositionOf(content, boundary) == |content| <==> boundary == |Tokens(content)|
  {
    if boundary < |Tokens(content)| {
      CutAtToken(content, boundary);
    }
  }

  lemma PositionsOrdered(content: seq<Byte>, a: nat, b: nat)
    requires a <= |Tokens(content)| && b <= |Tokens(content)|
    ensures PositionOf(content, a) <= PositionOf(content, b) <==> a <= b
  {
    TokensAre(content);
    if a < |Tokens(content)| {
      assert IsToken(content, Tokens(content)[a]);
    }
    if b < |Tokens(content)| {
      assert IsToken(content, Tokens(content)[b]);
    }
  }

  function EditOf(content: seq<Byte>, insertion: Insertion): Edit
    requires insertion.boundary <= |Tokens(content)|
  {
    PositionInside(content, insertion.boundary);
    var position := PositionOf(content, insertion.boundary);
    Edit(position, Padded(content, position, insertion.words))
  }

  /** Insertions at boundaries that do not go back, each with some words that tokenizing can produce. */
  ghost predicate Placeable(content: seq<Byte>, placed: seq<Insertion>) {
    && Forward(placed, |Tokens(content)|)
    && forall n :: 0 <= n < |placed| ==> placed[n].words != [] && forall i :: 0 <= i < |placed[n].words| ==> placed[n].words[i].Proper()
  }

  /** How far the text has been copied once `count` insertions are in. */
  function CursorAt(content: seq<Byte>, placed: seq<Insertion>, count: nat): nat
    requires Forward(placed, |Tokens(content)|) && count <= |placed|
  {
    if count == 0 then 0 else PositionOf(content, placed[count - 1].boundary)
  }

  lemma CursorMoves(content: seq<Byte>, placed: seq<Insertion>, count: nat)
    requires Forward(placed, |Tokens(content)|) && count <= |placed|
    ensures CursorAt(content, placed, count) <= |content|
    ensures count > 0 ==> CursorAt(content, placed, count - 1) <= CursorAt(content, placed, count)
  {
    if count > 0 {
      PositionInside(content, placed[count - 1].boundary);
    }
    if count > 1 {
      PositionsOrdered(content, placed[count - 2].boundary, placed[count - 1].boundary);
    }
  }

  /** The text up to and with the first `count` insertions. */
  ghost function TextTo(content: seq<Byte>, placed: seq<Insertion>, count: nat): seq<Byte>
    requires Forward(placed, |Tokens(content)|) && count <= |placed|
  {
    if count == 0 then []
    else
      CursorMoves(content, placed, count);
      TextTo(content, placed, count - 1)
        + content[CursorAt(content, placed, count - 1)..CursorAt(content, placed, count)]
        + EditOf(content, placed[count - 1]).text
  }

  /** The whole text with every insertion in place. */
  ghost function Composed(content: seq<Byte>, placed: seq<Insertion>): seq<Byte>
    requires Forward(placed, |Tokens(content)|)
  {
    CursorMoves(content, placed, |placed|);
    TextTo(content, placed, |placed|) + content[CursorAt(content, placed, |placed|)..]
  }

  // --------------------------------------------------------- no byte is lost

  ghost function TaggedTo(content: seq<Byte>, placed: seq<Insertion>, count: nat): seq<Tagged<Byte>>
    requires Forward(placed, |Tokens(content)|) && count <= |placed|
  {
    if count == 0 then []
    else
      CursorMoves(content, placed, count);
      TaggedTo(content, placed, count - 1)
        + Tag(content[CursorAt(content, placed, count - 1)..CursorAt(content, placed, count)], false)
        + Tag(EditOf(content, placed[count - 1]).text, true)
  }

  lemma TaggedNext(content: seq<Byte>, placed: seq<Insertion>, count: nat)
    requires Forward(placed, |Tokens(content)|) && 0 < count <= |placed|
    ensures var from, upto := CursorAt(content, placed, count - 1), CursorAt(content, placed, count);
      && from <= upto <= |content|
      && var copied, added := content[from..upto], EditOf(content, placed[count - 1]).text;
        && TaggedTo(content, placed, count) == TaggedTo(content, placed, count - 1) + Tag(copied, false) + Tag(added, true)
        && TextTo(content, placed, count) == TextTo(content, placed, count - 1) + copied + added
  {
    CursorMoves(content, placed, count);
  }

  lemma {:induction false} TaggedIs(content: seq<Byte>, placed: seq<Insertion>, count: nat)
    requires Forward(placed, |Tokens(content)|) && count <= |placed|
    ensures Untag(TaggedTo(content, placed, count)) == TextTo(content, placed, count)
    ensures CursorAt(content, placed, count) <= |content|
    ensures Originals(TaggedTo(content, placed, count)) == content[..CursorAt(content, placed, count)]
  {
    if count == 0 {
      hide EditOf, Originals, Tokens;
      CursorStarts(content, placed);
      TagNothing<Byte>();
    } else {
      hide EditOf, Originals, Untag, Tag, CursorAt, Tokens, TaggedTo, TextTo;
      CursorMoves(content, placed, count);
      TaggedIs(content, placed, count - 1);
      TaggedNext(content, placed, count);
      var from, upto := CursorAt(content, placed, count - 1), CursorAt(content, placed, count);
      TaggedGrows(TaggedTo(content, placed, count - 1), content[from..upto], EditOf(content, placed[count - 1]).text);
      assert content[..upto] == content[..from] + content[from..upto];
    }
  }

  lemma TaggedGrows(before: seq<Tagged<Byte>>, copied: seq<Byte>, added: seq<Byte>)
    ensures var tagged := before + Tag(copied, false) + Tag(added, true);
      Untag(tagged) == Untag(before) + copied + added && Originals(tagged) == Originals(before) + copied
  {
    hide Untag, Tag, Originals;
    OriginalsAppend(before, Tag(copied, false));
    OriginalsAppend(before + Tag(copied, false), Tag(added, true));
    OriginalsOfTag(copied, false);
    OriginalsOfTag(added, true);
    UntagAppend(before, Tag(copied, false));
    UntagAppend(before + Tag(copied, false), Tag(added, true));
    UntagTag(copied, false);
    UntagTag(added, true);
    assert Originals(before) + copied + [] == Originals(before) + copied;
  }

  lemma CursorStarts(content: seq<Byte>, placed: seq<Insertion>)
    requires Forward(placed, |Tokens(content)|)
    ensures CursorAt(content, placed, 0) == 0
  {
  }

  /** Composing only adds bytes: without them the text is there unchanged, in order. */
  lemma CompositionKeepsBytes(content: seq<Byte>, placed: seq<Insertion>) returns (tagged: seq<Tagged<Byte>>)
    requires Forward(placed, |Tokens(content)|)
    ensures Untag(tagged) == Composed(content, placed) && Originals(tagged) == content
  {
    hide TextTo, TaggedTo, CursorAt, Tokens, Untag, Tag, Originals, Forward;
    TaggedIs(content, placed, |placed|);
    var from := CursorAt(content, placed, |placed|);
    tagged := TaggedTo(content, placed, |placed|) + Tag(content[from..], false);
    UntagAppend(TaggedTo(content, placed, |placed|), Tag(content[from..], false));
    UntagTag(content[from..], false);
    OriginalsAppend(TaggedTo(content, placed, |placed|), Tag(content[from..], false));
    OriginalsOfTag(content[from..], false);
    assert content[..from] + content[from..] == content;
  }

  // -------------------------------------------------- what the composed words are

  lemma WordsBefore(content: seq<Byte>, boundary: nat)
    requires boundary <= |Tokens(content)|
    ensures PositionOf(content, boundary) <= |content|
    ensures Words(content[..PositionOf(content, boundary)]) == Words(content)[..boundary]
  {
    hide Tokens;
    if boundary < |Tokens(content)| {
      CutAtToken(content, boundary);
    } else {
      assert content[..|content|] == content;
    }
  }

  /** The words between two cursors. */
  lemma WordsBetween(content: seq<Byte>, from: nat, boundary: nat)
    requires from <= boundary <= |Tokens(content)|
    requires from < |Tokens(content)| || boundary == from
    ensures PositionOf(content, from) <= PositionOf(content, boundary) <= |content|
    ensures Words(content[PositionOf(content, from)..PositionOf(content, boundary)]) == Words(content)[from..boundary]
  {
    var a, b := PositionOf(content, from), PositionOf(content, boundary);
    PositionsOrdered(content, from, boundary);
    PositionInside(content, boundary);
    if from == boundary {
      assert content[a..b] == [];
      NoWords();
    } else {
      CutAtToken(content, from);
      WordsBefore(content, boundary);
      hide Words, PositionOf, Tokens;
      var front := content[..a];
      assert content[..b] == front + content[a..b];
      BetweenPrefix(content, a);
      WordsJoin(front, content[a..b]);
      assert Words(content)[..boundary] == Words(content)[..from] + Words(content)[from..boundary];
    }
  }

  lemma NoWords()
    ensures Words([]) == []
  {
  }

  lemma BetweenPrefix(content: seq<Byte>, p: nat)
    requires p <= |content| && Between(content, p)
    ensures Between(content[..p], |content[..p]|)
  {
    BetweenMeans(content, p);
    BetweenMeans(content[..p], p);
  }

  /** Insertions that were put at the end, after text that leaves nothing to set them apart. */
  ghost predicate FusesAtEnd(content: seq<Byte>, placed: seq<Insertion>) {
    && Between(content, |content|)
    && exists m, n :: 0 <= m < n < |placed| && placed[m].boundary == |Tokens(content)| && placed[n].boundary == |Tokens(content)|
  }

  predicate AtEnd(content: seq<Byte>, placed: seq<Insertion>, count: nat)
    requires count <= |placed|
  {
    count > 0 && placed[count - 1].boundary == |Tokens(content)|
  }

  /** Among the first `count` insertions, some fused. */
  predicate FusedTo(content: seq<Byte>, placed: seq<Insertion>, count: nat)
    requires count <= |placed|
  {
    Between(content, |content|) && count >= 2 && AtEnd(content, placed, count - 1)
  }

  lemma FusedWholly(content: seq<Byte>, placed: seq<Insertion>)
    requires Forward(placed, |Tokens(content)|)
    ensures FusedTo(content, placed, |placed|) <==> FusesAtEnd(content, placed)
  {
    hide Tokens, Between;
    var length, last := |Tokens(content)|, |placed| - 1;
    if FusesAtEnd(content, placed) {
      var m, n :| 0 <= m < n < |placed| && placed[m].boundary == length && placed[n].boundary == length;
      assert m == last - 1 || placed[m].boundary <= placed[last - 1].boundary;
      assert placed[last - 1].boundary <= length;
    }
    if FusedTo(content, placed, |placed|) {
      assert placed[last - 1].boundary <= placed[last].boundary <= length;
    }
  }

  /** The words so far are as declared, unless some fused; and how the text so far ends. */
  ghost predicate WordsSoFar(content: seq<Byte>, placed: seq<Insertion>, count: nat)
    requires Placeable(content, placed) && count <= |placed|
  {
    var text, expected := TextTo(content, placed, count), WovenTo(Words(content), placed, count);
    && (if FusedTo(content, placed, count) then |Words(text)| < |expected| else Words(text) == expected)
    && (if AtEnd(content, placed, count) then text != [] && !IsSpace(text[|text| - 1]) else Between(text, |text|))
  }

  /** The text copied in front of an insertion that is the first at its place. */
  lemma CopiedWords(content: seq<Byte>, placed: seq<Insertion>, count: nat)
    requires Placeable(content, placed) && count < |placed| && !AtEnd(content, placed, count)
    requires WordsSoFar(content, placed, count)
    ensures var from, upto := CursorAt(content, placed, count), CursorAt(content, placed, count + 1);
      && from <= upto <= |content|
      && Words(TextTo(content, placed, count) + content[from..upto])
           == WovenTo(Words(content), placed, count) + Words(content)[Reached(placed, count)..Reached(placed, count + 1)]
  {
    var from, upto := CursorAt(content, placed, count), CursorAt(content, placed, count + 1);
    CursorMoves(content, placed, count + 1);
    hide TextTo, WovenTo, Words;
    WordsJoin(TextTo(content, placed, count), content[from..upto]);
    if count == 0 {
      WordsBefore(content, placed[0].boundary);
      assert content[0..upto] == content[..upto];
      assert Words(content)[0..placed[0].boundary] == Words(content)[..placed[0].boundary];
    } else {
      WordsBetween(content, placed[count - 1].boundary, placed[count].boundary);
    }
  }

  /** Some insertion besides the last is at the end already. */
  lemma NotYetFused(content: seq<Byte>, placed: seq<Insertion>, count: nat)
    requires Placeable(content, placed) && count < |placed| && !AtEnd(content, placed, count)
    ensures !FusedTo(content, placed, count) && !FusedTo(content, placed, count + 1)
  {
    if count >= 2 {
      assert placed[count - 2].boundary <= placed[count - 1].boundary;
    }
  }

  lemma PaddedInside(content: seq<Byte>, insertion: Insertion)
    requires insertion.boundary < |Tokens(content)| && insertion.words != []
    requires forall i :: 0 <= i < |insertion.words| ==> insertion.words[i].Proper()
    ensures var text := EditOf(content, insertion).text;
      && Words(text) == insertion.words && text != [] && IsSpace(text[|text| - 1])
    ensures var position := PositionOf(content, insertion.boundary);
      position <= |content| && (position == 0 || IsSpace(content[position - 1]))
  {
    CutAtToken(content, insertion.boundary);
    BetweenMeans(content, PositionOf(content, insertion.boundary));
    JoinedWords(insertion.words);
    hide Words, Tokens;
    var joined := Join(insertion.words);
    assert [] + joined == joined;
    SpaceHasNoWords();
    WordsJoin(joined, [SPACE]);
    assert insertion.words + [] == insertion.words;
  }

  lemma SpacedWords(text: seq<Byte>)
    ensures Words([SPACE] + text) == Words(text)
  {
    SpaceHasNoWords();
    assert Between([SPACE], 1);
    WordsJoin([SPACE], text);
  }

  lemma PaddedText(content: seq<Byte>, words: seq<Word>)
    ensures Padded(content, |content|, words) == if Between(content, |content|) then Join(words) else [SPACE] + Join(words)
  {
    BetweenMeans(content, |content|);
    hide Join, Between;
    assert Join(words) + [] == Join(words) && [] + Join(words) == Join(words);
    assert ([SPACE] + Join(words)) + [] == [SPACE] + Join(words);
  }

  lemma PaddedAtEnd(content: seq<Byte>, insertion: Insertion)
    requires insertion.boundary == |Tokens(content)| && insertion.words != []
    requires forall i :: 0 <= i < |insertion.words| ==> insertion.words[i].Proper()
    ensures var text := EditOf(content, insertion).text;
      && Words(text) == insertion.words && text != [] && !IsSpace(text[|text| - 1])
      && (if Between(content, |content|) then !IsSpace(text[0]) else IsSpace(text[0]))
  {
    PaddedText(content, insertion.words);
    JoinedWords(insertion.words);
    SpacedWords(Join(insertion.words));
    hide Words, Tokens, Join, Between, Padded;
  }

  /**
   Words go right in front of the word at their boundary, with one space behind them; at the end they go
   behind everything, with one space in front unless the text is empty or ends in white space.
   */
  lemma AddedText(content: seq<Byte>, insertion: Insertion)
    requires insertion.boundary <= |Tokens(content)|
    ensures var edit, joined := EditOf(content, insertion), Join(insertion.words);
      if insertion.boundary < |Tokens(content)| then
        && edit.position == Tokens(content)[insertion.boundary].start < |content|
        && edit.text == joined + [' ' as int]
      else
        && edit.position == |content|
        && edit.text == if content == [] || IsSpace(content[|content| - 1]) then joined else [' ' as int] + joined
  {
    hide Tokens, Join, Between;
    var joined := Join(insertion.words);
    if insertion.boundary < |Tokens(content)| {
      CutAtToken(content, insertion.boundary);
      BetweenMeans(content, PositionOf(content, insertion.boundary));
      assert [] + joined == joined;
    } else {
      PaddedText(content, insertion.words);
      BetweenMeans(content, |content|);
    }
  }

  /** Words added behind a text that ends between words, or set apart by their own white space. */
  lemma AppendWords(text: seq<Byte>, words: seq<Word>, added: seq<Byte>, addedWords: seq<Word>)
    requires Words(text) == words && Words(added) == addedWords && added != []
    requires Between(text, |text|) || IsSpace(added[0])
    ensures Words(text + added) == words + addedWords && text + added != []
    ensures (text + added)[|text + added| - 1] == added[|added| - 1]
  {
    WordsJoin(text, added);
  }

  /** Text before a word start keeps the composed text between words. */
  lemma StaysBetween(text: seq<Byte>, copied: seq<Byte>)
    requires if copied == [] then Between(text, |text|) else IsSpace(copied[|copied| - 1])
    ensures Between(text + copied, |text + copied|)
  {
    BetweenMeans(text + copied, |text + copied|);
    if copied == [] {
      assert text + copied == text;
    }
  }

  lemma TextNext(content: seq<Byte>, placed: seq<Insertion>, count: nat)
    requires Placeable(content, placed) && count < |placed|
    ensures var from, upto := CursorAt(content, placed, count), CursorAt(content, placed, count + 1);
      && from <= upto <= |content|
      && TextTo(content, placed, count + 1) == TextTo(content, placed, count) + content[from..upto] + EditOf(content, placed[count]).text
    ensures WovenTo(Words(content), placed, count + 1)
      == WovenTo(Words(content), placed, count) + Words(content)[Reached(placed, count)..Reached(placed, count + 1)] + placed[count].words
  {
    CursorMoves(content, placed, count + 1);
  }

  /** What one more insertion makes of the composed text. */
  ghost predicate Grows(content: seq<Byte>, placed: seq<Insertion>, count: nat, text: seq<Byte>, words: seq<Word>)
    requires Placeable(content, placed) && count < |placed|
  {
    && TextTo(content, placed, count + 1) == text + EditOf(content, placed[count]).text
    && WovenTo(Words(content), placed, count + 1) == words + placed[count].words
  }

  lemma SliceEnds(content: seq<Byte>, from: nat, upto: nat)
    requires from <= upto <= |content| && (upto == 0 || IsSpace(content[upto - 1]))
    ensures content[from..upto] != [] ==> IsSpace(content[from..upto][|content[from..upto]| - 1])
  {
  }

  /** The text in front of an insertion inside: its words are known, and it ends between words. */
  /** What is copied in front of an insertion, with the insertion, makes the text and the words so far. */
  lemma CopiedGrows(content: seq<Byte>, placed: seq<Insertion>, count: nat)
    requires Placeable(content, placed) && count < |placed|
    ensures var from, upto := CursorAt(content, placed, count), CursorAt(content, placed, count + 1);
      && from <= upto <= |content|
      && Grows(content, placed, count, TextTo(content, placed, count) + content[from..upto],
           WovenTo(Words(content), placed, count) + Words(content)[Reached(placed, count)..Reached(placed, count + 1)])
  {
    TextNext(content, placed, count);
    hide Words, Tokens, EditOf, TextTo, WovenTo, CursorAt;
  }

  lemma InsideIsNotAtEnd(content: seq<Byte>, placed: seq<Insertion>, count: nat)
    requires Placeable(content, placed) && count < |placed| && placed[count].boundary < |Tokens(content)|
    ensures !AtEnd(content, placed, count) && !AtEnd(content, placed, count + 1)
  {
    hide Tokens;
    assert count > 0 ==> placed[count - 1].boundary <= placed[count].boundary;
  }

  lemma InsideStays(content: seq<Byte>, placed: seq<Insertion>, count: nat)
    requires Placeable(content, placed) && count < |placed| && WordsSoFar(content, placed, count)
    requires placed[count].boundary < |Tokens(content)|
    ensures var from, upto := CursorAt(content, placed, count), CursorAt(content, placed, count + 1);
      && from <= upto <= |content|
      && Between(TextTo(content, placed, count) + content[from..upto], |TextTo(content, placed, count) + content[from..upto]|)
  {
    hide *;
    InsideIsNotAtEnd(content, placed, count);
    ReachedMoves(content, placed, count);
    CursorMoves(content, placed, count + 1);
    CursorIsBehindSpace(content, placed, count);
    StandsBetween(content, placed, count);
    var from, upto := CursorAt(content, placed, count), CursorAt(content, placed, count + 1);
    SliceEnds(content, from, upto);
    StaysBetween(TextTo(content, placed, count), content[from..upto]);
  }

  lemma CursorIsBehindSpace(content: seq<Byte>, placed: seq<Insertion>, count: nat)
    requires Placeable(content, placed) && count < |placed| && placed[count].boundary < |Tokens(content)|
    ensures var upto := CursorAt(content, placed, count + 1);
      upto <= |content| && (upto == 0 || IsSpace(content[upto - 1]))
  {
    CutAtToken(content, placed[count].boundary);
    BetweenMeans(content, CursorAt(content, placed, count + 1));
  }

  lemma StandsBetween(content: seq<Byte>, placed: seq<Insertion>, count: nat)
    requires Placeable(content, placed) && count <= |placed| && WordsSoFar(content, placed, count) && !AtEnd(content, placed, count)
    ensures Between(TextTo(content, placed, count), |TextTo(content, placed, count)|)
  {
    hide Words, Tokens, TextTo, WovenTo, Between, FusedTo, AtEnd;
  }

  lemma ReadyInside(content: seq<Byte>, placed: seq<Insertion>, count: nat) returns (text: seq<Byte>, words: seq<Word>)
    requires Placeable(content, placed) && count < |placed| && WordsSoFar(content, placed, count)
    requires placed[count].boundary < |Tokens(content)|
    ensures Grows(content, placed, count, text, words) && Words(text) == words && Between(text, |text|)
    ensures !AtEnd(content, placed, count + 1) && !FusedTo(content, placed, count + 1)
  {
    hide *;
    InsideIsNotAtEnd(content, placed, count);
    NotYetFused(content, placed, count);
    CopiedWords(content, placed, count);
    CopiedGrows(content, placed, count);
    InsideStays(content, placed, count);
    ReachedMoves(content, placed, count);
    text := TextTo(content, placed, count) + content[CursorAt(content, placed, count)..CursorAt(content, placed, count + 1)];
    words := WovenTo(Words(content), placed, count) + Words(content)[Reached(placed, count)..Reached(placed, count + 1)];
  }

  lemma ReachedMoves(content: seq<Byte>, placed: seq<Insertion>, count: nat)
    requires Placeable(content, placed) && count < |placed|
    ensures Reached(placed, count) <= Reached(placed, count + 1) <= |Words(content)|
    ensures Forward(placed, |Words(content)|) && Forward(placed, |Tokens(content)|)
  {
    hide Tokens;
  }

  /** One more insertion in front of a word. */
  lemma InsertInside(content: seq<Byte>, placed: seq<Insertion>, count: nat)
    requires Placeable(content, placed) && count < |placed| && WordsSoFar(content, placed, count)
    requires placed[count].boundary < |Tokens(content)|
    ensures WordsSoFar(content, placed, count + 1)
  {
    var text, words := ReadyInside(content, placed, count);
    PaddedInside(content, placed[count]);
    hide Words, Tokens, EditOf, FusedTo, TextTo, WovenTo, Placeable, Between, AtEnd, PositionOf;
    var added := EditOf(content, placed[count]).text;
    AppendWords(text, words, added, placed[count].words);
    StaysBetween(text, added);
  }

  /** The text in front of the first insertion at the end. */
  lemma ReadyAtEnd(content: seq<Byte>, placed: seq<Insertion>, count: nat) returns (text: seq<Byte>, words: seq<Word>)
    requires Placeable(content, placed) && count < |placed| && WordsSoFar(content, placed, count)
    requires placed[count].boundary == |Tokens(content)| && !AtEnd(content, placed, count)
    ensures Grows(content, placed, count, text, words) && Words(text) == words
    ensures Between(content, |content|) ==> Between(text, |text|)
    ensures AtEnd(content, placed, count + 1) && !FusedTo(content, placed, count + 1)
  {
    assert AtEnd(content, placed, count + 1);
    hide *;
    NotYetFused(content, placed, count);
    CopiedWords(content, placed, count);
    CopiedStands(content, placed, count);
    CopiedGrows(content, placed, count);
    ReachedMoves(content, placed, count);
    text := TextTo(content, placed, count) + content[CursorAt(content, placed, count)..CursorAt(content, placed, count + 1)];
    words := WovenTo(Words(content), placed, count) + Words(content)[Reached(placed, count)..Reached(placed, count + 1)];
  }

  /** The first insertion at the end. */
  lemma InsertFirstAtEnd(content: seq<Byte>, placed: seq<Insertion>, count: nat)
    requires Placeable(content, placed) && count < |placed| && WordsSoFar(content, placed, count)
    requires placed[count].boundary == |Tokens(content)| && !AtEnd(content, placed, count)
    ensures WordsSoFar(content, placed, count + 1)
  {
    var text, words := ReadyAtEnd(content, placed, count);
    PaddedAtEnd(content, placed[count]);
    hide Words, Tokens, EditOf, FusedTo, TextTo, WovenTo, Placeable, Between, AtEnd;
    AppendWords(text, words, EditOf(content, placed[count]).text, placed[count].words);
  }

  /** Where the text ends in white space, so does what is composed of it so far. */
  lemma CopiedStands(content: seq<Byte>, placed: seq<Insertion>, count: nat)
    requires Placeable(content, placed) && count < |placed| && WordsSoFar(content, placed, count)
    requires placed[count].boundary == |Tokens(content)| && !AtEnd(content, placed, count)
    ensures var from, upto := CursorAt(content, placed, count), CursorAt(content, placed, count + 1);
      && from <= upto <= |content|
      && var text := TextTo(content, placed, count) + content[from..upto];
        Between(content, |content|) ==> Between(text, |text|)
  {
    CursorMoves(content, placed, count + 1);
    CopiedToEnd(content, placed, count);
    BetweenMeans(content, |content|);
    hide TextTo, WovenTo, Words, Tokens, FusedTo, Between, CursorAt;
    if Between(content, |content|) {
      StaysBetween(TextTo(content, placed, count), content[CursorAt(content, placed, count)..CursorAt(content, placed, count + 1)]);
    }
  }

  lemma CopiedToEnd(content: seq<Byte>, placed: seq<Insertion>, count: nat)
    requires Placeable(content, placed) && count < |placed| && placed[count].boundary == |Tokens(content)|
    ensures CursorAt(content, placed, count + 1) == |content|
    ensures CursorAt(content, placed, count) == |content| <==> AtEnd(content, placed, count) || content == []
  {
    if count > 0 {
      PositionInside(content, placed[count - 1].boundary);
    }
  }

  lemma NothingCopied(content: seq<Byte>, placed: seq<Insertion>, count: nat)
    requires Placeable(content, placed) && count < |placed| && WordsSoFar(content, placed, count)
    requires placed[count].boundary == |Tokens(content)| && AtEnd(content, placed, count)
    ensures Grows(content, placed, count, TextTo(content, placed, count), WovenTo(Words(content), placed, count))
  {
    TextNext(content, placed, count);
    CopiedToEnd(content, placed, count);
    hide Words, Tokens, EditOf, Between, TextTo, WovenTo, WordsSoFar;
    assert content[|content|..|content|] == [];
    assert TextTo(content, placed, count) + [] == TextTo(content, placed, count);
    assert Words(content)[|Tokens(content)|..|Tokens(content)|] == [];
    assert WovenTo(Words(content), placed, count) + [] == WovenTo(Words(content), placed, count);
  }

  /** A further insertion at the end: set apart by its own space, or fused with the one before. */
  lemma InsertNextAtEnd(content: seq<Byte>, placed: seq<Insertion>, count: nat)
    requires Placeable(content, placed) && count < |placed| && WordsSoFar(content, placed, count)
    requires placed[count].boundary == |Tokens(content)| && AtEnd(content, placed, count)
    ensures WordsSoFar(content, placed, count + 1)
  {
    hide Words, Tokens, EditOf, Between, TextTo, WovenTo, Placeable;
    PaddedProper(content, placed, count);
    ReachedMoves(content, placed, count);
    PaddedAtEnd(content, placed[count]);
    NothingCopied(content, placed, count);
    var before, text := TextTo(content, placed, count), EditOf(content, placed[count]).text;
    if Between(content, |content|) {
      WordsFuse(before, text);
    } else {
      WordsJoin(before, text);
    }
  }

  lemma PaddedProper(content: seq<Byte>, placed: seq<Insertion>, count: nat)
    requires Placeable(content, placed) && count < |placed|
    ensures placed[count].words != [] && forall i :: 0 <= i < |placed[count].words| ==> placed[count].words[i].Proper()
  {
  }

  lemma {:induction false} WordsToldSoFar(content: seq<Byte>, placed: seq<Insertion>, count: nat)
    requires Placeable(content, placed) && count <= |placed|
    ensures WordsSoFar(content, placed, count)
  {
    hide WordsSoFar, Tokens;
    if count == 0 {
      NothingSoFar(content, placed);
    } else {
      WordsToldSoFar(content, placed, count - 1);
      if placed[count - 1].boundary < |Tokens(content)| {
        InsertInside(content, placed, count - 1);
      } else if AtEnd(content, placed, count - 1) {
        InsertNextAtEnd(content, placed, count - 1);
      } else {
        InsertFirstAtEnd(content, placed, count - 1);
      }
    }
  }

  lemma NothingSoFar(content: seq<Byte>, placed: seq<Insertion>)
    requires Placeable(content, placed)
    ensures WordsSoFar(content, placed, 0)
  {
    NoWords();
  }

  lemma RestOfWords(content: seq<Byte>, placed: seq<Insertion>)
    requires Placeable(content, placed) && !AtEnd(content, placed, |placed|)
    ensures CursorAt(content, placed, |placed|) <= |content|
    ensures Words(content[CursorAt(content, placed, |placed|)..]) == Words(content)[Reached(placed, |placed|)..]
  {
    if placed == [] {
      assert content[0..] == content && Words(content)[0..] == Words(content);
    } else {
      CutAtToken(content, placed[|placed| - 1].boundary);
    }
  }

  /**
   Tokenizing the composed text gives the text's words with each insertion's words at its
   boundary, exactly when no two insertions land at the end of text that is empty or ends in
   white space.
   */
  lemma ComposedWords(content: seq<Byte>, placed: seq<Insertion>)
    requires Placeable(content, placed)
    ensures Words(Composed(content, placed)) == Woven(Words(content), placed) <==> !FusesAtEnd(content, placed)
  {
    WordsToldSoFar(content, placed, |placed|);
    FusedWholly(content, placed);
    CursorMoves(content, placed, |placed|);
    var from, text := CursorAt(content, placed, |placed|), TextTo(content, placed, |placed|);
    if AtEnd(content, placed, |placed|) {
      PositionInside(content, placed[|placed| - 1].boundary);
      hide TextTo, WovenTo, Tokens, Words, FusesAtEnd, FusedTo;
      assert content[from..] == [] && text + [] == text;
      assert Words(content)[Reached(placed, |placed|)..] == [];
      var woven := WovenTo(Words(content), placed, |placed|);
      assert woven + [] == woven;
    } else {
      RestOfWords(content, placed);
      NotFusedInside(content, placed);
      hide TextTo, WovenTo, Tokens, Words, FusesAtEnd, FusedTo;
      WordsJoin(text, content[from..]);
    }
  }

  lemma NotFusedInside(content: seq<Byte>, placed: seq<Insertion>)
    requires Placeable(content, placed) && !AtEnd(content, placed, |placed|)
    ensures !FusedTo(content, placed, |placed|)
  {
    if |placed| >= 2 {
      assert placed[|placed| - 2].boundary <= placed[|placed| - 1].boundary;
    }
  }

  // --------------------------------------------------------------- the composer

  /** Where an insertion goes: a boundary of the target already, or the one that stands out there. */
  ghost predicate GoesTo(base: seq<Word>, target: seq<Word>, fixed: bool, boundary: nat, placedAt: nat) {
    if fixed then placedAt == boundary <= |target| else boundary <= |base| && StandsOut(base, boundary, target, placedAt)
  }

  /** The same words, each where it goes. */
  ghost predicate Carried(base: seq<Word>, target: seq<Word>, fixed: bool, insertions: seq<Insertion>, placed: seq<Insertion>) {
    && |placed| == |insertions|
    && forall n :: 0 <= n < |insertions| ==>
         placed[n].words == insertions[n].words && GoesTo(base, target, fixed, insertions[n].boundary, placed[n].boundary)
  }

  lemma GoesToOnePlace(base: seq<Word>, target: seq<Word>, fixed: bool, boundary: nat, a: nat, b: nat)
    requires GoesTo(base, target, fixed, boundary, a) && GoesTo(base, target, fixed, boundary, b)
    ensures a == b
  {
    hide Score;
  }

  /** The added words of a change that only adds words, if there are any and few. */
  function AddedWords(before: seq<Byte>, changed: seq<Byte>): seq<Insertion> {
    var added := Greedy(Words(before), 0, Words(changed), 0);
    if added.Some? && |added.value| <= MAX_WORD_INSERTIONS then added.value else []
  }

  lemma AddedWordsAreProper(before: seq<Byte>, changed: seq<Byte>)
    ensures var added := AddedWords(before, changed);
      && Strict(added, 0, |Words(before)|)
      && forall n :: 0 <= n < |added| ==> forall i :: 0 <= i < |added[n].words| ==> added[n].words[i].Proper()
  {
    var added := AddedWords(before, changed);
    if added != [] {
      GreedyIsStrict(Words(before), 0, Words(changed), 0);
      GreedyTakesChanged(Words(before), 0, Words(changed), 0);
      TokensAre(changed);
      forall n, i | 0 <= n < |added| && 0 <= i < |added[n].words| ensures added[n].words[i].Proper() {
        assert added[n].words[i] in Words(changed);
      }
    }
  }

  /** Insertions for the replacement that another diff proposes: boundaries inside it, and proper words. */
  ghost predicate Proposed(length: nat, insertions: seq<Insertion>) {
    forall n :: 0 <= n < |insertions| ==>
      && insertions[n].boundary <= length && insertions[n].words != []
      && forall i :: 0 <= i < |insertions[n].words| ==> insertions[n].words[i].Proper()
  }

  predicate TooLarge(chunks: seq<Chunk>) {
    |Joined(chunks)| > MAX_WORD_COMPOSITION_BYTES
  }

  /** The insertions to carry over: the added words, or else what the other diff proposes. */
  function ToCarry(before: seq<Byte>, changed: seq<Byte>, alternative: seq<Insertion>): seq<Insertion> {
    if AddedWords(before, changed) != [] then AddedWords(before, changed) else alternative
  }

  /** One way to carry the insertions over, in order. */
  ghost predicate Solution(before: seq<Byte>, changed: seq<Byte>, replacement: seq<Byte>, alternative: seq<Insertion>, placed: seq<Insertion>) {
    && Carried(Words(before), Words(replacement), AddedWords(before, changed) == [], ToCarry(before, changed, alternative), placed)
    && Placeable(replacement, placed)
  }

  /**
   What is carried over: the few additions that lead from the earlier words to the changed ones, each to the
   boundary that stands out in the replacement; or, where words were lost, none came or too many, what the
   other diff proposes, where it proposes it.
   */
  lemma CarriedWords(before: seq<Byte>, changed: seq<Byte>, replacement: seq<Byte>, alternative: seq<Insertion>, placed: seq<Insertion>)
    requires Solution(before, changed, replacement, alternative, placed)
    ensures Greedy(Words(before), 0, Words(changed), 0).Some? <==> IsSubsequence(Words(before), Words(changed))
    ensures var base, words, added := Words(before), Words(changed), AddedWords(before, changed);
      if added != [] then
        && |added| <= 8 && Strict(added, 0, |base|) && Forward(added, |base|) && Woven(base, added) == words && |placed| == |added|
        && forall n :: 0 <= n < |placed| ==>
             placed[n].words == added[n].words && StandsOut(base, added[n].boundary, Words(replacement), placed[n].boundary)
      else
        && placed == alternative
        && match Greedy(base, 0, words, 0)
           case None => true
           case Some(all) => base == words || |all| > 8
  {
    hide Greedy, Words, Placeable, StandsOut, Strict, Woven, IsSubsequence;
    DiffIsExact(Words(before), Words(changed));
    NothingWoven(Words(before));
    if AddedWords(before, changed) == [] {
      forall n | 0 <= n < |placed| ensures placed[n] == alternative[n] {
      }
    }
  }

  lemma NothingWoven(base: seq<Word>)
    ensures Forward([], |base|) && Woven(base, []) == base
  {
  }

  /** The edits of the first insertions, as far as they have been placed. */
  ghost predicate PlacedSoFar(base: seq<Word>, content: seq<Byte>, fixed: bool, insertions: seq<Insertion>, placed: seq<Insertion>,
                              edits: seq<Edit>) {
    && |placed| == |edits| <= |insertions|
    && Carried(base, Words(content), fixed, insertions[..|placed|], placed)
    && Forward(placed, |Tokens(content)|)
    && forall n :: 0 <= n < |placed| ==> edits[n] == EditOf(content, placed[n])
  }

  lemma CarriedPrefix(base: seq<Word>, target: seq<Word>, fixed: bool, insertions: seq<Insertion>, placed: seq<Insertion>, whole: seq<Insertion>)
    requires |placed| <= |insertions| && Carried(base, target, fixed, insertions[..|placed|], placed)
    requires Carried(base, target, fixed, insertions, whole)
    ensures whole[..|placed|] == placed
  {
    hide GoesTo;
    forall n | 0 <= n < |placed| ensures whole[n] == placed[n] {
      assert insertions[..|placed|][n] == insertions[n];
      GoesToOnePlace(base, target, fixed, insertions[n].boundary, whole[n].boundary, placed[n].boundary);
    }
  }

  lemma PlaceNext(base: seq<Word>, content: seq<Byte>, fixed: bool, insertions: seq<Insertion>, placed: seq<Insertion>,
                  edits: seq<Edit>, next: Insertion)
    requires PlacedSoFar(base, content, fixed, insertions, placed, edits) && |placed| < |insertions|
    requires next.words == insertions[|placed|].words
    requires GoesTo(base, Words(content), fixed, insertions[|placed|].boundary, next.boundary) && next.boundary <= |Tokens(content)|
    requires placed != [] ==> edits[|edits| - 1].position <= PositionOf(content, next.boundary)
    ensures PlacedSoFar(base, content, fixed, insertions, placed + [next], edits + [EditOf(content, next)])
  {
    hide GoesTo, Tokens, Words, Padded;
    var n := |placed|;
    assert insertions[..n + 1] == insertions[..n] + [insertions[n]];
    if n > 0 {
      PositionsOrdered(content, placed[n - 1].boundary, next.boundary);
      forall m | 0 <= m < n ensures placed[m].boundary <= next.boundary {
        assert m == n - 1 || placed[m].boundary <= placed[n - 1].boundary;
      }
    }
  }

  /** No way to go on from here: the next insertion has no place, or its place lies behind. */
  lemma NoSolution(base: seq<Word>, content: seq<Byte>, fixed: bool, insertions: seq<Insertion>, placed: seq<Insertion>, edits: seq<Edit>)
    requires PlacedSoFar(base, content, fixed, insertions, placed, edits) && |placed| < |insertions|
    requires forall at: nat :: GoesTo(base, Words(content), fixed, insertions[|placed|].boundary, at) && at <= |Tokens(content)| ==>
      placed != [] && PositionOf(content, at) < edits[|edits| - 1].position
    ensures forall whole :: Carried(base, Words(content), fixed, insertions, whole) ==> !Placeable(content, whole)
  {
    hide GoesTo, Tokens, Words, Padded;
    forall whole: seq<Insertion> | Carried(base, Words(content), fixed, insertions, whole) ensures !Placeable(content, whole) {
      CarriedPrefix(base, Words(content), fixed, insertions, placed, whole);
      var n := |placed|;
      var at := whole[n].boundary;
      if at <= |Tokens(content)| && n > 0 {
        assert whole[n - 1] == whole[..n][n - 1] == placed[n - 1];
        PositionsOrdered(content, placed[n - 1].boundary, at);
      }
    }
  }

  /** Place the insertions one after another; their positions may not go back. */
  method PlaceInsertions(base: seq<Word>, content: seq<Byte>, fixed: bool, insertions: seq<Insertion>)
    returns (edits: Option<seq<Edit>>, ghost placed: seq<Insertion>)
    requires fixed ==> forall n :: 0 <= n < |insertions| ==> insertions[n].boundary <= |Words(content)|
    requires !fixed ==> forall n :: 0 <= n < |insertions| ==> insertions[n].boundary <= |base|
    ensures edits.Some? ==> |placed| == |insertions| && PlacedSoFar(base, content, fixed, insertions, placed, edits.value)
    ensures edits.None? ==> forall whole :: Carried(base, Words(content), fixed, insertions, whole) ==> !Placeable(content, whole)
  {
    hide PlacedSoFar, Carried, Placeable, Tokens, StandsOut, Padded;
    var tokens := Tokens(content);
    var done: seq<Edit>, previousPosition: int := [], -1;
    placed := [];
    NothingPlaced(base, content, fixed, insertions);
    var n := 0;
    while n < |insertions|
      invariant 0 <= n == |placed| == |done| <= |insertions|
      invariant PlacedSoFar(base, content, fixed, insertions, placed, done)
      invariant previousPosition == if n == 0 then -1 else done[n - 1].position
    {
      var target: Option<nat> := Some(insertions[n].boundary);
      if !fixed {
        target := UniqueTargetBoundary(base, insertions[n].boundary, Words(content));
      }
      if target.None? {
        NoSolution(base, content, fixed, insertions, placed, done);
        return None, placed;
      }
      PlaceIs(base, Words(content), fixed, insertions[n].boundary, target.value);
      var position := PositionOf(content, target.value);
      if position < previousPosition {
        NoSolution(base, content, fixed, insertions, placed, done);
        return None, placed;
      }
      PositionInside(content, target.value);
      var edit := Edit(position, Padded(content, position, insertions[n].words));
      PlaceNext(base, content, fixed, insertions, placed, done, Insertion(target.value, insertions[n].words));
      placed := placed + [Insertion(target.value, insertions[n].words)];
      previousPosition := position;
      done := done + [edit];
      n := n + 1;
    }
    edits := Some(done);
  }

  lemma NothingPlaced(base: seq<Word>, content: seq<Byte>, fixed: bool, insertions: seq<Insertion>)
    ensures PlacedSoFar(base, content, fixed, insertions, [], [])
  {
  }

  lemma PlaceIs(base: seq<Word>, target: seq<Word>, fixed: bool, boundary: nat, at: nat)
    requires GoesTo(base, target, fixed, boundary, at)
    ensures at <= |target|
    ensures forall other: nat :: GoesTo(base, target, fixed, boundary, other) ==> other == at
  {
    hide Score;
    forall other: nat | GoesTo(base, target, fixed, boundary, other) ensures other == at {
      GoesToOnePlace(base, target, fixed, boundary, other, at);
    }
  }

  /** Copy the text between the edits. */
  method SpliceEdits(content: seq<Byte>, edits: seq<Edit>, ghost placed: seq<Insertion>) returns (composed: seq<Byte>)
    requires Forward(placed, |Tokens(content)|) && |edits| == |placed|
    requires forall n :: 0 <= n < |placed| ==> edits[n] == EditOf(content, placed[n])
    ensures composed == Composed(content, placed)
  {
    hide Tokens, Padded, Forward;
    composed := [];
    var cursor := 0;
    var n := 0;
    CursorMoves(content, placed, 0);
    while n < |edits|
      invariant 0 <= n <= |edits| && cursor == CursorAt(content, placed, n) <= |content|
      invariant composed == TextTo(content, placed, n)
    {
      CursorMoves(content, placed, n + 1);
      composed := composed + content[cursor..edits[n].position];
      composed := composed + edits[n].text;
      cursor := edits[n].position;
      n := n + 1;
    }
    composed := composed + content[cursor..];
  }

  /** Carry unambiguous added words across another rewrite of the same text. */
  method ComposeWordInsertions(before: seq<Chunk>, changed: seq<Chunk>, replacement: seq<Chunk>, alternative: Option<seq<Insertion>>)
    returns (composed: Option<seq<Byte>>, ghost placed: seq<Insertion>)
    requires alternative.Some? ==> Proposed(|Words(Joined(replacement))|, alternative.value)
    ensures composed.Some? <==>
      && !TooLarge(before) && !TooLarge(changed) && !TooLarge(replacement)
      && var others := if alternative.Some? then alternative.value else [];
        && ToCarry(Joined(before), Joined(changed), others) != []
        && exists whole :: Solution(Joined(before), Joined(changed), Joined(replacement), others, whole)
    ensures composed.Some? ==>
      && Solution(Joined(before), Joined(changed), Joined(replacement), if alternative.Some? then alternative.value else [], placed)
      && composed.value == Composed(Joined(replacement), placed)
  {
    hide Carried, Placeable, Tokens, Words, Composed, Greedy, Proposed;
    placed := [];
    var beforeContent := BoundedContent(before);
    var changedContent := BoundedContent(changed);
    var content := BoundedContent(replacement);
    if beforeContent.None? || changedContent.None? || content.None? {
      return None, placed;
    }
    var base := Words(beforeContent.value);
    var added := InsertionOnlyWordChanges(base, Words(changedContent.value));
    AddedWordsAreProper(beforeContent.value, changedContent.value);
    var insertions, fixed := if added.Some? then added.value else [], false;
    if insertions == [] {
      insertions, fixed := if alternative.Some? then alternative.value else [], true;
    }
    if insertions == [] {
      return None, placed;
    }
    CanPlace(base, Words(content.value), fixed, insertions);
    var edits;
    edits, placed := PlaceInsertions(base, content.value, fixed, insertions);
    if edits.None? {
      return None, placed;
    }
    PlacementSolves(base, content.value, fixed, insertions, placed, edits.value);
    var text := SpliceEdits(content.value, edits.value, placed);
    composed := Some(text);
  }

  lemma CanPlace(base: seq<Word>, target: seq<Word>, fixed: bool, insertions: seq<Insertion>)
    requires if fixed then Proposed(|target|, insertions) else Strict(insertions, 0, |base|)
    ensures fixed ==> forall n :: 0 <= n < |insertions| ==> insertions[n].boundary <= |target|
    ensures !fixed ==> forall n :: 0 <= n < |insertions| ==> insertions[n].boundary <= |base|
  {
  }

  lemma PlacementSolves(base: seq<Word>, content: seq<Byte>, fixed: bool, insertions: seq<Insertion>, placed: seq<Insertion>, edits: seq<Edit>)
    requires |placed| == |insertions| && PlacedSoFar(base, content, fixed, insertions, placed, edits)
    requires if fixed then Proposed(|Words(content)|, insertions) else Strict(insertions, 0, |base|)
    requires !fixed ==> forall n :: 0 <= n < |insertions| ==> forall i :: 0 <= i < |insertions[n].words| ==> insertions[n].words[i].Proper()
    ensures Carried(base, Words(content), fixed, insertions, placed) && Placeable(content, placed)
    ensures |edits| == |placed| && forall n :: 0 <= n < |placed| ==> edits[n] == EditOf(content, placed[n])
  {
    hide GoesTo, Tokens, Words, Padded;
    assert insertions[..|placed|] == insertions;
  }

  // --------------------------------------------------- insertions that do fuse

  function Letter(b: Byte): Word {
    Word([b])
  }

  /** Words that end a text stand out behind the same words elsewhere, when nothing else agrees. */
  lemma StandsOutAtEnd(base: seq<Word>, boundary: nat, target: seq<Word>)
    requires |target| == 3 <= boundary < |base| && base[boundary - 3..boundary] == target
    requires target[0] != target[2] && target[1] != target[2] && base[boundary] !in target
    ensures StandsOut(base, boundary, target, 3)
  {
    hide AgreeBefore, AgreeAfter;
    forall i | 0 <= i < 3 ensures base[boundary - 3 + i] == target[i] {
      assert base[boundary - 3..boundary][i] == target[i];
    }
    AgreeBeforeStep(base, boundary, target, 3, WORD_CONTEXT_LIMIT);
    AgreeBeforeStep(base, boundary - 1, target, 2, WORD_CONTEXT_LIMIT - 1);
    AgreeBeforeStep(base, boundary - 2, target, 1, WORD_CONTEXT_LIMIT - 2);
    AgreeBeforeStep(base, boundary - 3, target, 0, WORD_CONTEXT_LIMIT - 3);
    AgreeAfterStep(base, boundary, target, 3, WORD_CONTEXT_LIMIT);
    assert Score(base, boundary, target, 3) == 3;
    forall other | 0 <= other <= 3 && other != 3 ensures Score(base, boundary, target, other) == 0 {
      AgreeBeforeStep(base, boundary, target, other, WORD_CONTEXT_LIMIT);
      AgreeAfterStep(base, boundary, target, other, WORD_CONTEXT_LIMIT);
    }
  }

  lemma GreedyMatches(base: seq<Word>, i: nat, changed: seq<Word>, j: nat)
    requires i < |base| && j < |changed| && changed[j] == base[i]
    ensures Greedy(base, i, changed, j) == Greedy(base, i + 1, changed, j + 1)
  {
    assert changed[j..j] == [];
    assert forall rest: seq<Insertion> :: [] + rest == rest;
  }

  lemma GreedyInserts(base: seq<Word>, i: nat, changed: seq<Word>, j: nat)
    requires i < |base| && j + 1 < |changed| && changed[j] != base[i] && changed[j + 1] == base[i]
    requires Greedy(base, i + 1, changed, j + 2).Some?
    ensures Greedy(base, i, changed, j) == Some([Insertion(i, [changed[j]])] + Greedy(base, i + 1, changed, j + 2).value)
  {
    assert NextAt(changed, j, base[i]) == j + 1;
    assert changed[j..j + 1] == [changed[j]];
  }

  /** The base with two words added, each behind the first three words or what repeats them. */
  ghost predicate TwoMore(base: seq<Word>, changed: seq<Word>) {
    && |base| == 8 && |changed| == 10 && changed[3] != base[3] && changed[8] != base[7]
    && (forall k :: 0 <= k < 3 ==> changed[k] == base[k])
    && (forall k :: 3 <= k < 7 ==> changed[k + 1] == base[k])
    && changed[9] == base[7]
  }

  lemma TwoAdded(base: seq<Word>, changed: seq<Word>)
    requires TwoMore(base, changed)
    ensures Greedy(base, 0, changed, 0) == Some([Insertion(3, [changed[3]]), Insertion(7, [changed[8]])])
  {
    hide Greedy;
    GreedyEnds(base, changed);
    GreedyInserts(base, 7, changed, 8);
    assert [Insertion(7, [changed[8]])] + [] == [Insertion(7, [changed[8]])];
    SecondAdded(base, changed);
    assert changed[4] == base[3];
    GreedyInserts(base, 3, changed, 3);
    assert [Insertion(3, [changed[3]])] + [Insertion(7, [changed[8]])] == [Insertion(3, [changed[3]]), Insertion(7, [changed[8]])];
    GreedyMatches(base, 2, changed, 2);
    GreedyMatches(base, 1, changed, 1);
    GreedyMatches(base, 0, changed, 0);
  }

  lemma SecondAdded(base: seq<Word>, changed: seq<Word>)
    requires TwoMore(base, changed)
    ensures Greedy(base, 4, changed, 5) == Greedy(base, 7, changed, 8)
  {
    hide Greedy;
    assert changed[5] == base[4] && changed[6] == base[5] && changed[7] == base[6];
    GreedyMatches(base, 6, changed, 7);
    GreedyMatches(base, 5, changed, 6);
    GreedyMatches(base, 4, changed, 5);
  }

  lemma GreedyEnds(base: seq<Word>, changed: seq<Word>)
    ensures Greedy(base, |base|, changed, |changed|) == Some([])
  {
  }

  ghost predicate AllProper(words: seq<Word>) {
    forall i :: 0 <= i < |words| ==> words[i].Proper()
  }

  lemma TwoAreAdded(base: seq<Word>, changed: seq<Word>)
    requires TwoMore(base, changed) && AllProper(base) && AllProper(changed)
    ensures AddedWords(Join(base), Join(changed)) == [Insertion(3, [changed[3]]), Insertion(7, [changed[8]])]
  {
    JoinedWords(base);
    JoinedWords(changed);
    hide Words, Join, Greedy;
    TwoAdded(base, changed);
  }

  lemma BothPlaceable(content: seq<Byte>, n: Word, m: Word)
    requires |Tokens(content)| == 3 && n.Proper() && m.Proper()
    ensures Placeable(content, [Insertion(3, [n]), Insertion(3, [m])])
  {
  }

  /** Both additions go to the end of a rewrite that keeps only the words in front of them. */
  lemma BothGoToEnd(base: seq<Word>, changed: seq<Word>, target: seq<Word>, content: seq<Byte>)
    requires TwoMore(base, changed) && AllProper(base) && AllProper(changed) && Words(content) == target
    requires |target| == 3 && base[0..3] == target && base[4..7] == target
    requires target[0] != target[2] && target[1] != target[2] && base[3] !in target && base[7] !in target
    ensures Solution(Join(base), Join(changed), content, [], [Insertion(3, [changed[3]]), Insertion(3, [changed[8]])])
  {
    StandsOutAtEnd(base, 3, target);
    StandsOutAtEnd(base, 7, target);
    TwoAreAdded(base, changed);
    BothPlaceable(content, changed[3], changed[8]);
    hide Words, Tokens, Join, StandsOut, TwoMore, AddedWords, Placeable;
    JoinedWords(base);
  }

  /** A solution of the composer whose words do not come out as declared. */
  ghost predicate Fuses(before: seq<Byte>, changed: seq<Byte>, replacement: seq<Byte>, placed: seq<Insertion>) {
    && Solution(before, changed, replacement, [], placed) && FusesAtEnd(replacement, placed)
    && Words(Composed(replacement, placed)) != Woven(Words(replacement), placed)
  }

  /** The words "a b c x a b c y" get n and m added behind "a b c"; the rewrite to "a b c " fuses them. */
  lemma WordsCanFuse()
    ensures exists before, changed, replacement, placed :: Fuses(before, changed, replacement, placed)
  {
    var a, b, c, x, y, n, m := Letter(97), Letter(98), Letter(99), Letter(120), Letter(121), Letter(110), Letter(109);
    LettersFuse(a, b, c, x, y, n, m);
  }

  lemma LettersFuse(a: Word, b: Word, c: Word, x: Word, y: Word, n: Word, m: Word)
    requires a.Proper() && b.Proper() && c.Proper() && x.Proper() && y.Proper() && n.Proper() && m.Proper()
    requires a != c && b != c && x !in [a, b, c] && y !in [a, b, c] && n != x && m != y
    ensures var content := Join([a, b, c]) + [SPACE];
      Fuses(Join([a, b, c, x, a, b, c, y]), Join([a, b, c, n, x, a, b, c, m, y]), content, [Insertion(3, [n]), Insertion(3, [m])])
  {
    var base, changed, target := [a, b, c, x, a, b, c, y], [a, b, c, n, x, a, b, c, m, y], [a, b, c];
    assert base[0..3] == target && base[4..7] == target;
    assert base[3] == x && base[7] == y && changed[3] == n && changed[8] == m;
    assert TwoMore(base, changed);
    assert AllProper(base) && AllProper(changed) && AllProper(target);
    hide *;
    BothFuse(base, changed, target, Join(target) + [SPACE], [Insertion(3, [changed[3]]), Insertion(3, [changed[8]])]);
  }

  lemma BothFuse(base: seq<Word>, changed: seq<Word>, target: seq<Word>, content: seq<Byte>, placed: seq<Insertion>)
    requires TwoMore(base, changed) && AllProper(base) && AllProper(changed) && AllProper(target)
    requires |target| == 3 && |base| == 8 && |changed| == 10 && content == Join(target) + [SPACE]
    requires base[0..3] == target && base[4..7] == target
    requires target[0] != target[2] && target[1] != target[2] && base[3] !in target && base[7] !in target
    requires placed == [Insertion(3, [changed[3]]), Insertion(3, [changed[8]])]
    ensures Fuses(Join(base), Join(changed), content, placed)
  {
    hide AllProper, Words, Tokens, Join, Between, Solution, FusesAtEnd, TwoMore, Placeable;
    WordsBeforeSpace(target);
    BothGoToEnd(base, changed, target, content);
    BothAtEnd(content, placed);
    SolutionIsPlaceable(Join(base), Join(changed), content, placed);
    ComposedWords(content, placed);
  }

  lemma SolutionIsPlaceable(before: seq<Byte>, changed: seq<Byte>, replacement: seq<Byte>, placed: seq<Insertion>)
    requires Solution(before, changed, replacement, [], placed)
    ensures Placeable(replacement, placed)
  {
    hide Carried, Placeable;
  }

  lemma BothAtEnd(content: seq<Byte>, placed: seq<Insertion>)
    requires Between(content, |content|) && |placed| == 2
    requires placed[0].boundary == |Tokens(content)| && placed[1].boundary == |Tokens(content)|
    ensures FusesAtEnd(content, placed)
  {
  }

  lemma WordsBeforeSpace(words: seq<Word>)
    requires words != [] && AllProper(words)
    ensures var content := Join(words) + [SPACE]; Words(content) == words && Between(content, |content|)
  {
    var content := Join(words) + [SPACE];
    JoinedWords(words);
    SpaceHasNoWords();
    WordsJoin(Join(words), [SPACE]);
    BetweenMeans(content, |content|);
    assert content[|content| - 1] == SPACE;
  }
}
