/** What merging a change over recorded applications gives, step by step (batch/applied_text_replay.py:452-527). */
module ReplayMeaning {
  import opened Wrappers
  import opened Tags
  import opened Bytes
  import opened WordTokens
  import opened WordInsertions
  import opened WordComposition
  import opened PrefixComposition
  import opened TextReplay

  // --------------------------------------------------------- what is composed

  /** The bytes are there, in order, among others. */
  ghost predicate Holds(text: seq<Byte>, kept: seq<Byte>) {
    exists tagged: seq<Tagged<Byte>> :: Untag(tagged) == text && Originals(tagged) == kept
  }

  /** The text is the replacement with a window composed, the tail of the applied run kept. */
  ghost predicate IsTail(others: Proposer, application: Application, from: Text, after: Text, text: Text,
                         start: nat, stop: nat, end: nat, p: nat, placed: seq<Insertion>) {
    && KeepsTail(others, application, from, after, start, stop, end, p, placed)
    && Joined(text) == Joined(after[..start]) + Composed(Joined(after[start..end]), placed) + Joined(after[end..])
  }

  /** The engine composes as the program does, with the batch that each change recorded. */
  ghost predicate Faithful<Change(!new)>(engine: Engine<Change>, others: Proposer, recorded: (Change, Text) -> Application) {
    && (forall before, from, after ::
          match engine.composeWords(before, from, after)
          case Some(text) => exists placed ::
            CarriesOver(others, before, from, after, placed) && Joined(text) == Composed(Joined(after), placed)
          case None => forall placed :: !CarriesOver(others, before, from, after, placed))
    && forall from, after, change ::
         match engine.composePrefix(from, after, change)
         case Some(text) => exists start, stop, end, p, placed ::
           IsTail(others, recorded(change, after), from, after, text, start, stop, end, p, placed)
         case None => forall start, stop, end, p, placed :: !KeepsTail(others, recorded(change, after), from, after, start, stop, end, p, placed)
  }

  lemma HoldsItself(text: seq<Byte>)
    ensures Holds(text, text)
  {
    UntagTag(text, false);
    OriginalsOfTag(text, false);
  }

  lemma HoldsJoined(a: seq<Byte>, keptA: seq<Byte>, b: seq<Byte>, keptB: seq<Byte>)
    requires Holds(a, keptA) && Holds(b, keptB)
    ensures Holds(a + b, keptA + keptB)
  {
    var x: seq<Tagged<Byte>> :| Untag(x) == a && Originals(x) == keptA;
    var y: seq<Tagged<Byte>> :| Untag(y) == b && Originals(y) == keptB;
    UntagAppend(x, y);
    OriginalsAppend(x, y);
  }

  lemma {:induction false} JoinedSplits(lines: Text, at: nat)
    requires at <= |lines|
    ensures Joined(lines) == Joined(lines[..at]) + Joined(lines[at..])
  {
    if at == |lines| {
      assert lines[..at] == lines && lines[at..] == [];
    } else {
      var init, last := lines[..|lines| - 1], lines[|lines| - 1];
      JoinedSplits(init, at);
      assert init[..at] == lines[..at] && lines[at..][..|lines| - at - 1] == init[at..];
    }
  }

  /** Carried words leave every byte of the replacement in place. */
  lemma WordsHold(others: Proposer, before: Text, from: Text, after: Text, placed: seq<Insertion>)
    requires CarriesOver(others, before, from, after, placed)
    ensures Placeable(Joined(after), placed) && Holds(Composed(Joined(after), placed), Joined(after))
  {
    hide Joined, Composed, Carried, ToCarry, Words, Tokens;
    var tagged := CompositionKeepsBytes(Joined(after), placed);
  }

  lemma HoldsAround(before: seq<Byte>, text: seq<Byte>, kept: seq<Byte>, behind: seq<Byte>)
    requires Holds(text, kept)
    ensures Holds(before + text + behind, before + kept + behind)
  {
    hide Holds;
    HoldsItself(before);
    HoldsItself(behind);
    HoldsJoined(before, before, text, kept);
    HoldsJoined(before + text, before + kept, behind, behind);
  }

  lemma JoinedInThree(lines: Text, start: nat, end: nat)
    requires start <= end <= |lines|
    ensures Joined(lines) == Joined(lines[..start]) + Joined(lines[start..end]) + Joined(lines[end..])
  {
    hide Joined;
    JoinedSplits(lines, end);
    JoinedSplits(lines[..end], start);
    assert lines[..end][..start] == lines[..start] && lines[..end][start..] == lines[start..end];
  }

  lemma TailParts(others: Proposer, application: Application, from: Text, after: Text,
                  start: nat, stop: nat, end: nat, p: nat, placed: seq<Insertion>)
    requires KeepsTail(others, application, from, after, start, stop, end, p, placed)
    ensures start <= p <= end <= |after| && start <= stop <= |from|
    ensures CarriesOver(others, after[start..p], from[start..stop], after[start..end], placed)
  {
    hide CarriesOver, FollowsRun, Joined, Words, EndsWith;
  }

  lemma TailHolds(others: Proposer, application: Application, from: Text, after: Text,
                  start: nat, stop: nat, end: nat, p: nat, placed: seq<Insertion>)
    requires KeepsTail(others, application, from, after, start, stop, end, p, placed)
    ensures start <= end <= |after| && Placeable(Joined(after[start..end]), placed)
    ensures Holds(Joined(after[..start]) + Composed(Joined(after[start..end]), placed) + Joined(after[end..]), Joined(after))
  {
    TailParts(others, application, from, after, start, stop, end, p, placed);
    hide CarriesOver, Composed, KeepsTail, Joined, Holds;
    WordsHold(others, after[start..p], from[start..stop], after[start..end], placed);
    JoinedInThree(after, start, end);
    HoldsAround(Joined(after[..start]), Composed(Joined(after[start..end]), placed), Joined(after[start..end]), Joined(after[end..]));
  }

  /** The engine's composed words are words carried over to the replacement. */
  lemma WordsComposed<Change(!new)>(engine: Engine<Change>, others: Proposer, recorded: (Change, Text) -> Application,
                                   before: Text, from: Text, after: Text) returns (placed: seq<Insertion>)
    requires Faithful(engine, others, recorded) && engine.composeWords(before, from, after).Some?
    ensures CarriesOver(others, before, from, after, placed)
    ensures Placeable(Joined(after), placed) && Joined(engine.composeWords(before, from, after).value) == Composed(Joined(after), placed)
  {
    hide Joined, Composed, Words, Tokens, ToCarry, KeepsTail, IsTail;
    placed :| CarriesOver(others, before, from, after, placed) && Joined(engine.composeWords(before, from, after).value) == Composed(Joined(after), placed);
  }

  lemma PrefixHolds<Change(!new)>(engine: Engine<Change>, others: Proposer, recorded: (Change, Text) -> Application,
                                 change: Change, from: Text, after: Text)
    requires Faithful(engine, others, recorded) && engine.composePrefix(from, after, change).Some?
    ensures Holds(Joined(engine.composePrefix(from, after, change).value), Joined(after))
  {
    var text := engine.composePrefix(from, after, change).value;
    hide Joined, Composed, CarriesOver, KeepsTail, Holds;
    var start: nat, stop: nat, end: nat, p: nat, placed :| IsTail(others, recorded(change, after), from, after, text, start, stop, end, p, placed);
    TailHolds(others, recorded(change, after), from, after, start, stop, end, p, placed);
  }

  /** Whatever composes a rejected application, every byte of what replay made of it is there, in order. */
  lemma ComposedHoldsReplay<Change(!new)>(engine: Engine<Change>, others: Proposer, recorded: (Change, Text) -> Application,
                                         change: Change, before: Text, after: Text, from: Text, to: Text)
    requires Faithful(engine, others, recorded) && Composes(engine, change, before, after, from, to)
    ensures Holds(Joined(to), Joined(after))
  {
    hide Faithful, CarriesOver, Joined, Holds;
    if engine.composeWords(before, from, after).Some? {
      var placed := WordsComposed(engine, others, recorded, before, from, after);
      WordsHold(others, before, from, after, placed);
    } else {
      PrefixHolds(engine, others, recorded, change, from, after);
    }
  }

  // ----------------------------------------------------- rejected applications

  /** The text behind a rejected application holds every byte that replay had there. */
  lemma RejectedKeepsReplay<Change(!new)>(engine: Engine<Change>, others: Proposer, recorded: (Change, Text) -> Application,
                                         changes: seq<Change>, was: seq<Text>, texts: seq<Text>, i: nat)
    requires Faithful(engine, others, recorded) && Replays(engine, changes, was) && Carries(engine, changes, was, texts)
    requires i < |changes| && engine.merge(changes[i], texts[i]).Err?
    ensures Holds(Joined(texts[i + 1]), Joined(was[i + 1]))
  {
    assert GoesOn(engine, changes, was, i, texts[i], texts[i + 1]);
    hide Faithful, Replays, Joined, Holds;
    ComposedHoldsReplay(engine, others, recorded, changes[i], was[i], was[i + 1], texts[i], texts[i + 1]);
  }

  /** When the last application is the one that rejects the changed text, the merge loses no byte of the worktree. */
  lemma WorktreeIsKept<Change(!new)>(engine: Engine<Change>, others: Proposer, recorded: (Change, Text) -> Application,
                                    changes: seq<Change>, was: seq<Text>, texts: seq<Text>, change: Change)
    requires Faithful(engine, others, recorded) && Replays(engine, changes, was) && Carries(engine, changes, was, texts)
    requires engine.merge(change, was[0]) == Ok(texts[0])
    requires changes != [] && engine.merge(changes[|changes| - 1], texts[|changes| - 1]).Err?
    ensures Merged(engine, changes, was[0], change) == Ok(texts[|changes|])
    ensures Holds(Joined(texts[|changes|]), Joined(was[|changes|]))
  {
    RejectedKeepsReplay(engine, others, recorded, changes, was, texts, |changes| - 1);
    hide Faithful, Replays, Carries, Joined, Holds;
    MergeFollowsReplay(engine, changes, was, change, texts[|changes|]);
  }

  lemma WordsAreComposed<Change(!new)>(engine: Engine<Change>, others: Proposer, recorded: (Change, Text) -> Application,
                                      before: Text, from: Text, after: Text)
    requires Faithful(engine, others, recorded)
    ensures engine.composeWords(before, from, after).Some? <==> exists whole :: CarriesOver(others, before, from, after, whole)
  {
    hide Joined, Composed, Words, Tokens, ToCarry, KeepsTail, IsTail;
  }

  /** One recorded application that the changed text rejects: the merge is what composes the two. */
  lemma OneCarried<Change>(engine: Engine<Change>, applied: Change, change: Change, base: Text, worktree: Text, changed: Text, result: Text)
    requires engine.merge(applied, base) == Ok(worktree) && engine.merge(change, base) == Ok(changed)
    requires engine.merge(applied, changed) == Err(MergeFailure) && engine.composeWords(base, changed, worktree) == Some(result)
    ensures Merged(engine, [applied], base, change) == Ok(result)
  {
    var was, texts := [base, worktree], [changed, result];
    assert Replays(engine, [applied], was);
    assert Carries(engine, [applied], was, texts);
    MergeFollowsReplay(engine, [applied], was, change, result);
  }

  /**
   One recorded application, rejected by the changed text, with words that can be carried over: the merge gives
   the worktree with the words that the change added to the earlier text, and unless two of them fuse at the end
   its words are the worktree's with each added word at its place.
   */
  lemma OneRejection<Change(!new)>(engine: Engine<Change>, others: Proposer, recorded: (Change, Text) -> Application,
                                  applied: Change, change: Change, base: Text, worktree: Text, changed: Text)
    returns (result: Text, placed: seq<Insertion>)
    requires Faithful(engine, others, recorded)
    requires engine.merge(applied, base) == Ok(worktree) && engine.merge(change, base) == Ok(changed)
    requires engine.merge(applied, changed) == Err(MergeFailure)
    requires exists whole :: CarriesOver(others, base, changed, worktree, whole)
    ensures Merged(engine, [applied], base, change) == Ok(result)
    ensures CarriesOver(others, base, changed, worktree, placed) && Joined(result) == Composed(Joined(worktree), placed)
    ensures Holds(Joined(result), Joined(worktree))
    ensures Words(Joined(result)) == Woven(Words(Joined(worktree)), placed) <==> !FusesAtEnd(Joined(worktree), placed)
  {
    hide *;
    WordsAreComposed(engine, others, recorded, base, changed, worktree);
    result := engine.composeWords(base, changed, worktree).value;
    placed := WordsComposed(engine, others, recorded, base, changed, worktree);
    OneCarried(engine, applied, change, base, worktree, changed, result);
    WordsHold(others, base, changed, worktree, placed);
    ComposedWords(Joined(worktree), placed);
  }
}
