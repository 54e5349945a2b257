/** Undoing recorded applications, checking the round trip, and replaying them over a change (batch/applied_text_replay.py). */
module TextReplay {
  import opened Wrappers
  import opened Bytes

  /** The lines of a file, as bytes. */
  type Text = seq<Chunk>

  /** A merge that cannot be carried out, or anything else that stops the program. */
  datatype Failure = MergeFailure | OtherFailure

  /**
   What replay is built from, as deterministic partial functions: merging a change into a text,
   undoing a recorded application in a text, and the two ways to compose a rejected application
   with the text that rejected it.
   */
  datatype Engine<!Change> = Engine(
    merge: (Change, Text) -> Result<Text, Failure>,
    discard: (Change, Text) -> Result<Text, Failure>,
    composeWords: (Text, Text, Text) -> Option<Text>,
    composePrefix: (Text, Text, Change) -> Option<Text>)

  // -------------------------------------------------------------- replay and undo

  /** Applying the first `count` changes one after another. */
  function ReplayTo<Change>(engine: Engine<Change>, changes: seq<Change>, count: nat, base: Text): Result<Text, Failure>
    requires count <= |changes|
  {
    if count == 0 then Ok(base)
    else
      match ReplayTo(engine, changes, count - 1, base)
      case Err(error) => Err(error)
      case Ok(text) => engine.merge(changes[count - 1], text)
  }

  /** Undoing the changes from the last down to index `from`. */
  function UndoFrom<Change>(engine: Engine<Change>, changes: seq<Change>, from: nat, worktree: Text): Result<Text, Failure>
    requires from <= |changes|
    decreases |changes| - from
  {
    if from == |changes| then Ok(worktree)
    else
      match UndoFrom(engine, changes, from + 1, worktree)
      case Err(error) => Err(error)
      case Ok(text) => engine.discard(changes[from], text)
  }

  lemma {:induction false} ReplayFailsEarly<Change>(engine: Engine<Change>, changes: seq<Change>, upto: nat, count: nat, base: Text)
    requires upto <= count <= |changes| && ReplayTo(engine, changes, upto, base).Err?
    ensures ReplayTo(engine, changes, count, base) == ReplayTo(engine, changes, upto, base)
    decreases count
  {
    if upto < count {
      ReplayFailsEarly(engine, changes, upto, count - 1, base);
    }
  }

  lemma {:induction false} ReplayPrefix<Change>(engine: Engine<Change>, changes: seq<Change>, upto: nat, count: nat, base: Text)
    requires count <= upto <= |changes|
    ensures ReplayTo(engine, changes[..upto], count, base) == ReplayTo(engine, changes, count, base)
  {
    if count > 0 {
      ReplayPrefix(engine, changes, upto, count - 1, base);
    }
  }

  /** Why a context is not handed out. */
  datatype Refusal = NothingApplied | UndoFailed(undo: Failure) | ReplayFailed(replay: Failure) | DoesNotReproduce

  /** Replay all changes in order; a replay of nothing is a caller's mistake. */
  method ReplayApplications<Change>(engine: Engine<Change>, changes: seq<Change>, base: Text) returns (outcome: Result<Text, Refusal>)
    ensures changes == [] ==> outcome == Err(NothingApplied)
    ensures changes != [] ==>
      match ReplayTo(engine, changes, |changes|, base)
      case Ok(text) => outcome == Ok(text)
      case Err(error) => outcome == Err(ReplayFailed(error))
  {
    var current: Text := base;
    var i := 0;
    while i < |changes|
      invariant 0 <= i <= |changes| && ReplayTo(engine, changes, i, base) == Ok(current)
    {
      var updated := engine.merge(changes[i], current);
      if updated.Err? {
        ReplayFailsEarly(engine, changes, i + 1, |changes|, base);
        return Err(ReplayFailed(updated.error));
      }
      current := updated.value;
      i := i + 1;
    }
    if changes == [] {
      return Err(NothingApplied);
    }
    outcome := Ok(current);
  }

  /** The worktree text before the recorded changes were applied. */
  class ReplayContext<Change> {
    const engine: Engine<Change>
    const changes: seq<Change>
    const base: Text

    constructor (engine: Engine<Change>, changes: seq<Change>, base: Text)
      ensures this.engine == engine && this.changes == changes && this.base == base
    {
      this.engine, this.changes, this.base := engine, changes, base;
    }

    /** Merge a change into the earlier text, then restore every applied change. */
    method Merge(change: Change) returns (outcome: Result<Text, Failure>)
      ensures outcome == Merged(engine, changes, base, change)
      ensures forall was, result :: Replays(engine, changes, was) && was[0] == base ==>
        (outcome == Ok(result) <==> LeadsTo(engine, changes, was, change, result))
    {
      MergeLeadsOn(engine, changes, base, change);
      var first := engine.merge(change, base);
      if first.Err? {
        return first;
      }
      var current := first.value;
      var i := 0;
      while i < |changes|
        invariant 0 <= i <= |changes|
        invariant CarryTo(engine, changes, i, base, first.value) == Ok(current)
      {
        var updated := engine.merge(changes[i], current);
        if updated.Err? && updated.error == MergeFailure {
          updated := Recompose(current, i);
        }
        if updated.Err? {
          CarryFailsEarly(engine, changes, i + 1, |changes|, base, first.value);
          return updated;
        }
        current := updated.value;
        i := i + 1;
      }
      outcome := Ok(current);
    }

    /** Compose a rejected application with the text that rejected it. */
    method Recompose(current: Text, i: nat) returns (outcome: Result<Text, Failure>)
      requires i < |changes|
      ensures outcome == Fallback(engine, changes, i, base, current)
      ensures ReplayTo(engine, changes, |changes|, base).Ok? ==>
        (outcome.Err? <==> NotComposable(engine, changes, i, base, current))
      ensures forall was, text :: Replays(engine, changes, was) && was[0] == base ==>
        (outcome == Ok(text) <==> Composes(engine, changes[i], was[i], was[i + 1], current, text))
    {
      FallbackComposes(engine, changes, i, base, current);
      if ReplayTo(engine, changes, |changes|, base).Ok? {
        FallbackOnlyLacksComposition(engine, changes, i, base, current);
      }
      var before := base;
      if i > 0 {
        var replayed := ReplayApplications(engine, changes[..i], base);
        ReplayPrefix(engine, changes, i, i, base);
        if replayed.Err? {
          return Err(replayed.error.replay);
        }
        before := replayed.value;
      }
      var replacement := engine.merge(changes[i], before);
      if replacement.Err? {
        return replacement;
      }
      var composed := engine.composeWords(before, current, replacement.value);
      if composed.None? {
        composed := engine.composePrefix(current, replacement.value, changes[i]);
      }
      outcome := if composed.Some? then Ok(composed.value) else Err(MergeFailure);
    }
  }

  // --------------------------------------------------------- merging a change

  /** How change i gets into a text that rejects it. */
  function Fallback<Change>(engine: Engine<Change>, changes: seq<Change>, i: nat, base: Text, current: Text): Result<Text, Failure>
    requires i < |changes|
  {
    match ReplayTo(engine, changes, i, base)
    case Err(error) => Err(error)
    case Ok(before) =>
      match engine.merge(changes[i], before)
      case Err(error) => Err(error)
      case Ok(replacement) =>
        match engine.composeWords(before, current, replacement)
        case Some(text) => Ok(text)
        case None =>
          match engine.composePrefix(current, replacement, changes[i])
          case Some(text) => Ok(text)
          case None => Err(MergeFailure)
  }

  /** Change i on top of a text. */
  function Carry<Change>(engine: Engine<Change>, changes: seq<Change>, i: nat, base: Text, current: Text): Result<Text, Failure>
    requires i < |changes|
  {
    if engine.merge(changes[i], current) == Err(MergeFailure) then Fallback(engine, changes, i, base, current)
    else engine.merge(changes[i], current)
  }

  /** The first `count` changes on top of a changed base. */
  function CarryTo<Change>(engine: Engine<Change>, changes: seq<Change>, count: nat, base: Text, changed: Text): Result<Text, Failure>
    requires count <= |changes|
  {
    if count == 0 then Ok(changed)
    else
      match CarryTo(engine, changes, count - 1, base, changed)
      case Err(error) => Err(error)
      case Ok(text) => Carry(engine, changes, count - 1, base, text)
  }

  function Merged<Change>(engine: Engine<Change>, changes: seq<Change>, base: Text, change: Change): Result<Text, Failure> {
    match engine.merge(change, base)
    case Err(error) => Err(error)
    case Ok(changed) => CarryTo(engine, changes, |changes|, base, changed)
  }

  lemma {:induction false} CarryFailsEarly<Change>(engine: Engine<Change>, changes: seq<Change>, upto: nat, count: nat, base: Text, changed: Text)
    requires upto <= count <= |changes| && CarryTo(engine, changes, upto, base, changed).Err?
    ensures CarryTo(engine, changes, count, base, changed) == CarryTo(engine, changes, upto, base, changed)
    decreases count
  {
    if upto < count {
      CarryFailsEarly(engine, changes, upto, count - 1, base, changed);
    }
  }

  /** Where replay succeeds, carrying over the unchanged base is replay, and no fallback is used. */
  lemma {:induction false} UnchangedBaseReplays<Change>(engine: Engine<Change>, changes: seq<Change>, count: nat, base: Text)
    requires count <= |changes| && ReplayTo(engine, changes, |changes|, base).Ok?
    ensures ReplayTo(engine, changes, count, base).Ok?
    ensures CarryTo(engine, changes, count, base, base) == ReplayTo(engine, changes, count, base)
    ensures forall i :: 0 <= i < count ==>
      ReplayTo(engine, changes, i, base).Ok? && engine.merge(changes[i], ReplayTo(engine, changes, i, base).value).Ok?
  {
    if ReplayTo(engine, changes, count, base).Err? {
      ReplayFailsEarly(engine, changes, count, |changes|, base);
    }
    if count > 0 {
      UnchangedBaseReplays(engine, changes, count - 1, base);
    }
  }

  /** Merging a change that leaves the recovered base as it is returns exactly the worktree. */
  lemma NoChangeIsNoChange<Change>(engine: Engine<Change>, changes: seq<Change>, base: Text, worktree: Text, change: Change)
    requires ReplayTo(engine, changes, |changes|, base) == Ok(worktree) && engine.merge(change, base) == Ok(base)
    ensures Merged(engine, changes, base, change) == Ok(worktree)
  {
    UnchangedBaseReplays(engine, changes, |changes|, base);
  }

  /** Neither the words added to the earlier text nor a common beginning carry change i into the text that rejects it. */
  ghost predicate NotComposable<Change>(engine: Engine<Change>, changes: seq<Change>, i: nat, base: Text, current: Text)
    requires i < |changes|
  {
    var before := ReplayTo(engine, changes, i, base);
    && before.Ok? && engine.merge(changes[i], before.value).Ok?
    && var replacement := engine.merge(changes[i], before.value).value;
      engine.composeWords(before.value, current, replacement).None? && engine.composePrefix(current, replacement, changes[i]).None?
  }

  /** Inside a handed-out context the replays that a fallback makes never fail: it fails only for lack of a composition. */
  lemma FallbackOnlyLacksComposition<Change>(engine: Engine<Change>, changes: seq<Change>, i: nat, base: Text, current: Text)
    requires i < |changes| && ReplayTo(engine, changes, |changes|, base).Ok?
    ensures Fallback(engine, changes, i, base, current).Err? <==> NotComposable(engine, changes, i, base, current)
    ensures Fallback(engine, changes, i, base, current).Err? ==> Fallback(engine, changes, i, base, current) == Err(MergeFailure)
  {
    UnchangedBaseReplays(engine, changes, i + 1, base);
  }

  /**
   Once one change goes through unaided on the text that replay has there, the rest follows replay:
   a change that the applied ones absorb leaves the worktree as it was.
   */
  lemma {:induction false} RejoinsReplay<Change>(engine: Engine<Change>, changes: seq<Change>, from: nat, count: nat, base: Text, changed: Text)
    requires from <= count <= |changes| && ReplayTo(engine, changes, |changes|, base).Ok?
    requires CarryTo(engine, changes, from, base, changed) == ReplayTo(engine, changes, from, base)
    ensures CarryTo(engine, changes, count, base, changed) == ReplayTo(engine, changes, count, base)
    decreases count
  {
    UnchangedBaseReplays(engine, changes, count, base);
    if from < count {
      RejoinsReplay(engine, changes, from, count - 1, base, changed);
    }
  }

  // -------------------------------------------------------------- runs of texts

  /** The texts that replay passes through, from the earlier text to the worktree. */
  ghost predicate Replays<Change>(engine: Engine<Change>, changes: seq<Change>, was: seq<Text>) {
    && |was| == |changes| + 1
    && forall i :: 0 <= i < |changes| ==> engine.merge(changes[i], was[i]) == Ok(was[i + 1])
  }

  /** The two ways to get a rejected application into the text: words first, then a saved prefix. */
  ghost predicate Composes<Change>(engine: Engine<Change>, change: Change, before: Text, after: Text, from: Text, to: Text) {
    match engine.composeWords(before, from, after)
    case Some(text) => to == text
    case None => engine.composePrefix(from, after, change) == Some(to)
  }

  /** Application i goes onto the carried text, or is composed with what replay made of it. */
  ghost predicate GoesOn<Change>(engine: Engine<Change>, changes: seq<Change>, was: seq<Text>, i: nat, from: Text, to: Text)
    requires i < |changes| && |was| == |changes| + 1
  {
    match engine.merge(changes[i], from)
    case Ok(text) => to == text
    case Err(error) => error == MergeFailure && Composes(engine, changes[i], was[i], was[i + 1], from, to)
  }

  /** The texts that a merged change passes through. */
  ghost predicate Carries<Change>(engine: Engine<Change>, changes: seq<Change>, was: seq<Text>, texts: seq<Text>) {
    && |texts| == |was| == |changes| + 1
    && forall i :: 0 <= i < |changes| ==> GoesOn(engine, changes, was, i, texts[i], texts[i + 1])
  }

  /** Such texts lead from the changed earlier text to the result. */
  ghost predicate LeadsTo<Change>(engine: Engine<Change>, changes: seq<Change>, was: seq<Text>, change: Change, result: Text)
    requires |was| == |changes| + 1
  {
    exists texts :: Carries(engine, changes, was, texts) && engine.merge(change, was[0]) == Ok(texts[0]) && texts[|changes|] == result
  }

  lemma {:induction false} ReplayPasses<Change>(engine: Engine<Change>, changes: seq<Change>, was: seq<Text>, count: nat)
    requires Replays(engine, changes, was) && count <= |changes|
    ensures ReplayTo(engine, changes, count, was[0]) == Ok(was[count])
  {
    if count > 0 {
      ReplayPasses(engine, changes, was, count - 1);
    }
  }

  /** Replay succeeds exactly along such texts. */
  lemma {:induction false} ReplayHasTexts<Change>(engine: Engine<Change>, changes: seq<Change>, base: Text, count: nat) returns (was: seq<Text>)
    requires count <= |changes| && ReplayTo(engine, changes, count, base).Ok?
    ensures Replays(engine, changes[..count], was) && was[0] == base && Ok(was[count]) == ReplayTo(engine, changes, count, base)
  {
    if count == 0 {
      was := [base];
    } else {
      was := ReplayHasTexts(engine, changes, base, count - 1);
      was := was + [ReplayTo(engine, changes, count, base).value];
      assert forall i :: 0 <= i < count - 1 ==> changes[..count][i] == changes[..count - 1][i];
    }
  }

  /** A fallback gives just the composed text. */
  lemma FallbackComposes<Change>(engine: Engine<Change>, changes: seq<Change>, i: nat, base: Text, from: Text)
    requires i < |changes|
    ensures forall was, text :: Replays(engine, changes, was) && was[0] == base ==>
      (Fallback(engine, changes, i, base, from) == Ok(text) <==> Composes(engine, changes[i], was[i], was[i + 1], from, text))
  {
    forall was, text | Replays(engine, changes, was) && was[0] == base
      ensures Fallback(engine, changes, i, base, from) == Ok(text) <==> Composes(engine, changes[i], was[i], was[i + 1], from, text)
    {
      ReplayPasses(engine, changes, was, i);
    }
  }

  lemma StepIs<Change>(engine: Engine<Change>, changes: seq<Change>, was: seq<Text>, i: nat, from: Text, to: Text)
    requires Replays(engine, changes, was) && i < |changes|
    ensures Carry(engine, changes, i, was[0], from) == Ok(to) <==> GoesOn(engine, changes, was, i, from, to)
  {
    ReplayPasses(engine, changes, was, i);
  }

  lemma {:induction false} CarryPasses<Change>(engine: Engine<Change>, changes: seq<Change>, was: seq<Text>, texts: seq<Text>, count: nat)
    requires Replays(engine, changes, was) && Carries(engine, changes, was, texts) && count <= |changes|
    ensures CarryTo(engine, changes, count, was[0], texts[0]) == Ok(texts[count])
  {
    hide GoesOn, Carry, Replays;
    if count > 0 {
      CarryPasses(engine, changes, was, texts, count - 1);
      StepIs(engine, changes, was, count - 1, texts[count - 1], texts[count]);
    }
  }

  /** The texts of the first steps. */
  ghost predicate CarriesTo<Change>(engine: Engine<Change>, changes: seq<Change>, was: seq<Text>, texts: seq<Text>, count: nat) {
    && |was| == |changes| + 1 && count <= |changes| && |texts| == count + 1
    && forall i :: 0 <= i < count ==> GoesOn(engine, changes, was, i, texts[i], texts[i + 1])
  }

  lemma {:induction false} CarryHasTexts<Change>(engine: Engine<Change>, changes: seq<Change>, was: seq<Text>, changed: Text, count: nat)
    returns (texts: seq<Text>)
    requires Replays(engine, changes, was) && count <= |changes| && CarryTo(engine, changes, count, was[0], changed).Ok?
    ensures CarriesTo(engine, changes, was, texts, count) && texts[0] == changed
    ensures Ok(texts[count]) == CarryTo(engine, changes, count, was[0], changed)
  {
    hide GoesOn, Carry, Replays;
    assert |was| == |changes| + 1 by { SameLength(engine, changes, was); }
    if count == 0 {
      texts := [changed];
    } else {
      var before := CarryHasTexts(engine, changes, was, changed, count - 1);
      var next := CarryTo(engine, changes, count, was[0], changed).value;
      StepIs(engine, changes, was, count - 1, before[count - 1], next);
      texts := before + [next];
      forall i | 0 <= i < count ensures GoesOn(engine, changes, was, i, texts[i], texts[i + 1]) {
        assert i < count - 1 ==> GoesOn(engine, changes, was, i, before[i], before[i + 1]);
      }
    }
  }

  lemma SameLength<Change>(engine: Engine<Change>, changes: seq<Change>, was: seq<Text>)
    requires Replays(engine, changes, was)
    ensures |was| == |changes| + 1
  {
  }

  /**
   Merging a change over applications that replay along the texts `was` gives a text exactly when texts lead
   from the changed earlier text to it: each application goes onto the text before it, or, where it is
   rejected, is composed with what replay made of it.
   */
  lemma MergeFollowsReplay<Change>(engine: Engine<Change>, changes: seq<Change>, was: seq<Text>, change: Change, result: Text)
    requires Replays(engine, changes, was)
    ensures Merged(engine, changes, was[0], change) == Ok(result) <==>
      LeadsTo(engine, changes, was, change, result)
  {
    SameLength(engine, changes, was);
    hide GoesOn, Replays, CarryTo;
    if Merged(engine, changes, was[0], change) == Ok(result) {
      var texts := CarryHasTexts(engine, changes, was, engine.merge(change, was[0]).value, |changes|);
      assert Carries(engine, changes, was, texts);
    }
    forall texts | Carries(engine, changes, was, texts) && engine.merge(change, was[0]) == Ok(texts[0])
      ensures Merged(engine, changes, was[0], change) == Ok(texts[|changes|])
    {
      CarryPasses(engine, changes, was, texts, |changes|);
    }
  }

  lemma MergeLeadsOn<Change>(engine: Engine<Change>, changes: seq<Change>, base: Text, change: Change)
    ensures forall was, result :: Replays(engine, changes, was) && was[0] == base ==>
      (Merged(engine, changes, base, change) == Ok(result) <==> LeadsTo(engine, changes, was, change, result))
  {
    hide LeadsTo;
    forall was, result | Replays(engine, changes, was) && was[0] == base
      ensures Merged(engine, changes, base, change) == Ok(result) <==> LeadsTo(engine, changes, was, change, result)
    {
      MergeFollowsReplay(engine, changes, was, change, result);
    }
  }

  // ------------------------------------------------------------ handing it out

  /** The texts that undoing passes through: each one is the next with its application undone. */
  ghost predicate Undoes<Change>(engine: Engine<Change>, changes: seq<Change>, earlier: seq<Text>, worktree: Text) {
    && |earlier| == |changes| + 1 && earlier[|changes|] == worktree
    && forall i :: 0 <= i < |changes| ==> engine.discard(changes[i], earlier[i + 1]) == Ok(earlier[i])
  }

  /** Undoing leads from the worktree to the base, and replay leads back. */
  ghost predicate RoundTrip<Change>(engine: Engine<Change>, changes: seq<Change>, base: Text, worktree: Text) {
    exists earlier, was :: BackAndForth(engine, changes, earlier, was, base, worktree)
  }

  ghost predicate BackAndForth<Change>(engine: Engine<Change>, changes: seq<Change>, earlier: seq<Text>, was: seq<Text>, base: Text, worktree: Text) {
    && Undoes(engine, changes, earlier, worktree) && Replays(engine, changes, was)
    && earlier[0] == was[0] == base && was[|changes|] == worktree
  }

  lemma {:induction false} UndoPasses<Change>(engine: Engine<Change>, changes: seq<Change>, earlier: seq<Text>, worktree: Text, from: nat)
    requires Undoes(engine, changes, earlier, worktree) && from <= |changes|
    ensures UndoFrom(engine, changes, from, worktree) == Ok(earlier[from])
    decreases |changes| - from
  {
    if from < |changes| {
      UndoPasses(engine, changes, earlier, worktree, from + 1);
    }
  }

  lemma {:induction false} UndoHasTexts<Change>(engine: Engine<Change>, changes: seq<Change>, worktree: Text, from: nat) returns (texts: seq<Text>)
    requires from <= |changes| && UndoFrom(engine, changes, from, worktree).Ok?
    ensures |texts| == |changes| - from + 1 && Ok(texts[0]) == UndoFrom(engine, changes, from, worktree)
    ensures texts[|changes| - from] == worktree
    ensures forall i :: from <= i < |changes| ==> engine.discard(changes[i], texts[i + 1 - from]) == Ok(texts[i - from])
    decreases |changes| - from
  {
    if from == |changes| {
      texts := [worktree];
    } else {
      var rest := UndoHasTexts(engine, changes, worktree, from + 1);
      texts := [UndoFrom(engine, changes, from, worktree).value] + rest;
      forall i | from <= i < |changes| ensures engine.discard(changes[i], texts[i + 1 - from]) == Ok(texts[i - from]) {
        assert texts[i + 1 - from] == rest[i - from];
        assert i > from ==> texts[i - from] == rest[i - from - 1];
      }
    }
  }

  /** The base of a context is the text that undoing recovers and replay leads back from. */
  lemma RoundTripIs<Change>(engine: Engine<Change>, changes: seq<Change>, base: Text, worktree: Text)
    ensures RoundTrip(engine, changes, base, worktree) <==>
      UndoFrom(engine, changes, 0, worktree) == Ok(base) && ReplayTo(engine, changes, |changes|, base) == Ok(worktree)
  {
    if earlier, was :| BackAndForth(engine, changes, earlier, was, base, worktree) {
      UndoPasses(engine, changes, earlier, worktree, 0);
      ReplayPasses(engine, changes, was, |changes|);
    }
    if UndoFrom(engine, changes, 0, worktree) == Ok(base) && ReplayTo(engine, changes, |changes|, base) == Ok(worktree) {
      var earlier := UndoHasTexts(engine, changes, worktree, 0);
      var was := ReplayHasTexts(engine, changes, base, |changes|);
      assert changes[..|changes|] == changes;
      assert BackAndForth(engine, changes, earlier, was, base, worktree);
    }
  }

  /**
   Undo every application from the last to the first, and hand out the earlier text only when
   replaying it reproduces the worktree.
   */
  method AcquireReplayContext<Change>(engine: Engine<Change>, changes: seq<Change>, worktree: Text)
    returns (outcome: Result<ReplayContext<Change>, Refusal>)
    ensures outcome.Ok? <==> changes != [] && exists base :: RoundTrip(engine, changes, base, worktree)
    ensures outcome.Ok? ==>
      var context := outcome.value;
      && fresh(context) && context.engine == engine && context.changes == changes
      && RoundTrip(engine, changes, context.base, worktree)
    ensures outcome == Err(NothingApplied) <==> changes == []
    ensures outcome.Err? && outcome.error.UndoFailed? <==> changes != [] && UndoFrom(engine, changes, 0, worktree).Err?
    ensures outcome.Ok? ==> Ok(outcome.value.base) == UndoFrom(engine, changes, 0, worktree)
    ensures outcome.Ok? ==> ReplayTo(engine, changes, |changes|, outcome.value.base) == Ok(worktree)
    ensures outcome == Err(DoesNotReproduce) ==>
      && UndoFrom(engine, changes, 0, worktree).Ok?
      && ReplayTo(engine, changes, |changes|, UndoFrom(engine, changes, 0, worktree).value).Ok?
  {
    forall base ensures RoundTrip(engine, changes, base, worktree) <==>
      UndoFrom(engine, changes, 0, worktree) == Ok(base) && ReplayTo(engine, changes, |changes|, base) == Ok(worktree)
    {
      RoundTripIs(engine, changes, base, worktree);
    }
    hide RoundTrip;
    if changes == [] {
      return Err(NothingApplied);
    }
    var current: Text := worktree;
    var i := |changes|;
    while i > 0
      invariant 0 <= i <= |changes| && UndoFrom(engine, changes, i, worktree) == Ok(current)
    {
      var earlier := engine.discard(changes[i - 1], current);
      if earlier.Err? {
        UndoFailsEarly(engine, changes, 0, i - 1, worktree);
        return Err(UndoFailed(earlier.error));
      }
      current := earlier.value;
      i := i - 1;
    }
    var roundTrip := ReplayApplications(engine, changes, current);
    if roundTrip.Err? {
      return Err(roundTrip.error);
    }
    if roundTrip.value != worktree {
      return Err(DoesNotReproduce);
    }
    var context := new ReplayContext(engine, changes, current);
    outcome := Ok(context);
  }

  lemma {:induction false} UndoFailsEarly<Change>(engine: Engine<Change>, changes: seq<Change>, from: nat, upto: nat, worktree: Text)
    requires from <= upto <= |changes| && UndoFrom(engine, changes, upto, worktree).Err?
    ensures UndoFrom(engine, changes, from, worktree) == UndoFrom(engine, changes, upto, worktree)
    decreases upto - from
  {
    if from < upto {
      UndoFailsEarly(engine, changes, from + 1, upto, worktree);
    }
  }
}
