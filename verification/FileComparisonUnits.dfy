/** Units from comparing a baseline with a worktree file (batch/attribution_units.py:170-330). */
module FileComparisonUnits {
  import opened Wrappers
  import opened LineRanges
  import opened Realized
  import opened LineMatching
  import opened AttributionUnits

  /** Baseline and worktree lines, and where each baseline line is found in the worktree. */
  datatype Comparison = Comparison(path: string, baseline: seq<Line>, working: seq<Line>, alignment: map<nat, nat>)
  {
    predicate Aligns(line: nat) {
      1 <= line <= |baseline| && line in alignment
    }

    /** No two baseline lines are found at the same worktree line. */
    ghost predicate Injective() {
      && (forall b :: Aligns(b) ==> 1 <= alignment[b] <= |working|)
      && (forall b, c :: Aligns(b) && Aligns(c) && alignment[b] == alignment[c] ==> b == c)
    }

    /** The alignment of existing lines, in both directions. */
    ghost predicate Matches(m: LineMapping) {
      && m.Inverse() && m.Within(|baseline|, |working|)
      && (forall b :: b in m.toTarget <==> Aligns(b))
      && forall b :: b in m.toTarget ==> m.toTarget[b] == alignment[b]
    }

    /** No baseline line is found at this worktree line. */
    ghost predicate IsAdded(x: nat) {
      1 <= x <= |working| && forall b :: Aligns(b) ==> alignment[b] != x
    }
  }

  /** Both directions of the alignment of the baseline lines before a line. */
  ghost predicate BuiltTo(comparison: Comparison, m: LineMapping, line: nat) {
    && (forall b: nat :: b in m.toTarget <==> comparison.Aligns(b) && b < line)
    && (forall b :: b in m.toTarget ==> comparison.Aligns(b) && m.toTarget[b] == comparison.alignment[b])
    && m.Inverse()
  }

  lemma BuildNext(comparison: Comparison, m: LineMapping, line: nat)
    requires comparison.Injective() && BuiltTo(comparison, m, line)
    ensures BuiltTo(comparison,
      if comparison.Aligns(line) then LineMapping(m.toTarget[line := comparison.alignment[line]], m.toSource[comparison.alignment[line] := line]) else m,
      line + 1)
  {
    if comparison.Aligns(line) {
      forall b | b in m.toTarget ensures m.toTarget[b] != comparison.alignment[line] {
        assert comparison.Aligns(b) && b != line;
      }
    }
  }

  method BuildMatches(comparison: Comparison) returns (m: LineMapping)
    requires comparison.Injective()
    ensures comparison.Matches(m)
  {
    hide BuiltTo;
    var toWorking: map<nat, nat>, toBaseline: map<nat, nat> := map[], map[];
    NothingBuilt(comparison);
    var line := 1;
    while line <= |comparison.baseline|
      invariant 1 <= line <= |comparison.baseline| + 1
      invariant BuiltTo(comparison, LineMapping(toWorking, toBaseline), line)
    {
      BuildNext(comparison, LineMapping(toWorking, toBaseline), line);
      if line in comparison.alignment {
        toWorking := toWorking[line := comparison.alignment[line]];
        toBaseline := toBaseline[comparison.alignment[line] := line];
      }
      line := line + 1;
    }
    m := LineMapping(toWorking, toBaseline);
    BuiltMatches(comparison, m);
  }

  lemma NothingBuilt(comparison: Comparison)
    ensures BuiltTo(comparison, LineMapping(map[], map[]), 1)
  {
  }

  lemma BuiltMatches(comparison: Comparison, m: LineMapping)
    requires comparison.Injective() && BuiltTo(comparison, m, |comparison.baseline| + 1)
    ensures comparison.Matches(m)
  {
  }

  method UnmatchedLines(count: nat, matched: map<nat, nat>) returns (lines: seq<nat>)
    ensures forall i, j :: 0 <= i < j < |lines| ==> lines[i] < lines[j]
    ensures forall x :: x in lines <==> 1 <= x <= count && x !in matched
  {
    lines := [];
    var line := 1;
    while line <= count
      invariant 1 <= line <= count + 1
      invariant forall i, j :: 0 <= i < j < |lines| ==> lines[i] < lines[j]
      invariant forall i :: 0 <= i < |lines| ==> lines[i] < line
      invariant forall x :: x in lines <==> 1 <= x < line && x !in matched
    {
      if line !in matched {
        lines := lines + [line];
      }
      line := line + 1;
    }
  }

  /** The runs of unmatched lines on both sides. */
  ghost predicate BothRuns(comparison: Comparison, m: LineMapping, deletions: seq<Span>, additions: seq<Span>) {
    && comparison.Matches(m)
    && RunsOfUnmatched(m.toTarget.Keys, |comparison.baseline|, deletions)
    && RunsOfUnmatched(m.toSource.Keys, |comparison.working|, additions)
  }

  /** The worktree line that a deletion run follows. */
  function DeletionAnchor(m: LineMapping, run: Span): Option<nat> {
    var p := Predecessor(m.toTarget.Keys, run.first);
    if p.None? then None else m.Target(p.value)
  }

  function AdditionAnchor(m: LineMapping, run: Span): Option<nat> {
    Predecessor(m.toSource.Keys, run.first)
  }

  lemma DeletionAnchorsDiffer(comparison: Comparison, m: LineMapping, deletions: seq<Span>, additions: seq<Span>, d: nat, e: nat)
    requires BothRuns(comparison, m, deletions, additions) && d < |deletions| && e < |deletions| && d != e
    ensures DeletionAnchor(m, deletions[d]) != DeletionAnchor(m, deletions[e])
  {
    var i, j := if d < e then d else e, if d < e then e else d;
    RunsFollowDifferentLines(m.toTarget.Keys, |comparison.baseline|, deletions, i, j);
    PredecessorIs(m.toTarget.Keys, deletions[d].first);
    PredecessorIs(m.toTarget.Keys, deletions[e].first);
  }

  lemma AdditionAnchorsDiffer(comparison: Comparison, m: LineMapping, deletions: seq<Span>, additions: seq<Span>, a: nat, b: nat)
    requires BothRuns(comparison, m, deletions, additions) && a < |additions| && b < |additions| && a != b
    ensures AdditionAnchor(m, additions[a]) != AdditionAnchor(m, additions[b])
  {
    var i, j := if a < b then a else b, if a < b then b else a;
    RunsFollowDifferentLines(m.toSource.Keys, |comparison.working|, additions, i, j);
  }

  // ------------------------------------------------------------------- pairing

  predicate SameAnchor(m: LineMapping, deletion: Span, addition: Span) {
    DeletionAnchor(m, deletion) == AdditionAnchor(m, addition)
  }

  /** Each of the first deletion runs is paired with the addition run at its anchor, when there is one. */
  ghost predicate PairedUpTo(m: LineMapping, deletions: seq<Span>, additions: seq<Span>, partner: seq<Option<nat>>) {
    && |partner| <= |deletions|
    && forall d :: 0 <= d < |partner| ==>
         match partner[d]
         case Some(a) => a < |additions| && SameAnchor(m, deletions[d], additions[a])
         case None => forall a :: 0 <= a < |additions| ==> !SameAnchor(m, deletions[d], additions[a])
  }

  /** A deletion run that has a match finds it unpaired. */
  lemma MatchIsFree(comparison: Comparison, m: LineMapping, deletions: seq<Span>, additions: seq<Span>,
                    partner: seq<Option<nat>>, d: nat, e: nat, a: nat)
    requires BothRuns(comparison, m, deletions, additions) && PairedUpTo(m, deletions, additions, partner)
    requires e < |partner| <= d < |deletions| && partner[e] == Some(a)
    ensures a < |additions| && !SameAnchor(m, deletions[d], additions[a])
  {
    DeletionAnchorsDiffer(comparison, m, deletions, additions, d, e);
  }

  /** Pair the deletion runs greedily; the order of the additions does not matter, since at most one has the anchor. */
  method PairRuns(comparison: Comparison, m: LineMapping, deletions: seq<Span>, additions: seq<Span>)
    returns (partner: seq<Option<nat>>, paired: set<nat>)
    requires BothRuns(comparison, m, deletions, additions)
    ensures |partner| == |deletions| && PairedUpTo(m, deletions, additions, partner)
    ensures forall a :: a in paired <==> exists d :: 0 <= d < |partner| && partner[d] == Some(a)
  {
    hide BothRuns, DeletionAnchor, AdditionAnchor;
    partner, paired := [], {};
    var d := 0;
    while d < |deletions|
      invariant 0 <= d == |partner| <= |deletions| && PairedUpTo(m, deletions, additions, partner)
      invariant forall a :: a in paired <==> exists e :: 0 <= e < |partner| && partner[e] == Some(a)
    {
      var best := FindMatch(comparison, m, deletions, additions, partner, paired, d);
      ghost var before := partner;
      partner := partner + [best];
      forall a ensures a in (if best.Some? then paired + {best.value} else paired) <==> exists e :: 0 <= e < |partner| && partner[e] == Some(a) {
        if best == Some(a) {
          assert partner[d] == Some(a);
        }
        if e :| 0 <= e < |before| && before[e] == Some(a) {
          assert partner[e] == Some(a);
        }
      }
      if best.Some? {
        paired := paired + {best.value};
      }
      d := d + 1;
    }
  }

  method FindMatch(comparison: Comparison, m: LineMapping, deletions: seq<Span>, additions: seq<Span>,
                   partner: seq<Option<nat>>, paired: set<nat>, d: nat)
    returns (best: Option<nat>)
    requires BothRuns(comparison, m, deletions, additions) && PairedUpTo(m, deletions, additions, partner)
    requires |partner| == d < |deletions|
    requires forall a :: a in paired <==> exists e :: 0 <= e < |partner| && partner[e] == Some(a)
    ensures best.Some? ==> best.value < |additions| && SameAnchor(m, deletions[d], additions[best.value])
    ensures best.None? ==> forall a :: 0 <= a < |additions| ==> !SameAnchor(m, deletions[d], additions[a])
  {
    hide BothRuns, PairedUpTo;
    var before := FindStructuralPredecessor(deletions[d].first, m.toTarget);
    var anchor := if before.None? then None else m.Target(before.value);
    var a := 0;
    while a < |additions|
      invariant 0 <= a <= |additions|
      invariant forall b :: 0 <= b < a ==> !SameAnchor(m, deletions[d], additions[b])
    {
      if a in paired {
        var e :| 0 <= e < |partner| && partner[e] == Some(a);
        MatchIsFree(comparison, m, deletions, additions, partner, d, e, a);
      } else {
        var addAnchor := FindStructuralPredecessor(additions[a].first, m.toSource);
        if anchor == addAnchor {
          return Some(a);
        }
      }
      a := a + 1;
    }
    best := None;
  }

  /** No addition run is paired twice. */
  lemma PartnersDiffer(comparison: Comparison, m: LineMapping, deletions: seq<Span>, additions: seq<Span>,
                       partner: seq<Option<nat>>, d: nat, e: nat)
    requires BothRuns(comparison, m, deletions, additions) && PairedUpTo(m, deletions, additions, partner)
    requires d < |partner| && e < |partner| && d != e && partner[d].Some?
    ensures partner[d] != partner[e]
  {
    DeletionAnchorsDiffer(comparison, m, deletions, additions, d, e);
  }

  // -------------------------------------------------------------------- pieces

  /** The runs or the line that one unit stands for. */
  datatype Piece = Replaced(deletion: Span, addition: Span) | Deleted(run: Span) | Added(line: nat)

  function ReplacedPieces(deletions: seq<Span>, additions: seq<Span>, partner: seq<Option<nat>>, count: nat): seq<Piece>
    requires count <= |partner| <= |deletions|
  {
    if count == 0 then []
    else
      ReplacedPieces(deletions, additions, partner, count - 1)
        + (if partner[count - 1].Some? && partner[count - 1].value < |additions|
           then [Replaced(deletions[count - 1], additions[partner[count - 1].value])] else [])
  }

  function DeletedPieces(deletions: seq<Span>, partner: seq<Option<nat>>, count: nat): seq<Piece>
    requires count <= |partner| <= |deletions|
  {
    if count == 0 then []
    else DeletedPieces(deletions, partner, count - 1) + (if partner[count - 1].None? then [Deleted(deletions[count - 1])] else [])
  }

  function LinePieces(first: int, upto: int): (pieces: seq<Piece>)
    ensures |pieces| == if first < upto && 0 <= first then upto - first else 0
    ensures forall i :: 0 <= i < |pieces| ==> 0 <= first + i && pieces[i] == Added(first + i)
    decreases upto - first
  {
    if first < 0 || upto <= first then [] else LinePieces(first, upto - 1) + [Added(upto - 1)]
  }

  function AddedPieces(additions: seq<Span>, paired: set<nat>, count: nat): seq<Piece>
    requires count <= |additions|
  {
    if count == 0 then []
    else
      AddedPieces(additions, paired, count - 1)
        + (if count - 1 in paired then [] else LinePieces(additions[count - 1].first, additions[count - 1].last + 1))
  }

  /** How many of the first pieces delete a baseline line. */
  function TimesDeleted(pieces: seq<Piece>, count: nat, x: int): nat
    requires count <= |pieces|
  {
    if count == 0 then 0
    else
      var here := match pieces[count - 1]
        case Replaced(run, _) => run.first <= x <= run.last
        case Deleted(run) => run.first <= x <= run.last
        case Added(_) => false;
      TimesDeleted(pieces, count - 1, x) + if here then 1 else 0
  }

  /** How many of the first pieces add a worktree line. */
  function TimesAdded(pieces: seq<Piece>, count: nat, x: int): nat
    requires count <= |pieces|
  {
    if count == 0 then 0
    else
      var here := match pieces[count - 1]
        case Replaced(_, run) => run.first <= x <= run.last
        case Deleted(_) => false
        case Added(line) => line == x;
      TimesAdded(pieces, count - 1, x) + if here then 1 else 0
  }

  lemma {:induction false} TimesAppend(a: seq<Piece>, b: seq<Piece>, count: nat, x: int)
    requires count <= |b|
    ensures TimesDeleted(a + b, |a| + count, x) == TimesDeleted(a, |a|, x) + TimesDeleted(b, count, x)
    ensures TimesAdded(a + b, |a| + count, x) == TimesAdded(a, |a|, x) + TimesAdded(b, count, x)
  {
    if count == 0 {
      TimesPrefix(a, b, |a|, x);
    } else {
      TimesAppend(a, b, count - 1, x);
      assert (a + b)[|a| + count - 1] == b[count - 1];
    }
  }

  lemma {:induction false} TimesPrefix(a: seq<Piece>, b: seq<Piece>, count: nat, x: int)
    requires count <= |a|
    ensures TimesDeleted(a + b, count, x) == TimesDeleted(a, count, x)
    ensures TimesAdded(a + b, count, x) == TimesAdded(a, count, x)
  {
    if count > 0 {
      TimesPrefix(a, b, count - 1, x);
    }
  }

  lemma {:induction false} LinePiecesTimes(first: nat, upto: int, x: int)
    ensures var pieces := LinePieces(first, upto);
      && TimesDeleted(pieces, |pieces|, x) == 0
      && TimesAdded(pieces, |pieces|, x) == if first <= x < upto then 1 else 0
    decreases upto - first
  {
    if first < upto {
      LinePiecesTimes(first, upto - 1, x);
      TimesAppend(LinePieces(first, upto - 1), [Added(upto - 1)], 1, x);
      OneAdded(upto - 1, x);
    }
  }

  lemma OneAdded(line: nat, x: int)
    ensures TimesDeleted([Added(line)], 1, x) == 0 && TimesAdded([Added(line)], 1, x) == if line == x then 1 else 0
  {
    assert TimesDeleted([Added(line)], 0, x) == 0 && TimesAdded([Added(line)], 0, x) == 0;
  }

  predicate InRun(run: Span, x: int) {
    run.first <= x <= run.last
  }

  lemma OneRunOnly(runs: seq<Span>, i: nat, j: nat, x: int)
    requires Normalized(runs) && i < |runs| && j < |runs| && InRun(runs[i], x) && InRun(runs[j], x)
    ensures i == j
  {
  }

  lemma EarlierRunsMiss(runs: seq<Span>, count: nat, x: int)
    requires Normalized(runs) && count < |runs| && InRun(runs[count], x)
    ensures !Contains(runs[..count], x)
    ensures forall i :: 0 <= i < count ==> !InRun(runs[i], x)
  {
  }

  lemma ContainsPrefix(runs: seq<Span>, count: nat, x: int)
    requires 0 < count <= |runs|
    ensures Contains(runs[..count], x) <==> Contains(runs[..count - 1], x) || InRun(runs[count - 1], x)
  {
    assert runs[..count] == runs[..count - 1] + [runs[count - 1]];
    ContainsAppend(runs[..count - 1], runs[count - 1], x);
  }

  /** Each deletion run goes into exactly one piece. */
  lemma OneMoreDeletion(deletions: seq<Span>, additions: seq<Span>, partner: seq<Option<nat>>, count: nat, x: int)
    requires 0 < count <= |partner| == |deletions|
    requires forall d :: 0 <= d < |partner| && partner[d].Some? ==> partner[d].value < |additions|
    ensures var replaced, deleted := ReplacedPieces(deletions, additions, partner, count), DeletedPieces(deletions, partner, count);
      var replacedBefore, deletedBefore := ReplacedPieces(deletions, additions, partner, count - 1), DeletedPieces(deletions, partner, count - 1);
      TimesDeleted(replaced, |replaced|, x) + TimesDeleted(deleted, |deleted|, x)
        == TimesDeleted(replacedBefore, |replacedBefore|, x) + TimesDeleted(deletedBefore, |deletedBefore|, x)
           + if InRun(deletions[count - 1], x) then 1 else 0
  {
    hide TimesDeleted, TimesAdded;
    var replaced, deleted := ReplacedPieces(deletions, additions, partner, count - 1), DeletedPieces(deletions, partner, count - 1);
    var run := deletions[count - 1];
    match partner[count - 1] {
      case Some(a) =>
        TimesAppend(replaced, [Replaced(run, additions[a])], 1, x);
        OnePiece(Replaced(run, additions[a]), x);
        assert deleted + [] == deleted;
      case None =>
        TimesAppend(deleted, [Deleted(run)], 1, x);
        OnePiece(Deleted(run), x);
        assert replaced + [] == replaced;
    }
  }

  lemma {:induction false} DeletionsOnce(deletions: seq<Span>, additions: seq<Span>, partner: seq<Option<nat>>, count: nat, x: int)
    requires Normalized(deletions) && count <= |partner| == |deletions|
    requires forall d :: 0 <= d < |partner| && partner[d].Some? ==> partner[d].value < |additions|
    ensures var replaced, deleted := ReplacedPieces(deletions, additions, partner, count), DeletedPieces(deletions, partner, count);
      TimesDeleted(replaced, |replaced|, x) + TimesDeleted(deleted, |deleted|, x) == if Contains(deletions[..count], x) then 1 else 0
  {
    if count > 0 {
      hide Contains, Normalized, TimesDeleted, InRun, ReplacedPieces, DeletedPieces;
      DeletionsOnce(deletions, additions, partner, count - 1, x);
      OneMoreDeletion(deletions, additions, partner, count, x);
      ContainsPrefix(deletions, count, x);
      if InRun(deletions[count - 1], x) {
        EarlierRunsMiss(deletions, count - 1, x);
      }
    }
  }

  lemma OnePiece(piece: Piece, x: int)
    requires !piece.Added?
    ensures TimesDeleted([piece], 1, x) == if InRun(if piece.Replaced? then piece.deletion else piece.run, x) then 1 else 0
    ensures TimesAdded([piece], 1, x) == if piece.Replaced? && InRun(piece.addition, x) then 1 else 0
  {
    assert TimesDeleted([piece], 0, x) == 0 && TimesAdded([piece], 0, x) == 0;
  }

  lemma {:induction false} DeletedPiecesAddNothing(deletions: seq<Span>, partner: seq<Option<nat>>, count: nat, x: int)
    requires count <= |partner| <= |deletions|
    ensures TimesAdded(DeletedPieces(deletions, partner, count), |DeletedPieces(deletions, partner, count)|, x) == 0
  {
    if count > 0 {
      DeletedPiecesAddNothing(deletions, partner, count - 1, x);
      var before := DeletedPieces(deletions, partner, count - 1);
      if partner[count - 1].None? {
        TimesAppend(before, [Deleted(deletions[count - 1])], 1, x);
        OnePiece(Deleted(deletions[count - 1]), x);
      } else {
        assert before + [] == before;
      }
    }
  }

  /** How many of the first deletion runs are paired with an addition run. */
  function TimesPaired(partner: seq<Option<nat>>, count: nat, a: nat): nat
    requires count <= |partner|
  {
    if count == 0 then 0 else TimesPaired(partner, count - 1, a) + if partner[count - 1] == Some(a) then 1 else 0
  }

  lemma {:induction false} PairedOnce(partner: seq<Option<nat>>, count: nat, a: nat)
    requires count <= |partner|
    requires forall d, e :: 0 <= d < e < |partner| && partner[d].Some? ==> partner[d] != partner[e]
    ensures TimesPaired(partner, count, a) == if exists d :: 0 <= d < count && partner[d] == Some(a) then 1 else 0
  {
    if count > 0 {
      PairedOnce(partner, count - 1, a);
      if partner[count - 1] == Some(a) {
        assert forall d :: 0 <= d < count - 1 ==> partner[d] != Some(a);
      }
    }
  }

  /** The replaced pieces add a line of an addition run once for every deletion run paired with it. */
  lemma {:induction false} ReplacedAdds(deletions: seq<Span>, additions: seq<Span>, partner: seq<Option<nat>>, count: nat, x: int, a: nat)
    requires Normalized(additions) && count <= |partner| == |deletions|
    requires forall d :: 0 <= d < |partner| && partner[d].Some? ==> partner[d].value < |additions|
    requires a < |additions| && InRun(additions[a], x)
    ensures var replaced := ReplacedPieces(deletions, additions, partner, count);
      TimesAdded(replaced, |replaced|, x) == TimesPaired(partner, count, a)
  {
    if count > 0 {
      ReplacedAdds(deletions, additions, partner, count - 1, x, a);
      var before := ReplacedPieces(deletions, additions, partner, count - 1);
      match partner[count - 1] {
        case Some(b) =>
          TimesAppend(before, [Replaced(deletions[count - 1], additions[b])], 1, x);
          OnePiece(Replaced(deletions[count - 1], additions[b]), x);
          if InRun(additions[b], x) {
            OneRunOnly(additions, a, b, x);
          }
        case None =>
          assert before + [] == before;
      }
    }
  }

  lemma {:induction false} ReplacedAddsOnlyRuns(deletions: seq<Span>, additions: seq<Span>, partner: seq<Option<nat>>, count: nat, x: int)
    requires count <= |partner| == |deletions|
    requires forall d :: 0 <= d < |partner| && partner[d].Some? ==> partner[d].value < |additions|
    requires forall a :: 0 <= a < |additions| ==> !InRun(additions[a], x)
    ensures var replaced := ReplacedPieces(deletions, additions, partner, count);
      TimesAdded(replaced, |replaced|, x) == 0
  {
    if count > 0 {
      ReplacedAddsOnlyRuns(deletions, additions, partner, count - 1, x);
      var before := ReplacedPieces(deletions, additions, partner, count - 1);
      match partner[count - 1] {
        case Some(b) =>
          TimesAppend(before, [Replaced(deletions[count - 1], additions[b])], 1, x);
          OnePiece(Replaced(deletions[count - 1], additions[b]), x);
        case None =>
          assert before + [] == before;
      }
    }
  }

  /** Some unpaired run among the first ones holds a line. */
  ghost predicate InUnpaired(additions: seq<Span>, paired: set<nat>, count: nat, x: int)
    requires count <= |additions|
  {
    exists a :: 0 <= a < count && a !in paired && InRun(additions[a], x)
  }

  lemma UnpairedNext(additions: seq<Span>, paired: set<nat>, count: nat, x: int)
    requires Normalized(additions) && count < |additions|
    ensures InUnpaired(additions, paired, count + 1, x) <==>
      InUnpaired(additions, paired, count, x) || (count !in paired && InRun(additions[count], x))
    ensures InUnpaired(additions, paired, count, x) ==> !InRun(additions[count], x)
  {
    if InRun(additions[count], x) {
      EarlierRunsMiss(additions, count, x);
    }
  }

  /** The added pieces hold each line of an unpaired run once. */
  lemma {:induction false} AddedAdds(additions: seq<Span>, paired: set<nat>, count: nat, x: int)
    requires Normalized(additions) && count <= |additions| && forall a :: 0 <= a < |additions| ==> 0 <= additions[a].first
    ensures var added := AddedPieces(additions, paired, count);
      && TimesDeleted(added, |added|, x) == 0
      && TimesAdded(added, |added|, x) == if InUnpaired(additions, paired, count, x) then 1 else 0
  {
    hide InUnpaired, TimesDeleted, TimesAdded;
    if count == 0 {
      NothingUnpaired(additions, paired, x);
    } else {
      AddedAdds(additions, paired, count - 1, x);
      UnpairedNext(additions, paired, count - 1, x);
      var before, run := AddedPieces(additions, paired, count - 1), additions[count - 1];
      if count - 1 in paired {
        assert before + [] == before;
      } else {
        var lines := LinePieces(run.first, run.last + 1);
        LinePiecesTimes(run.first, run.last + 1, x);
        TimesAppend(before, lines, |lines|, x);
      }
    }
  }

  lemma NothingUnpaired(additions: seq<Span>, paired: set<nat>, x: int)
    ensures !InUnpaired(additions, paired, 0, x)
    ensures TimesDeleted([], 0, x) == 0 && TimesAdded([], 0, x) == 0
  {
  }

  function AllPieces(deletions: seq<Span>, additions: seq<Span>, partner: seq<Option<nat>>, paired: set<nat>): seq<Piece>
    requires |partner| == |deletions|
  {
    ReplacedPieces(deletions, additions, partner, |partner|) + DeletedPieces(deletions, partner, |partner|)
      + AddedPieces(additions, paired, |additions|)
  }

  /** A finished pairing of the unmatched runs. */
  ghost predicate Paired(comparison: Comparison, m: LineMapping, deletions: seq<Span>, additions: seq<Span>,
                         partner: seq<Option<nat>>, paired: set<nat>) {
    && BothRuns(comparison, m, deletions, additions)
    && |partner| == |deletions| && PairedUpTo(m, deletions, additions, partner)
    && forall a :: a in paired <==> exists d :: 0 <= d < |partner| && partner[d] == Some(a)
  }

  lemma AllTimes(deletions: seq<Span>, additions: seq<Span>, partner: seq<Option<nat>>, paired: set<nat>, x: int)
    requires |partner| == |deletions|
    ensures var all := AllPieces(deletions, additions, partner, paired);
      var replaced, deleted, added := ReplacedPieces(deletions, additions, partner, |partner|),
        DeletedPieces(deletions, partner, |partner|), AddedPieces(additions, paired, |additions|);
      && TimesDeleted(all, |all|, x) == TimesDeleted(replaced, |replaced|, x) + TimesDeleted(deleted, |deleted|, x) + TimesDeleted(added, |added|, x)
      && TimesAdded(all, |all|, x) == TimesAdded(replaced, |replaced|, x) + TimesAdded(deleted, |deleted|, x) + TimesAdded(added, |added|, x)
  {
    hide ReplacedPieces, DeletedPieces, AddedPieces;
    var replaced, deleted, added := ReplacedPieces(deletions, additions, partner, |partner|),
      DeletedPieces(deletions, partner, |partner|), AddedPieces(additions, paired, |additions|);
    TimesAppend(replaced, deleted, |deleted|, x);
    TimesAppend(replaced + deleted, added, |added|, x);
  }

  /** Every unmatched line of either side is covered exactly once, and no other line is. */
  lemma CoveredOnce(comparison: Comparison, m: LineMapping, deletions: seq<Span>, additions: seq<Span>,
                    partner: seq<Option<nat>>, paired: set<nat>, x: int)
    requires Paired(comparison, m, deletions, additions, partner, paired)
    ensures var all := AllPieces(deletions, additions, partner, paired);
      && TimesDeleted(all, |all|, x) == (if 1 <= x <= |comparison.baseline| && x !in m.toTarget then 1 else 0)
      && TimesAdded(all, |all|, x) == (if 1 <= x <= |comparison.working| && x !in m.toSource then 1 else 0)
  {
    AllTimes(deletions, additions, partner, paired, x);
    DeletionsOnce(deletions, additions, partner, |partner|, x);
    assert deletions[..|partner|] == deletions;
    DeletedPiecesAddNothing(deletions, partner, |partner|, x);
    AdditionsArePositive(comparison, m, deletions, additions);
    AddedAdds(additions, paired, |additions|, x);
    AddedOnce(comparison, m, deletions, additions, partner, paired, x);
  }

  lemma AdditionsArePositive(comparison: Comparison, m: LineMapping, deletions: seq<Span>, additions: seq<Span>)
    requires BothRuns(comparison, m, deletions, additions)
    ensures forall a :: 0 <= a < |additions| ==> 1 <= additions[a].first <= additions[a].last
  {
    forall a | 0 <= a < |additions| ensures 1 <= additions[a].first {
      assert Contains(additions, additions[a].first);
    }
  }

  lemma AddedOnce(comparison: Comparison, m: LineMapping, deletions: seq<Span>, additions: seq<Span>,
                  partner: seq<Option<nat>>, paired: set<nat>, x: int)
    requires Paired(comparison, m, deletions, additions, partner, paired)
    ensures var replaced, added := ReplacedPieces(deletions, additions, partner, |partner|), AddedPieces(additions, paired, |additions|);
      TimesAdded(replaced, |replaced|, x) + TimesAdded(added, |added|, x) == if Contains(additions, x) then 1 else 0
  {
    AdditionsArePositive(comparison, m, deletions, additions);
    AddedAdds(additions, paired, |additions|, x);
    if a :| 0 <= a < |additions| && InRun(additions[a], x) {
      forall d, e | 0 <= d < e < |partner| && partner[d].Some? ensures partner[d] != partner[e] {
        PartnersDiffer(comparison, m, deletions, additions, partner, d, e);
      }
      ReplacedAdds(deletions, additions, partner, |partner|, x, a);
      PairedOnce(partner, |partner|, a);
      forall b | 0 <= b < |additions| && InRun(additions[b], x) ensures b == a {
        OneRunOnly(additions, a, b, x);
      }
      assert Contains(additions, x);
    } else {
      ReplacedAddsOnlyRuns(deletions, additions, partner, |partner|, x);
    }
  }

  // --------------------------------------------------------------- the units

  /** The lines of a run, as the file has them. */
  function RunLines(lines: seq<Line>, run: Span): seq<Line> {
    if 1 <= run.first <= run.last <= |lines| then lines[run.first - 1..run.last] else []
  }

  function LineAt(lines: seq<Line>, line: int): Line {
    if 1 <= line <= |lines| then lines[line - 1] else Line("")
  }

  /** A paired run keeps its one line as content, and several lines as a fingerprint. */
  function AdditionContent(comparison: Comparison, run: Span): Option<Line> {
    if run.first == run.last then Some(LineAt(comparison.working, run.first)) else None
  }

  function AdditionFingerprint(digests: Digests, comparison: Comparison, run: Span): Option<Fingerprint> {
    if run.first == run.last then None else Some(digests.ofLines(RunLines(comparison.working, run)))
  }

  function Number(line: int): Option<nat> {
    if line < 0 then None else Some(line)
  }

  function UnitOf(digests: Digests, comparison: Comparison, m: LineMapping, piece: Piece): AttributionUnit {
    match piece
    case Replaced(deletion, addition) =>
      var removed := Some(digests.ofLines(RunLines(comparison.baseline, deletion)));
      var content, fingerprint := AdditionContent(comparison, addition), AdditionFingerprint(digests, comparison, addition);
      var anchor := DeletionAnchor(m, deletion);
      AttributionUnit(
        UnitId(digests, Replacement, comparison.path, Number(addition.first), content, fingerprint, anchor, removed),
        Replacement, Number(addition.first), content, anchor, removed, fingerprint, Number(addition.last - addition.first + 1))
    case Deleted(run) =>
      var removed := Some(digests.ofLines(RunLines(comparison.baseline, run)));
      var anchor := DeletionAnchor(m, run);
      AttributionUnit(UnitId(digests, DeletionOnly, comparison.path, None, None, None, anchor, removed),
        DeletionOnly, None, None, anchor, removed, None, None)
    case Added(line) =>
      var content := Some(LineAt(comparison.working, line));
      AttributionUnit(UnitId(digests, PresenceOnly, comparison.path, Some(line), content, None, None, None),
        PresenceOnly, Some(line), content, None, None, None, None)
  }

  /** Where in the file a piece is: its kind, and its line or anchor. */
  datatype Place = Place(kind: UnitKind, at: Option<nat>)

  function PlaceOf(m: LineMapping, piece: Piece): Place {
    match piece
    case Replaced(_, addition) => Place(Replacement, Number(addition.first))
    case Deleted(run) => Place(DeletionOnly, DeletionAnchor(m, run))
    case Added(line) => Place(PresenceOnly, Some(line))
  }

  lemma IdsTellPlaces(digests: Digests, comparison: Comparison, m: LineMapping, a: Piece, b: Piece)
    requires UnitOf(digests, comparison, m, a).id == UnitOf(digests, comparison, m, b).id
    ensures PlaceOf(m, a) == PlaceOf(m, b)
  {
    hide UnitId;
    var x, y := UnitOf(digests, comparison, m, a), UnitOf(digests, comparison, m, b);
    IdTellsPlace(digests, comparison.path, x.kind, x.line, x.content, x.fingerprint, x.anchor, x.deletion,
      y.kind, y.line, y.content, y.fingerprint, y.anchor, y.deletion);
  }

  lemma PlacesTellIds(digests: Digests, comparison: Comparison, m: LineMapping, a: Piece, b: Piece)
    requires PlaceOf(m, a) != PlaceOf(m, b)
    ensures UnitOf(digests, comparison, m, a).id != UnitOf(digests, comparison, m, b).id
  {
    hide UnitOf, PlaceOf;
    if UnitOf(digests, comparison, m, a).id == UnitOf(digests, comparison, m, b).id {
      IdsTellPlaces(digests, comparison, m, a, b);
    }
  }

  ghost predicate DistinctPlaces(m: LineMapping, pieces: seq<Piece>) {
    forall i, j :: 0 <= i < j < |pieces| ==> PlaceOf(m, pieces[i]) != PlaceOf(m, pieces[j])
  }

  lemma AppendDistinct(m: LineMapping, pieces: seq<Piece>, next: Piece)
    requires DistinctPlaces(m, pieces) && forall i :: 0 <= i < |pieces| ==> PlaceOf(m, pieces[i]) != PlaceOf(m, next)
    ensures DistinctPlaces(m, pieces + [next])
  {
  }

  /** Pieces of one kind, all at different places. */
  ghost predicate DistinctOfKind(m: LineMapping, pieces: seq<Piece>, kind: UnitKind) {
    DistinctPlaces(m, pieces) && forall i :: 0 <= i < |pieces| ==> PlaceOf(m, pieces[i]).kind == kind
  }

  lemma JoinDistinct(m: LineMapping, a: seq<Piece>, b: seq<Piece>, kind: UnitKind)
    requires DistinctPlaces(m, a) && DistinctOfKind(m, b, kind)
    requires forall i :: 0 <= i < |a| ==> PlaceOf(m, a[i]).kind != kind
    ensures DistinctPlaces(m, a + b)
  {
    hide PlaceOf;
  }

  /** The piece joins one of the first deletion runs with its partner. */
  ghost predicate FromPair(deletions: seq<Span>, additions: seq<Span>, partner: seq<Option<nat>>, count: nat, piece: Piece) {
    exists d :: 0 <= d < count && d < |partner| && d < |deletions| && partner[d].Some? && partner[d].value < |additions|
      && piece == Replaced(deletions[d], additions[partner[d].value])
  }

  lemma FromPairDiffers(comparison: Comparison, m: LineMapping, deletions: seq<Span>, additions: seq<Span>,
                        partner: seq<Option<nat>>, paired: set<nat>, d: nat, piece: Piece)
    requires Paired(comparison, m, deletions, additions, partner, paired)
    requires d < |partner| && partner[d].Some? && partner[d].value < |additions| && FromPair(deletions, additions, partner, d, piece)
    ensures PlaceOf(m, piece) != PlaceOf(m, Replaced(deletions[d], additions[partner[d].value]))
  {
    var e: nat :| 0 <= e < d && e < |partner| && e < |deletions| && partner[e].Some? && partner[e].value < |additions|
      && piece == Replaced(deletions[e], additions[partner[e].value]);
    PartnersDiffer(comparison, m, deletions, additions, partner, e, d);
    DifferentRunsStartApart(comparison, m, deletions, additions, partner[e].value, partner[d].value);
  }

  lemma FromPairSteps(deletions: seq<Span>, additions: seq<Span>, partner: seq<Option<nat>>, count: nat)
    requires count < |partner| == |deletions|
    ensures forall piece :: FromPair(deletions, additions, partner, count, piece) ==> FromPair(deletions, additions, partner, count + 1, piece)
    ensures partner[count].Some? && partner[count].value < |additions| ==>
      FromPair(deletions, additions, partner, count + 1, Replaced(deletions[count], additions[partner[count].value]))
  {
  }

  lemma PartnersExist(comparison: Comparison, m: LineMapping, deletions: seq<Span>, additions: seq<Span>,
                      partner: seq<Option<nat>>, paired: set<nat>)
    requires Paired(comparison, m, deletions, additions, partner, paired)
    ensures |partner| == |deletions| && forall d :: 0 <= d < |partner| && partner[d].Some? ==> partner[d].value < |additions|
  {
  }

  lemma {:induction false} ReplacedAreDistinct(comparison: Comparison, m: LineMapping, deletions: seq<Span>, additions: seq<Span>,
                                               partner: seq<Option<nat>>, paired: set<nat>, count: nat)
    requires Paired(comparison, m, deletions, additions, partner, paired) && count <= |partner| == |deletions|
    ensures DistinctOfKind(m, ReplacedPieces(deletions, additions, partner, count), Replacement)
    ensures var pieces := ReplacedPieces(deletions, additions, partner, count);
      forall i :: 0 <= i < |pieces| ==> FromPair(deletions, additions, partner, count, pieces[i])
  {
    hide Paired, FromPair, DeletionAnchor;
    if count > 0 {
      ReplacedAreDistinct(comparison, m, deletions, additions, partner, paired, count - 1);
      PartnersExist(comparison, m, deletions, additions, partner, paired);
      FromPairSteps(deletions, additions, partner, count - 1);
      var before := ReplacedPieces(deletions, additions, partner, count - 1);
      if partner[count - 1].Some? {
        var next := Replaced(deletions[count - 1], additions[partner[count - 1].value]);
        forall i | 0 <= i < |before| ensures PlaceOf(m, before[i]) != PlaceOf(m, next) {
          FromPairDiffers(comparison, m, deletions, additions, partner, paired, count - 1, before[i]);
        }
        AppendDistinct(m, before, next);
      } else {
        assert before + [] == before;
      }
    }
  }

  lemma DifferentRunsStartApart(comparison: Comparison, m: LineMapping, deletions: seq<Span>, additions: seq<Span>, a: nat, b: nat)
    requires BothRuns(comparison, m, deletions, additions) && a < |additions| && b < |additions| && a != b
    ensures Number(additions[a].first) != Number(additions[b].first)
  {
    AdditionsArePositive(comparison, m, deletions, additions);
    assert a < b ==> additions[a].last + 1 < additions[b].first;
    assert b < a ==> additions[b].last + 1 < additions[a].first;
  }

  /** Pieces that are among the first deletion runs. */
  ghost predicate FromDeletions(pieces: seq<Piece>, deletions: seq<Span>, count: nat)
    requires count <= |deletions|
  {
    forall i :: 0 <= i < |pieces| ==> exists d :: 0 <= d < count && pieces[i] == Deleted(deletions[d])
  }

  lemma NextDeletedDiffers(comparison: Comparison, m: LineMapping, deletions: seq<Span>, additions: seq<Span>, before: seq<Piece>, count: nat)
    requires BothRuns(comparison, m, deletions, additions) && count < |deletions| && FromDeletions(before, deletions, count)
    ensures forall i :: 0 <= i < |before| ==> PlaceOf(m, before[i]) != PlaceOf(m, Deleted(deletions[count]))
    ensures FromDeletions(before, deletions, count + 1) && FromDeletions(before + [Deleted(deletions[count])], deletions, count + 1)
  {
    hide BothRuns;
    forall i | 0 <= i < |before| ensures PlaceOf(m, before[i]) != PlaceOf(m, Deleted(deletions[count])) {
      var d :| 0 <= d < count && before[i] == Deleted(deletions[d]);
      DeletionAnchorsDiffer(comparison, m, deletions, additions, d, count);
    }
  }

  lemma {:induction false} DeletedAreDistinct(comparison: Comparison, m: LineMapping, deletions: seq<Span>, additions: seq<Span>,
                                              partner: seq<Option<nat>>, count: nat)
    requires BothRuns(comparison, m, deletions, additions) && |partner| == |deletions| && count <= |partner|
    ensures DistinctOfKind(m, DeletedPieces(deletions, partner, count), DeletionOnly)
    ensures FromDeletions(DeletedPieces(deletions, partner, count), deletions, count)
  {
    if count > 0 {
      hide BothRuns, FromDeletions, DistinctPlaces;
      DeletedAreDistinct(comparison, m, deletions, additions, partner, count - 1);
      var before, next := DeletedPieces(deletions, partner, count - 1), Deleted(deletions[count - 1]);
      NextDeletedDiffers(comparison, m, deletions, additions, before, count - 1);
      AppendDistinct(m, before, next);
      assert before + [] == before;
    }
  }

  /** Added lines ascend. */
  ghost predicate Ascend(pieces: seq<Piece>, limit: int) {
    && (forall i :: 0 <= i < |pieces| ==> pieces[i].Added? && pieces[i].line <= limit)
    && (forall i, j :: 0 <= i < j < |pieces| ==> pieces[i].Added? && pieces[j].Added? && pieces[i].line < pieces[j].line)
  }

  lemma AscendFurther(pieces: seq<Piece>, limit: int, first: int, last: int)
    requires Ascend(pieces, limit) && limit < first <= last
    ensures Ascend(pieces + LinePieces(first, last + 1), last)
  {
  }

  lemma {:induction false} AddedAscend(additions: seq<Span>, paired: set<nat>, count: nat)
    requires Normalized(additions) && count <= |additions| && forall a :: 0 <= a < |additions| ==> 1 <= additions[a].first
    ensures Ascend(AddedPieces(additions, paired, count), if count == 0 then 0 else additions[count - 1].last)
  {
    if count > 0 {
      AddedAscend(additions, paired, count - 1);
      assert count > 1 ==> additions[count - 2].last + 1 < additions[count - 1].first;
      var before := AddedPieces(additions, paired, count - 1);
      if count - 1 in paired {
        assert before + [] == before;
      } else {
        AscendFurther(before, if count == 1 then 0 else additions[count - 2].last, additions[count - 1].first, additions[count - 1].last);
      }
    }
  }

  lemma AscendIsDistinct(m: LineMapping, pieces: seq<Piece>, limit: int)
    requires Ascend(pieces, limit)
    ensures DistinctOfKind(m, pieces, PresenceOnly)
  {
  }

  /** The pieces are at different places. */
  lemma PiecesAreDistinct(comparison: Comparison, m: LineMapping, deletions: seq<Span>, additions: seq<Span>,
                          partner: seq<Option<nat>>, paired: set<nat>)
    requires Paired(comparison, m, deletions, additions, partner, paired)
    ensures DistinctPlaces(m, AllPieces(deletions, additions, partner, paired))
  {
    ReplacedAreDistinct(comparison, m, deletions, additions, partner, paired, |partner|);
    DeletedAreDistinct(comparison, m, deletions, additions, partner, |partner|);
    AdditionsArePositive(comparison, m, deletions, additions);
    AddedAscend(additions, paired, |additions|);
    hide ReplacedPieces, DeletedPieces, AddedPieces, Paired, BothRuns, PlaceOf, Ascend, DistinctPlaces;
    var replaced, deleted, added := ReplacedPieces(deletions, additions, partner, |partner|),
      DeletedPieces(deletions, partner, |partner|), AddedPieces(additions, paired, |additions|);
    AscendIsDistinct(m, added, if |additions| == 0 then 0 else additions[|additions| - 1].last);
    JoinDistinct(m, replaced, deleted, DeletionOnly);
    JoinDistinct(m, replaced + deleted, added, PresenceOnly);
  }

  /** No two units of a comparison share an identifier, even if all hashes collide. */
  lemma UnitIdsDiffer(digests: Digests, comparison: Comparison, m: LineMapping, deletions: seq<Span>, additions: seq<Span>,
                      partner: seq<Option<nat>>, paired: set<nat>)
    requires Paired(comparison, m, deletions, additions, partner, paired)
    ensures var all := AllPieces(deletions, additions, partner, paired);
      forall i, j :: 0 <= i < j < |all| ==> UnitOf(digests, comparison, m, all[i]).id != UnitOf(digests, comparison, m, all[j]).id
  {
    PiecesAreDistinct(comparison, m, deletions, additions, partner, paired);
    hide UnitOf, PlaceOf, AllPieces, Paired;
    var all := AllPieces(deletions, additions, partner, paired);
    forall i, j | 0 <= i < j < |all| ensures UnitOf(digests, comparison, m, all[i]).id != UnitOf(digests, comparison, m, all[j]).id {
      assert PlaceOf(m, all[i]) != PlaceOf(m, all[j]);
      PlacesTellIds(digests, comparison, m, all[i], all[j]);
    }
  }

  // ------------------------------------------------------ units and their lines

  /** The worktree lines that a unit claims. */
  predicate UnitAdds(unit: AttributionUnit, x: nat) {
    && unit.line.Some?
    && match unit.kind
       case PresenceOnly => unit.line.value == x
       case Replacement => unit.lineCount.Some? && unit.line.value <= x < unit.line.value + unit.lineCount.value
       case DeletionOnly => false
  }

  predicate PieceAdds(piece: Piece, x: nat) {
    match piece
    case Replaced(_, run) => InRun(run, x)
    case Deleted(_) => false
    case Added(line) => line == x
  }

  lemma {:induction false} TimesAddedIs(pieces: seq<Piece>, count: nat, x: nat)
    requires count <= |pieces|
    ensures TimesAdded(pieces, count, x) == 0 <==> forall i :: 0 <= i < count ==> !PieceAdds(pieces[i], x)
    ensures TimesAdded(pieces, count, x) <= 1 ==>
      forall i, j :: 0 <= i < j < count ==> !(PieceAdds(pieces[i], x) && PieceAdds(pieces[j], x))
  {
    if count > 0 {
      TimesAddedIs(pieces, count - 1, x);
    }
  }

  ghost predicate RunsArePositive(pieces: seq<Piece>) {
    forall i :: 0 <= i < |pieces| && pieces[i].Replaced? ==> 0 <= pieces[i].addition.first <= pieces[i].addition.last
  }

  lemma PiecesArePositive(comparison: Comparison, m: LineMapping, deletions: seq<Span>, additions: seq<Span>,
                          partner: seq<Option<nat>>, paired: set<nat>)
    requires Paired(comparison, m, deletions, additions, partner, paired)
    ensures RunsArePositive(AllPieces(deletions, additions, partner, paired))
  {
    ReplacedAreDistinct(comparison, m, deletions, additions, partner, paired, |partner|);
    DeletedAreDistinct(comparison, m, deletions, additions, partner, |partner|);
    AdditionsArePositive(comparison, m, deletions, additions);
    AddedAscend(additions, paired, |additions|);
    var replaced := ReplacedPieces(deletions, additions, partner, |partner|);
    forall i | 0 <= i < |replaced| ensures 0 <= replaced[i].addition.first <= replaced[i].addition.last {
      assert FromPair(deletions, additions, partner, |partner|, replaced[i]);
    }
  }

  lemma UnitAddsWhatItsPieceAdds(digests: Digests, comparison: Comparison, m: LineMapping, piece: Piece, x: nat)
    requires piece.Replaced? ==> 0 <= piece.addition.first <= piece.addition.last
    ensures UnitAdds(UnitOf(digests, comparison, m, piece), x) <==> PieceAdds(piece, x)
  {
    hide UnitId;
  }

  /** Every worktree line without a baseline line is claimed by exactly one of the stored units, and no other line is. */
  ghost predicate ClaimedOnce(comparison: Comparison, units: map<string, AttributionUnit>, x: nat) {
    && ((exists id :: id in units && UnitAdds(units[id], x)) <==> comparison.IsAdded(x))
    && forall a, b :: a in units && b in units && UnitAdds(units[a], x) && UnitAdds(units[b], x) ==> a == b
  }

  lemma StoredUnitsClaimOnce(digests: Digests, comparison: Comparison, m: LineMapping, deletions: seq<Span>, additions: seq<Span>,
                             partner: seq<Option<nat>>, paired: set<nat>, x: nat)
    requires Paired(comparison, m, deletions, additions, partner, paired)
    ensures var pieces := AllPieces(deletions, additions, partner, paired);
      ClaimedOnce(comparison, InsertUpTo(digests, comparison, m, map[], pieces, |pieces|), x)
  {
    UnitIdsDiffer(digests, comparison, m, deletions, additions, partner, paired);
    CoveredOnce(comparison, m, deletions, additions, partner, paired, x);
    PiecesArePositive(comparison, m, deletions, additions, partner, paired);
    UnmatchedIsAdded(comparison, m, x);
    hide AllPieces, Paired, UnitOf, UnitAdds, PieceAdds, TimesAdded;
    var pieces := AllPieces(deletions, additions, partner, paired);
    var units := InsertUpTo(digests, comparison, m, map[], pieces, |pieces|);
    TimesAddedIs(pieces, |pieces|, x);
    EveryUnitIsStored(digests, comparison, m, pieces, |pieces|);
    forall i | 0 <= i < |pieces| ensures UnitAdds(UnitOf(digests, comparison, m, pieces[i]), x) <==> PieceAdds(pieces[i], x) {
      UnitAddsWhatItsPieceAdds(digests, comparison, m, pieces[i], x);
    }
    StoredClaims(digests, comparison, m, pieces, units, x);
  }

  lemma UnmatchedIsAdded(comparison: Comparison, m: LineMapping, x: nat)
    requires comparison.Matches(m)
    ensures comparison.IsAdded(x) <==> 1 <= x <= |comparison.working| && x !in m.toSource
  {
    if x in m.toSource {
      assert comparison.Aligns(m.toSource[x]);
    }
  }

  lemma StoredClaims(digests: Digests, comparison: Comparison, m: LineMapping, pieces: seq<Piece>, units: map<string, AttributionUnit>, x: nat)
    requires forall i :: 0 <= i < |pieces| ==>
      var unit := UnitOf(digests, comparison, m, pieces[i]); unit.id in units && units[unit.id] == unit
    requires forall id :: id in units ==> exists i :: 0 <= i < |pieces| && UnitOf(digests, comparison, m, pieces[i]).id == id
    requires forall i :: 0 <= i < |pieces| ==> (UnitAdds(UnitOf(digests, comparison, m, pieces[i]), x) <==> PieceAdds(pieces[i], x))
    requires (exists i :: 0 <= i < |pieces| && PieceAdds(pieces[i], x)) <==> comparison.IsAdded(x)
    requires forall i, j :: 0 <= i < j < |pieces| ==> !(PieceAdds(pieces[i], x) && PieceAdds(pieces[j], x))
    ensures ClaimedOnce(comparison, units, x)
  {
    hide UnitOf, UnitAdds, PieceAdds;
  }

  // ------------------------------------------------------------- enumeration

  /** Insert a unit unless its identifier is taken. */
  function SetDefault(units: map<string, AttributionUnit>, unit: AttributionUnit): map<string, AttributionUnit> {
    if unit.id in units then units else units[unit.id := unit]
  }

  function InsertUpTo(digests: Digests, comparison: Comparison, m: LineMapping, units: map<string, AttributionUnit>,
                      pieces: seq<Piece>, count: nat): map<string, AttributionUnit>
    requires count <= |pieces|
  {
    if count == 0 then units
    else SetDefault(InsertUpTo(digests, comparison, m, units, pieces, count - 1), UnitOf(digests, comparison, m, pieces[count - 1]))
  }

  /** Into an empty map every unit goes under its own identifier, and nothing else goes in. */
  lemma {:induction false} EveryUnitIsStored(digests: Digests, comparison: Comparison, m: LineMapping, pieces: seq<Piece>, count: nat)
    requires count <= |pieces|
    requires forall i, j :: 0 <= i < j < |pieces| ==>
      UnitOf(digests, comparison, m, pieces[i]).id != UnitOf(digests, comparison, m, pieces[j]).id
    ensures var units := InsertUpTo(digests, comparison, m, map[], pieces, count);
      && (forall i :: 0 <= i < count ==> var unit := UnitOf(digests, comparison, m, pieces[i]); unit.id in units && units[unit.id] == unit)
      && (forall id :: id in units ==> exists i :: 0 <= i < count && UnitOf(digests, comparison, m, pieces[i]).id == id)
  {
    hide UnitOf;
    if count > 0 {
      EveryUnitIsStored(digests, comparison, m, pieces, count - 1);
      var unit := UnitOf(digests, comparison, m, pieces[count - 1]);
      assert unit.id !in InsertUpTo(digests, comparison, m, map[], pieces, count - 1);
    }
  }

  /** Enumerate the units of a comparison: replacements, then other deletions, then other additions. */
  method EnumerateUnitsFromFileComparison(digests: Digests, comparison: Comparison, units: map<string, AttributionUnit>)
    returns (result: map<string, AttributionUnit>, ghost m: LineMapping, ghost deletions: seq<Span>, ghost additions: seq<Span>,
             ghost partner: seq<Option<nat>>, ghost paired: set<nat>)
    requires comparison.Injective()
    ensures Paired(comparison, m, deletions, additions, partner, paired)
    ensures var pieces := AllPieces(deletions, additions, partner, paired);
      result == InsertUpTo(digests, comparison, m, units, pieces, |pieces|)
    ensures units == map[] ==> forall x: nat :: ClaimedOnce(comparison, result, x)
  {
    hide UnitOf, PairedUpTo, ClaimedOnce;
    var matches := BuildMatches(comparison);
    var baselineUnmatched := UnmatchedLines(|comparison.baseline|, matches.toTarget);
    var workingUnmatched := UnmatchedLines(|comparison.working|, matches.toSource);
    var baselineRuns := GroupConsecutive(baselineUnmatched);
    var workingRuns := GroupConsecutive(workingUnmatched);
    var partners, pairedRuns := PairRuns(comparison, matches, baselineRuns, workingRuns);
    m, deletions, additions, partner, paired := matches, baselineRuns, workingRuns, partners, pairedRuns;
    result := InsertPieces(digests, comparison, matches, units, AllPieces(baselineRuns, workingRuns, partners, pairedRuns));
    if units == map[] {
      forall x: nat ensures ClaimedOnce(comparison, result, x) {
        StoredUnitsClaimOnce(digests, comparison, m, deletions, additions, partner, paired, x);
      }
    }
  }

  method InsertPieces(digests: Digests, comparison: Comparison, m: LineMapping, units: map<string, AttributionUnit>, pieces: seq<Piece>)
    returns (result: map<string, AttributionUnit>)
    ensures result == InsertUpTo(digests, comparison, m, units, pieces, |pieces|)
  {
    hide UnitOf;
    result := units;
    var i := 0;
    while i < |pieces|
      invariant 0 <= i <= |pieces| && result == InsertUpTo(digests, comparison, m, units, pieces, i)
    {
      var unit := UnitOf(digests, comparison, m, pieces[i]);
      if unit.id !in result {
        result := result[unit.id := unit];
      }
      i := i + 1;
    }
  }
}
