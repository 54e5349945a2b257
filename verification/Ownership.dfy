/** Saved claims in batch-source space (batch/ownership/). */
module Ownership {
  import opened Wrappers
  import opened LineRanges
  import opened Realized

  /** Evidence for one side of a baseline position; no line marks a file edge. */
  datatype Boundary = Unknown | Known(line: Option<nat>, content: Option<Line>)

  datatype BaselineReference = BaselineReference(after: Boundary, before: Boundary)

  /** Old text that must be absent; anchor 0 is the start of the file. */
  datatype AbsenceClaim = AbsenceClaim(
    anchor: nat,
    content: seq<Line>,
    reference: Option<BaselineReference>,
    sourceAlternative: bool)

  /** The replacement region a split unit was cut from, with inclusive line numbers. */
  datatype Origin = Origin(oldStart: int, oldEnd: int, newStart: int, newEnd: int, reference: Option<BaselineReference>)

  /** Coupling of presence lines and absence claims; malformed line specifications are None. */
  datatype ReplacementUnit = ReplacementUnit(presence: Option<seq<Span>>, deletionIndices: seq<int>, origin: Option<Origin>)

  datatype BatchOwnership = BatchOwnership(presence: seq<Span>, deletions: seq<AbsenceClaim>, units: seq<ReplacementUnit>)
  {
    /** Presence lines are stored normalized, and every stored range is non-empty. */
    ghost predicate Valid() {
      && Normalized(presence)
      && (forall i :: 0 <= i < |presence| ==> 1 <= presence[i].first)
      && forall u :: 0 <= u < |units| && units[u].presence.Some? ==>
           var ranges := units[u].presence.value;
           forall i :: 0 <= i < |ranges| ==> 1 <= ranges[i].first <= ranges[i].last
    }
  }
}
