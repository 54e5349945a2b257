/** Line mappings between two versions of a file (batch/line_matching/line_mapping.py). */
module LineMatching {
  import opened Wrappers

  /** Both directions of an alignment, over one-based line numbers. */
  datatype LineMapping = LineMapping(toTarget: map<nat, nat>, toSource: map<nat, nat>)
  {
    function Target(line: nat): Option<nat> {
      if line in toTarget then Some(toTarget[line]) else None
    }

    function Source(line: nat): Option<nat> {
      if line in toSource then Some(toSource[line]) else None
    }

    /** The two directions are inverse to each other. */
    ghost predicate Inverse() {
      && (forall s :: s in toTarget ==> toTarget[s] in toSource && toSource[toTarget[s]] == s)
      && (forall t :: t in toSource ==> toSource[t] in toTarget && toTarget[toSource[t]] == t)
    }

    /** Mapped lines exist in both files, which have these many lines. */
    ghost predicate Within(sourceCount: nat, targetCount: nat) {
      forall s :: s in toTarget ==> 1 <= s <= sourceCount && 1 <= toTarget[s] <= targetCount
    }
  }

  function LinesUpTo(count: nat): (lines: set<nat>)
    ensures forall line :: line in lines <==> 1 <= line <= count
  {
    if count == 0 then {} else LinesUpTo(count - 1) + {count}
  }

  /** The alignment of a file with itself. */
  function Identity(count: nat): LineMapping {
    var same := map line | line in LinesUpTo(count) :: line;
    LineMapping(same, same)
  }
}
