/**
 Correspondence from source lines back to baseline regions
 (batch/merge/baseline_correspondence.py).
 */
module BaselineCorrespondence {
  import opened Wrappers
  import opened Realized

  datatype RegionKind = Equal | Insert | ReplaceLineByLine | ReplaceByHunk

  /** Source lines first..last (inclusive) and the baseline lines they stand for. */
  datatype Region = Region(first: nat, last: nat, baseline: seq<Line>, kind: RegionKind, id: nat)

  /** Regions in source order with distinct identifiers. */
  ghost predicate Ordered(regions: seq<Region>) {
    && (forall i :: 0 <= i < |regions| ==> 1 <= regions[i].first <= regions[i].last)
    && (forall i, j :: 0 <= i < j < |regions| ==> regions[i].last < regions[j].first && regions[i].id != regions[j].id)
  }

  /** The region that holds a source line. */
  function RegionFor(regions: seq<Region>, line: nat): (r: Option<Region>)
    ensures r.Some? ==> r.value in regions && r.value.first <= line <= r.value.last
    ensures r.None? ==> forall i :: 0 <= i < |regions| ==> !(regions[i].first <= line <= regions[i].last)
  {
    if regions == [] then None
    else if regions[0].first <= line <= regions[0].last then Some(regions[0])
    else RegionFor(regions[1..], line)
  }

  lemma RegionIsUnique(regions: seq<Region>, line: nat, i: nat)
    requires Ordered(regions) && i < |regions| && regions[i].first <= line <= regions[i].last
    ensures RegionFor(regions, line) == Some(regions[i])
  {
    var r := RegionFor(regions, line);
    assert r.Some?;
    var k :| 0 <= k < |regions| && regions[k] == r.value;
    assert !(k < i) && !(i < k);
  }

  /** Binary search over the region starts. */
  method GetRegionForSourceLine(regions: seq<Region>, line: nat) returns (region: Option<Region>)
    requires Ordered(regions)
    ensures region == RegionFor(regions, line)
  {
    var low, high := 0, |regions|;
    while low < high
      invariant 0 <= low <= high <= |regions|
      invariant forall i :: 0 <= i < low ==> regions[i].first <= line
      invariant forall i :: high <= i < |regions| ==> line < regions[i].first
    {
      var middle := (low + high) / 2;
      if line < regions[middle].first {
        high := middle;
      } else {
        low := middle + 1;
      }
    }
    if low == 0 || line > regions[low - 1].last {
      forall k | 0 <= k < |regions| ensures !(regions[k].first <= line <= regions[k].last) {
        if k < low - 1 {
          assert regions[k].last < regions[low - 1].first;
        }
      }
      region := None;
    } else {
      RegionIsUnique(regions, line, low - 1);
      region := Some(regions[low - 1]);
    }
  }
}
