/** Old deletions that duplicate a stored live version (batch/discard.py:1580-1741). */
module SupersededDeletions {
  import opened Wrappers
  import opened MappedRecords
  import opened Realized
  import opened Ownership

  /** Stand-ins for Python's reference hash and the BLAKE2 content digest; any functions will do. */
  datatype Hashes = Hashes(reference: Option<BaselineReference> -> nat, content: seq<Line> -> (nat, nat))

  datatype Alternative = Alternative(unit: nat, reference: nat, high: nat, low: nat, deletion: nat)

  predicate IdentityLess(a: Alternative, b: Alternative) {
    || a.unit < b.unit
    || (a.unit == b.unit &&
        (|| a.reference < b.reference
         || (a.reference == b.reference && (a.high < b.high || (a.high == b.high && a.low < b.low)))))
  }

  predicate SameIdentity(a: Alternative, b: Alternative) {
    a.unit == b.unit && a.reference == b.reference && a.high == b.high && a.low == b.low
  }

  predicate AlternativeLe(a: Alternative, b: Alternative) {
    IdentityLess(a, b) || (SameIdentity(a, b) && a.deletion <= b.deletion)
  }

  lemma AlternativeLeIsTotal()
    ensures TotalOrder(AlternativeLe)
  {
  }

  predicate Valid(ownership: BatchOwnership, index: int) {
    0 <= index < |ownership.deletions|
  }

  function Identify(hashes: Hashes, ownership: BatchOwnership, unit: nat, deletion: nat): Alternative
    requires deletion < |ownership.deletions|
  {
    var claim := ownership.deletions[deletion];
    var digest := hashes.content(claim.content);
    Alternative(unit, hashes.reference(claim.reference), digest.0, digest.1, deletion)
  }

  /** Position p of unit u names a stored live version. */
  predicate NamesAlternative(ownership: BatchOwnership, u: nat, p: nat)
    requires u < |ownership.units| && p < |ownership.units[u].deletionIndices|
  {
    var index := ownership.units[u].deletionIndices[p];
    Valid(ownership, index) && ownership.deletions[index].sourceAlternative
  }

  /** Deletion d repeats a stored live version of unit u. */
  ghost predicate Repeats(ownership: BatchOwnership, u: nat, d: nat)
    requires u < |ownership.units| && d < |ownership.deletions|
  {
    exists p :: 0 <= p < |ownership.units[u].deletionIndices| && NamesAlternative(ownership, u, p) &&
      var other := ownership.deletions[ownership.units[u].deletionIndices[p]];
      other.reference == ownership.deletions[d].reference && other.content == ownership.deletions[d].content
  }

  /** The quadratic definition: some unit with d also holds a live version with equal reference and content. */
  ghost predicate Superseded(ownership: BatchOwnership, d: nat)
    requires d < |ownership.deletions|
  {
    !ownership.deletions[d].sourceAlternative
    && exists u :: 0 <= u < |ownership.units| && d in ownership.units[u].deletionIndices && Repeats(ownership, u, d)
  }

  /** Position q of unit v comes before position p of unit u. */
  predicate Earlier(v: nat, q: nat, u: nat, p: nat) {
    v < u || (v == u && q < p)
  }

  /** The alternatives named by the first p positions of unit u and by all earlier units. */
  ghost predicate Collected(hashes: Hashes, ownership: BatchOwnership, records: seq<Alternative>, u: nat, p: nat) {
    && (forall r :: r in records ==>
         && r.unit < |ownership.units| && r.deletion < |ownership.deletions|
         && r.deletion in ownership.units[r.unit].deletionIndices
         && ownership.deletions[r.deletion].sourceAlternative
         && r == Identify(hashes, ownership, r.unit, r.deletion))
    && (forall v, q :: 0 <= v < |ownership.units| && 0 <= q < |ownership.units[v].deletionIndices|
                       && Earlier(v, q, u, p) && NamesAlternative(ownership, v, q) ==>
         Identify(hashes, ownership, v, ownership.units[v].deletionIndices[q]) in records)
  }

  /** Compute a digest once and keep it. */
  method CachedFingerprint(hashes: Hashes, ownership: BatchOwnership, cache: array<Option<(nat, nat)>>, deletion: nat)
    returns (digest: (nat, nat))
    requires deletion < |ownership.deletions| && CacheIsRight(hashes, ownership, cache[..])
    modifies cache
    ensures CacheIsRight(hashes, ownership, cache[..])
    ensures digest == hashes.content(ownership.deletions[deletion].content)
  {
    if cache[deletion].Some? {
      return cache[deletion].value;
    }
    digest := hashes.content(ownership.deletions[deletion].content);
    cache[deletion] := Some(digest);
  }

  ghost predicate CacheIsRight(hashes: Hashes, ownership: BatchOwnership, cache: seq<Option<(nat, nat)>>) {
    && |cache| == |ownership.deletions|
    && forall d :: 0 <= d < |cache| && cache[d].Some? ==> cache[d].value == hashes.content(ownership.deletions[d].content)
  }

  method CollectAlternatives(hashes: Hashes, ownership: BatchOwnership, cache: array<Option<(nat, nat)>>)
    returns (records: seq<Alternative>)
    requires CacheIsRight(hashes, ownership, cache[..])
    modifies cache
    ensures CacheIsRight(hashes, ownership, cache[..])
    ensures Collected(hashes, ownership, records, |ownership.units|, 0)
  {
    records := [];
    var u := 0;
    while u < |ownership.units|
      invariant 0 <= u <= |ownership.units|
      invariant CacheIsRight(hashes, ownership, cache[..])
      invariant Collected(hashes, ownership, records, u, 0)
    {
      var indices := ownership.units[u].deletionIndices;
      var p := 0;
      while p < |indices|
        invariant 0 <= p <= |indices|
        invariant CacheIsRight(hashes, ownership, cache[..])
        invariant Collected(hashes, ownership, records, u, p)
      {
        if Valid(ownership, indices[p]) && ownership.deletions[indices[p]].sourceAlternative {
          var digest := CachedFingerprint(hashes, ownership, cache, indices[p]);
          records := records + [Alternative(u, hashes.reference(ownership.deletions[indices[p]].reference), digest.0, digest.1, indices[p])];
        }
        p := p + 1;
      }
      u := u + 1;
    }
  }

  /** Binary search for the first record that is not smaller than an identity. */
  method FirstIdentityRecord(records: seq<Alternative>, identity: Alternative) returns (first: nat)
    requires Sorted(records, AlternativeLe)
    ensures first <= |records|
    ensures forall i :: 0 <= i < first ==> IdentityLess(records[i], identity)
    ensures forall i :: first <= i < |records| ==> !IdentityLess(records[i], identity)
  {
    var low, high := 0, |records|;
    while low < high
      invariant 0 <= low <= high <= |records|
      invariant forall i :: 0 <= i < low ==> IdentityLess(records[i], identity)
      invariant forall i :: high <= i < |records| ==> !IdentityLess(records[i], identity)
    {
      var middle := (low + high) / 2;
      if IdentityLess(records[middle], identity) {
        forall i | 0 <= i < middle ensures IdentityLess(records[i], identity) {
          assert AlternativeLe(records[i], records[middle]);
        }
        low := middle + 1;
      } else {
        forall i | middle < i < |records| ensures !IdentityLess(records[i], identity) {
          assert AlternativeLe(records[middle], records[i]);
        }
        high := middle;
      }
    }
    first := low;
  }

  /** Scan the records that share a deletion's identity for one that really matches it. */
  method FindRepeat(hashes: Hashes, ownership: BatchOwnership, records: seq<Alternative>, u: nat, d: nat, digest: (nat, nat))
    returns (found: bool)
    requires u < |ownership.units| && d < |ownership.deletions|
    requires Sorted(records, AlternativeLe) && Collected(hashes, ownership, records, |ownership.units|, 0)
    requires digest == hashes.content(ownership.deletions[d].content)
    ensures found <==> Repeats(ownership, u, d)
  {
    hide Collected, Repeats, Sorted;
    var claim := ownership.deletions[d];
    var identity := Alternative(u, hashes.reference(claim.reference), digest.0, digest.1, 0);
    var i := FirstIdentityRecord(records, identity);
    ghost var first := i;
    while i < |records| && SameIdentity(records[i], identity)
      invariant first <= i <= |records|
      invariant forall j :: first <= j < i ==> !Matches(ownership, records[j], d)
    {
      MatchMeans(hashes, ownership, records, i, u, d);
      if Matches(ownership, records[i], d) {
        return true;
      }
      i := i + 1;
    }
    NoMatchMeans(hashes, ownership, records, first, i, identity, u, d);
    found := false;
  }

  predicate Matches(ownership: BatchOwnership, r: Alternative, d: nat)
    requires d < |ownership.deletions|
  {
    r.deletion < |ownership.deletions|
    && ownership.deletions[r.deletion].reference == ownership.deletions[d].reference
    && ownership.deletions[r.deletion].content == ownership.deletions[d].content
  }

  lemma MatchMeans(hashes: Hashes, ownership: BatchOwnership, records: seq<Alternative>, i: nat, u: nat, d: nat)
    requires u < |ownership.units| && d < |ownership.deletions| && i < |records| && records[i].unit == u
    requires Collected(hashes, ownership, records, |ownership.units|, 0)
    ensures Matches(ownership, records[i], d) ==> Repeats(ownership, u, d)
  {
    var r := records[i];
    assert r in records;
    var indices := ownership.units[u].deletionIndices;
    var p :| 0 <= p < |indices| && indices[p] == r.deletion;
    assert NamesAlternative(ownership, u, p);
  }

  lemma NoMatchMeans(hashes: Hashes, ownership: BatchOwnership, records: seq<Alternative>, first: nat, stop: nat,
                     identity: Alternative, u: nat, d: nat)
    requires u < |ownership.units| && d < |ownership.deletions|
    requires Sorted(records, AlternativeLe) && Collected(hashes, ownership, records, |ownership.units|, 0)
    requires SameIdentity(identity, Identify(hashes, ownership, u, d))
    requires first <= stop <= |records|
    requires forall i :: 0 <= i < first ==> IdentityLess(records[i], identity)
    requires forall i :: first <= i < |records| ==> !IdentityLess(records[i], identity)
    requires forall j :: first <= j < stop ==> !Matches(ownership, records[j], d)
    requires stop < |records| ==> !SameIdentity(records[stop], identity)
    ensures !Repeats(ownership, u, d)
  {
    var indices := ownership.units[u].deletionIndices;
    forall p | 0 <= p < |indices| && NamesAlternative(ownership, u, p)
      ensures !(ownership.deletions[indices[p]].reference == ownership.deletions[d].reference
                && ownership.deletions[indices[p]].content == ownership.deletions[d].content)
    {
      assert Earlier(u, p, |ownership.units|, 0);
      var r := Identify(hashes, ownership, u, indices[p]);
      assert r in records;
      var i :| 0 <= i < |records| && records[i] == r;
      assert first <= i < stop ==> !Matches(ownership, records[i], d);
      assert i > stop ==> AlternativeLe(records[stop], records[i]);
    }
  }

  /** Deletion d is flagged once the positions before p of unit u and all earlier units are done. */
  ghost predicate FlaggedBy(ownership: BatchOwnership, u: nat, p: nat, d: nat)
    requires d < |ownership.deletions|
  {
    && !ownership.deletions[d].sourceAlternative
    && exists v, q :: 0 <= v < |ownership.units| && 0 <= q < |ownership.units[v].deletionIndices|
                      && Earlier(v, q, u, p) && ownership.units[v].deletionIndices[q] == d && Repeats(ownership, v, d)
  }

  lemma FlaggedNext(ownership: BatchOwnership, u: nat, p: nat, d: nat)
    requires d < |ownership.deletions| && u < |ownership.units| && p < |ownership.units[u].deletionIndices|
    ensures FlaggedBy(ownership, u, p + 1, d) <==>
      FlaggedBy(ownership, u, p, d)
      || (!ownership.deletions[d].sourceAlternative && ownership.units[u].deletionIndices[p] == d && Repeats(ownership, u, d))
  {
    hide Repeats;
  }

  lemma FlaggedNextUnit(ownership: BatchOwnership, u: nat, d: nat)
    requires d < |ownership.deletions| && u < |ownership.units|
    ensures FlaggedBy(ownership, u, |ownership.units[u].deletionIndices|, d) <==> FlaggedBy(ownership, u + 1, 0, d)
  {
    hide Repeats;
  }

  lemma AllFlagged(ownership: BatchOwnership, d: nat)
    requires d < |ownership.deletions|
    ensures FlaggedBy(ownership, |ownership.units|, 0, d) <==> Superseded(ownership, d)
  {
    hide Repeats;
    if Superseded(ownership, d) {
      var u :| 0 <= u < |ownership.units| && d in ownership.units[u].deletionIndices && Repeats(ownership, u, d);
      var q :| 0 <= q < |ownership.units[u].deletionIndices| && ownership.units[u].deletionIndices[q] == d;
      assert Earlier(u, q, |ownership.units|, 0);
    }
  }

  /** The flags after the positions before p of unit u and all earlier units. */
  ghost predicate FlagsUpTo(ownership: BatchOwnership, flags: seq<bool>, u: nat, p: nat) {
    && |flags| == |ownership.deletions|
    && forall d :: 0 <= d < |flags| ==> (flags[d] <==> FlaggedBy(ownership, u, p, d))
  }

  method FlagUnit(hashes: Hashes, ownership: BatchOwnership, records: seq<Alternative>, u: nat,
                  superseded: array<bool>, cache: array<Option<(nat, nat)>>)
    requires u < |ownership.units|
    requires Sorted(records, AlternativeLe) && Collected(hashes, ownership, records, |ownership.units|, 0)
    requires superseded as object != cache
    requires CacheIsRight(hashes, ownership, cache[..]) && FlagsUpTo(ownership, superseded[..], u, 0)
    modifies superseded, cache
    ensures CacheIsRight(hashes, ownership, cache[..]) && FlagsUpTo(ownership, superseded[..], u + 1, 0)
  {
    hide FlaggedBy, Collected, Sorted;
    var indices := ownership.units[u].deletionIndices;
    var p := 0;
    while p < |indices|
      invariant 0 <= p <= |indices|
      invariant CacheIsRight(hashes, ownership, cache[..]) && FlagsUpTo(ownership, superseded[..], u, p)
    {
      forall d | 0 <= d < |ownership.deletions|
        ensures FlaggedBy(ownership, u, p + 1, d) <==>
          FlaggedBy(ownership, u, p, d)
          || (!ownership.deletions[d].sourceAlternative && indices[p] == d && Repeats(ownership, u, d))
      {
        FlaggedNext(ownership, u, p, d);
      }
      if Valid(ownership, indices[p]) && !ownership.deletions[indices[p]].sourceAlternative {
        var digest := CachedFingerprint(hashes, ownership, cache, indices[p]);
        var found := FindRepeat(hashes, ownership, records, u, indices[p], digest);
        if found {
          superseded[indices[p]] := true;
        }
      }
      p := p + 1;
    }
    forall d | 0 <= d < |ownership.deletions|
      ensures FlaggedBy(ownership, u, |indices|, d) <==> FlaggedBy(ownership, u + 1, 0, d)
    {
      FlaggedNextUnit(ownership, u, d);
    }
  }

  /** Flag the deletions that repeat a stored live version. */
  method SupersededReplacementDeletions(hashes: Hashes, ownership: BatchOwnership) returns (superseded: array<bool>)
    ensures fresh(superseded) && superseded.Length == |ownership.deletions|
    ensures forall d :: 0 <= d < superseded.Length ==> (superseded[d] <==> Superseded(ownership, d))
  {
    hide FlaggedBy, Superseded, Sorted, FlagsUpTo, CacheIsRight, Collected;
    superseded := new bool[|ownership.deletions|](_ => false);
    var cache := new Option<(nat, nat)>[|ownership.deletions|](_ => None);
    var alternatives := CollectAlternatives(hashes, ownership, cache);
    if alternatives == [] {
      NothingCollected(hashes, ownership);
      return;
    }
    AlternativeLeIsTotal();
    var records := Sort(alternatives, AlternativeLe);
    SortKeepsMembers(alternatives, AlternativeLe);
    SameRecordsCollected(hashes, ownership, alternatives, records);
    NothingFlaggedYet(ownership, superseded[..]);
    var u := 0;
    while u < |ownership.units|
      invariant 0 <= u <= |ownership.units|
      invariant CacheIsRight(hashes, ownership, cache[..]) && FlagsUpTo(ownership, superseded[..], u, 0)
    {
      FlagUnit(hashes, ownership, records, u, superseded, cache);
      u := u + 1;
    }
    FlagsComplete(ownership, superseded[..]);
  }

  lemma SameRecordsCollected(hashes: Hashes, ownership: BatchOwnership, a: seq<Alternative>, b: seq<Alternative>)
    requires Collected(hashes, ownership, a, |ownership.units|, 0) && forall x :: x in b <==> x in a
    ensures Collected(hashes, ownership, b, |ownership.units|, 0)
  {
  }

  lemma FlagsComplete(ownership: BatchOwnership, flags: seq<bool>)
    requires FlagsUpTo(ownership, flags, |ownership.units|, 0)
    ensures |flags| == |ownership.deletions|
    ensures forall d :: 0 <= d < |ownership.deletions| ==> (flags[d] <==> Superseded(ownership, d))
  {
    hide FlaggedBy, Superseded;
    forall d | 0 <= d < |ownership.deletions|
      ensures FlaggedBy(ownership, |ownership.units|, 0, d) <==> Superseded(ownership, d)
    {
      AllFlagged(ownership, d);
    }
  }

  lemma NothingFlaggedYet(ownership: BatchOwnership, flags: seq<bool>)
    requires |flags| == |ownership.deletions| && forall d :: 0 <= d < |flags| ==> !flags[d]
    ensures FlagsUpTo(ownership, flags, 0, 0)
  {
  }

  lemma NothingCollected(hashes: Hashes, ownership: BatchOwnership)
    requires Collected(hashes, ownership, [], |ownership.units|, 0)
    ensures forall d :: 0 <= d < |ownership.deletions| ==> !Superseded(ownership, d)
  {
    forall u, p | 0 <= u < |ownership.units| && 0 <= p < |ownership.units[u].deletionIndices|
      ensures !NamesAlternative(ownership, u, p)
    {
      assert Earlier(u, p, |ownership.units|, 0);
    }
  }
}
