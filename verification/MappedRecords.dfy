/**
 Sorting of fixed-width records (core/mapped_storage.py).

 The heap sort of the program is modelled by its result.  `SortedIsUnique`
 justifies this: under a total order, any two sorted arrangements of the same
 records are the same sequence.
 */
module MappedRecords {

  ghost predicate Antisymmetric<T(!new)>(le: (T, T) -> bool) {
    forall x, y :: le(x, y) && le(y, x) ==> x == y
  }

  ghost predicate Transitive<T(!new)>(le: (T, T) -> bool) {
    forall x, y, z :: le(x, y) && le(y, z) ==> le(x, z)
  }

  ghost predicate TotalOrder<T(!new)>(le: (T, T) -> bool) {
    && (forall x, y :: le(x, y) || le(y, x))
    && Antisymmetric(le)
    && Transitive(le)
  }

  ghost predicate Sorted<T>(s: seq<T>, le: (T, T) -> bool) {
    forall i, j :: 0 <= i < j < |s| ==> le(s[i], s[j])
  }

  lemma PrependLeast<T(!new)>(x: T, s: seq<T>, le: (T, T) -> bool)
    requires Transitive(le) && Sorted(s, le) && s != [] && le(x, s[0])
    ensures Sorted([x] + s, le) && multiset([x] + s) == multiset(s) + multiset{x}
  {
    forall i | 0 <= i < |s| ensures le(x, s[i]) {
      assert i == 0 || le(s[0], s[i]);
    }
  }

  function Insert<T(!new)>(x: T, s: seq<T>, le: (T, T) -> bool): (r: seq<T>)
    requires TotalOrder(le) && Sorted(s, le)
    ensures Sorted(r, le)
    ensures multiset(r) == multiset(s) + multiset{x}
    ensures |r| == |s| + 1
  {
    if s == [] then [x]
    else if le(x, s[0]) then
      PrependLeast(x, s, le);
      [x] + s
    else
      var tail := Insert(x, s[1..], le);
      PrependSorted(s, x, tail, le);
      [s[0]] + tail
  }

  lemma PrependSorted<T(!new)>(s: seq<T>, x: T, tail: seq<T>, le: (T, T) -> bool)
    requires Sorted(s, le) && s != [] && le(s[0], x) && Sorted(tail, le)
    requires multiset(tail) == multiset(s[1..]) + multiset{x}
    ensures Sorted([s[0]] + tail, le)
    ensures multiset([s[0]] + tail) == multiset(s) + multiset{x}
  {
    assert s == [s[0]] + s[1..];
    forall i | 0 <= i < |tail| ensures le(s[0], tail[i]) {
      assert tail[i] in multiset(tail);
      if tail[i] != x {
        assert tail[i] in s[1..];
      }
    }
  }

  /** The sorted arrangement of the records. */
  function Sort<T(!new)>(s: seq<T>, le: (T, T) -> bool): (r: seq<T>)
    requires TotalOrder(le)
    ensures Sorted(r, le)
    ensures multiset(r) == multiset(s)
    ensures |r| == |s|
  {
    if s == [] then [] else
      assert s == [s[0]] + s[1..];
      Insert(s[0], Sort(s[1..], le), le)
  }

  /** Sorting neither drops nor invents a record. */
  lemma SortKeepsMembers<T(!new)>(s: seq<T>, le: (T, T) -> bool)
    requires TotalOrder(le)
    ensures forall x :: x in Sort(s, le) <==> x in s
  {
    var r := Sort(s, le);
    forall x ensures x in r <==> x in s {
      assert x in multiset(r) <==> x in multiset(s);
    }
  }

  lemma RestOf<T>(s: seq<T>)
    requires s != []
    ensures multiset(s[1..]) == multiset(s) - multiset{s[0]}
  {
    assert s == [s[0]] + s[1..];
  }

  lemma FirstIsLeast<T(!new)>(s: seq<T>, x: T, le: (T, T) -> bool)
    requires (forall y :: le(y, y)) && Sorted(s, le) && x in multiset(s)
    ensures s != [] && le(s[0], x)
  {
    assert x in s;
    var i :| 0 <= i < |s| && s[i] == x;
  }

  lemma AppendSorted<T>(s: seq<T>, x: T, le: (T, T) -> bool)
    requires Sorted(s, le) && forall y :: y in s ==> le(y, x)
    ensures Sorted(s + [x], le)
  {
    forall i | 0 <= i < |s| ensures le(s[i], x) {
      assert s[i] in s;
    }
  }

  /** A total order leaves one sorted arrangement, whichever algorithm found it. */
  lemma {:induction false} SortedIsUnique<T(!new)>(a: seq<T>, b: seq<T>, le: (T, T) -> bool)
    requires Antisymmetric(le) && (forall x :: le(x, x)) && Sorted(a, le) && Sorted(b, le)
    requires multiset(a) == multiset(b)
    ensures a == b
  {
    if a == [] {
      assert |multiset(b)| == 0;
    } else {
      assert |multiset(a)| == |a| && |multiset(b)| == |b|;
      FirstIsLeast(a, b[0], le);
      FirstIsLeast(b, a[0], le);
      RestOf(a);
      RestOf(b);
      SortedIsUnique(a[1..], b[1..], le);
    }
  }

  /** Records that arrive in order are left alone. */
  lemma SortedStays<T(!new)>(s: seq<T>, le: (T, T) -> bool)
    requires TotalOrder(le) && Sorted(s, le)
    ensures Sort(s, le) == s
  {
    SortedIsUnique(Sort(s, le), s, le);
  }
}
