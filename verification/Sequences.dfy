/** Sequence facts that several modules rearrange their outputs with. */
module Sequences {
  lemma LastOfEqual<T>(a: seq<T>, b: seq<T>, x: T, y: T)
    requires |a| == |b|
    ensures a + [x] == b + [y] <==> a == b && x == y
  {
    var left, right := a + [x], b + [y];
    if left == right {
      assert left[..|a|] == a && right[..|b|] == b;
      assert left[|a|] == x && right[|b|] == y;
    }
  }

  lemma ExtendSlice<T>(done: seq<T>, s: seq<T>, from: nat, upto: nat)
    requires from < upto <= |s|
    ensures (done + s[from..upto - 1]) + [s[upto - 1]] == done + s[from..upto]
  {
    assert s[from..upto] == s[from..upto - 1] + [s[upto - 1]];
  }

  lemma Reassociate<T>(a: seq<T>, b: seq<T>, c: seq<T>)
    ensures (a + b) + c == a + (b + c)
  {
  }

  lemma JoinSlices<T>(done: seq<T>, s: seq<T>, from: nat, middle: nat, upto: nat)
    requires from <= middle <= upto <= |s|
    ensures (done + s[from..middle]) + s[middle..upto] == done + s[from..upto]
  {
    assert s[from..upto] == s[from..middle] + s[middle..upto];
  }

  lemma EmptySlice<T>(done: seq<T>, s: seq<T>, at: nat)
    requires at <= |s|
    ensures done + s[at..at] == done
  {
  }

  lemma SliceOfSlice<T>(s: seq<T>, a: nat, b: nat, from: nat, upto: nat)
    requires a <= b <= |s| && from <= upto <= b - a
    ensures s[a..b][from..upto] == s[a + from..a + upto]
  {
    var inner, outer := s[a..b][from..upto], s[a + from..a + upto];
    forall i | 0 <= i < upto - from ensures inner[i] == outer[i] {
    }
  }

  lemma TwiceInMultiset<T>(s: seq<T>, i: nat, j: nat)
    requires i < j < |s| && s[i] == s[j]
    ensures multiset(s)[s[i]] >= 2
  {
    assert s == s[..i + 1] + s[i + 1..];
    assert s[..i + 1][i] == s[i] && s[i + 1..][j - i - 1] == s[j];
    assert multiset(s) == multiset(s[..i + 1]) + multiset(s[i + 1..]);
    assert s[i] in s[..i + 1] && s[i] in s[i + 1..];
  }

  lemma {:induction false} OnceInMultiset<T>(s: seq<T>, x: T)
    requires forall i, j :: 0 <= i < j < |s| ==> s[i] != s[j]
    ensures multiset(s)[x] <= 1
  {
    if s != [] {
      var init, last := s[..|s| - 1], s[|s| - 1];
      OnceInMultiset(init, x);
      assert s == init + [last];
      if x == last {
        assert x !in init;
        assert multiset(init)[x] == 0;
      }
    }
  }

  /** A rearrangement of distinct elements has distinct elements. */
  lemma RearrangedDistinct<T>(a: seq<T>, b: seq<T>)
    requires multiset(a) == multiset(b) && forall i, j :: 0 <= i < j < |a| ==> a[i] != a[j]
    ensures forall i, j :: 0 <= i < j < |b| ==> b[i] != b[j]
    ensures forall x :: x in b <==> x in a
  {
    forall i, j | 0 <= i < j < |b| ensures b[i] != b[j] {
      OnceInMultiset(a, b[i]);
      if b[i] == b[j] {
        TwiceInMultiset(b, i, j);
      }
    }
    forall x ensures x in b <==> x in a {
      assert x in multiset(b) <==> x in multiset(a);
    }
  }
}
