/** Sequences whose items remember whether they were inserted. */
module Tags {

  datatype Tagged<+T> = Tagged(item: T, inserted: bool)

  function Tag<T>(items: seq<T>, inserted: bool): (tagged: seq<Tagged<T>>)
    ensures |tagged| == |items|
    ensures forall i :: 0 <= i < |tagged| ==> tagged[i] == Tagged(items[i], inserted)
  {
    seq(|items|, i requires 0 <= i < |items| => Tagged(items[i], inserted))
  }

  function Untag<T>(tagged: seq<Tagged<T>>): (items: seq<T>)
    ensures |items| == |tagged|
    ensures forall i :: 0 <= i < |tagged| ==> items[i] == tagged[i].item
  {
    seq(|tagged|, i requires 0 <= i < |tagged| => tagged[i].item)
  }

  /** The items that were not inserted. */
  function Originals<T>(tagged: seq<Tagged<T>>): seq<T> {
    if tagged == [] then []
    else
      var last := tagged[|tagged| - 1];
      Originals(tagged[..|tagged| - 1]) + (if last.inserted then [] else [last.item])
  }

  lemma TagNothing<T>()
    ensures Tag<T>([], false) == [] && Originals<T>([]) == []
  {
  }

  lemma UntagTag<T>(items: seq<T>, inserted: bool)
    ensures Untag(Tag(items, inserted)) == items
  {
  }

  lemma UntagAppend<T>(a: seq<Tagged<T>>, b: seq<Tagged<T>>)
    ensures Untag(a + b) == Untag(a) + Untag(b)
  {
  }

  lemma {:induction false} OriginalsAppend<T>(a: seq<Tagged<T>>, b: seq<Tagged<T>>)
    ensures Originals(a + b) == Originals(a) + Originals(b)
  {
    if b == [] {
      assert a + b == a;
    } else {
      assert (a + b)[..|a + b| - 1] == a + b[..|b| - 1];
      OriginalsAppend(a, b[..|b| - 1]);
    }
  }

  lemma {:induction false} OriginalsOfTag<T>(items: seq<T>, inserted: bool)
    ensures Originals(Tag(items, inserted)) == if inserted then [] else items
  {
    if items != [] {
      var init := items[..|items| - 1];
      OriginalsOfTag(init, inserted);
      assert Tag(items, inserted)[..|items| - 1] == Tag(init, inserted);
    }
  }
}
