/** Lists of lists joined in order. */
module Sequences {
  function Flatten<T>(lists: seq<seq<T>>): seq<T> {
    if lists == [] then [] else Flatten(lists[..|lists| - 1]) + lists[|lists| - 1]
  }

  lemma FlattenAppend<T>(lists: seq<seq<T>>, b: seq<T>)
    ensures Flatten(lists + [b]) == Flatten(lists) + b
  {
    assert (lists + [b])[..|lists|] == lists;
  }

  lemma {:induction false} FlattenMembers<T>(lists: seq<seq<T>>, x: T)
    ensures x in Flatten(lists) <==> exists i :: 0 <= i < |lists| && x in lists[i]
    decreases |lists|
  {
    if lists != [] {
      FlattenMembers(lists[..|lists| - 1], x);
      assert lists == lists[..|lists| - 1] + [lists[|lists| - 1]];
    }
  }

  /** Copies of one list. */
  lemma {:induction false} FlattenCopies<T>(lists: seq<seq<T>>, b: seq<T>)
    requires forall i | 0 <= i < |lists| :: lists[i] == b
    ensures |Flatten(lists)| == |lists| * |b|
    decreases |lists|
  {
    if lists != [] {
      FlattenCopies(lists[..|lists| - 1], b);
      assert |lists| * |b| == (|lists| - 1) * |b| + |b|;
    }
  }
}
