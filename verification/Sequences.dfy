/** Two notions about sequences used throughout. */
module Sequences {
  /** No element occurs twice. */
  predicate Distinct<T(==)>(items: seq<T>) {
    forall i, j | 0 <= i < j < |items| :: items[i] != items[j]
  }

  function Elements<T(==)>(items: seq<T>): set<T> {
    set x | x in items
  }

  /** A duplicate-free list is as long as its set of elements. */
  lemma {:induction false} DistinctLength<T>(items: seq<T>, elements: set<T>)
    requires Distinct(items) && forall x :: x in items <==> x in elements
    ensures |items| == |elements|
  {
    if items == [] {
      assert elements == {};
    } else {
      var last := items[|items| - 1];
      var front := items[..|items| - 1];
      assert items == front + [last];
      DistinctLength(front, elements - {last});
    }
  }
}
