/** Listing a finite set in ascending order, as `stream().sorted()` does with a
    `Comparable` element type whose `compareTo` is a strict total order. */
module Sorting {

  ghost predicate StrictTotalOrder<T(!new)>(less: (T, T) -> bool) {
    && (forall a :: !less(a, a))
    && (forall a, b :: a != b ==> less(a, b) || less(b, a))
    && (forall a, b, c :: less(a, b) && less(b, c) ==> less(a, c))
  }

  /** Strictly ascending: every earlier element is below every later one. */
  ghost predicate SortedBy<T>(s: seq<T>, less: (T, T) -> bool) {
    forall i, j :: 0 <= i < j < |s| ==> less(s[i], s[j])
  }

  predicate IsLeast<T>(m: T, xs: set<T>, less: (T, T) -> bool) {
    m in xs && forall y :: y in xs ==> !less(y, m)
  }

  lemma {:induction false} LeastExists<T(!new)>(xs: set<T>, less: (T, T) -> bool)
    requires StrictTotalOrder(less)
    requires xs != {}
    ensures exists m :: IsLeast(m, xs, less)
    decreases |xs|
  {
    var x :| x in xs;
    if xs - {x} == {} {
      assert xs == {x};
      assert IsLeast(x, xs, less);
    } else {
      LeastExists(xs - {x}, less);
      var m :| IsLeast(m, xs - {x}, less);
      if less(x, m) {
        assert IsLeast(x, xs, less);
      } else {
        assert IsLeast(m, xs, less);
      }
    }
  }

  lemma LeastUnique<T(!new)>(xs: set<T>, less: (T, T) -> bool)
    requires StrictTotalOrder(less)
    ensures forall m, n :: IsLeast(m, xs, less) && IsLeast(n, xs, less) ==> m == n
  {
  }

  /** The elements of `xs`, each once, in ascending order of `less`. */
  function SortSet<T(!new)>(xs: set<T>, less: (T, T) -> bool): (s: seq<T>)
    requires StrictTotalOrder(less)
    ensures |s| == |xs|
    ensures forall x :: x in xs <==> x in s
    ensures SortedBy(s, less)
    decreases |xs|
  {
    if xs == {} then []
    else
      LeastExists(xs, less);
      LeastUnique(xs, less);
      var m :| IsLeast(m, xs, less);
      var rest := SortSet(xs - {m}, less);
      [m] + rest
  }
}
