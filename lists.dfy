/** Keeping the elements of a list that pass a test, as a Python list
    comprehension with an `if` clause does. Stated for any element type so
    that the proofs need nothing about what the test looks at. */
module Lists {

  /** The elements of `xs` for which `keep` holds, in the order of `xs`. */
  function Filter<T>(xs: seq<T>, keep: T -> bool): seq<T> {
    if xs == [] then []
    else (if keep(xs[0]) then [xs[0]] else []) + Filter(xs[1..], keep)
  }

  /** The filter keeps exactly the elements that pass, each as often as the
      list holds it, and drops the others. */
  lemma {:induction false} FilterSelects<T(!new)>(xs: seq<T>, keep: T -> bool)
    ensures forall x :: x in Filter(xs, keep) <==> x in xs && keep(x)
    ensures forall x :: multiset(Filter(xs, keep))[x] == if keep(x) then multiset(xs)[x] else 0
  {
    if xs != [] {
      assert xs == [xs[0]] + xs[1..];
      FilterSelects(xs[1..], keep);
    }
  }

  /** Filtering a list in two pieces gives the two filtered pieces in order. */
  lemma {:induction false} FilterAppend<T>(a: seq<T>, b: seq<T>, keep: T -> bool)
    ensures Filter(a + b, keep) == Filter(a, keep) + Filter(b, keep)
  {
    if a != [] {
      assert (a + b)[0] == a[0] && (a + b)[1..] == a[1..] + b;
      FilterAppend(a[1..], b, keep);
    } else {
      assert a + b == b;
    }
  }
}
