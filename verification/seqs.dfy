/** `Array.prototype.filter` and the order it keeps. */
module Seqs {

  /** The elements of `xs` that `keep` accepts, in their order in `xs`. */
  function Filter<T>(xs: seq<T>, keep: T -> bool): seq<T>
    decreases |xs|
  {
    if xs == [] then []
    else (if keep(xs[0]) then [xs[0]] else []) + Filter(xs[1..], keep)
  }

  /** `sub` is `xs` with some elements left out and the rest in order. */
  predicate IsSubsequence<T(==)>(sub: seq<T>, xs: seq<T>)
    decreases |xs|
  {
    if sub == [] then true
    else if xs == [] then false
    else if sub[0] == xs[0] && IsSubsequence(sub[1..], xs[1..]) then true
    else IsSubsequence(sub, xs[1..])
  }

  /** The filter keeps exactly the accepted elements, in their original order. */
  lemma {:induction false} FilterSpec<T>(xs: seq<T>, keep: T -> bool)
    ensures forall x :: x in Filter(xs, keep) <==> x in xs && keep(x)
    ensures IsSubsequence(Filter(xs, keep), xs)
    ensures |Filter(xs, keep)| <= |xs|
    decreases |xs|
  {
    if xs != [] {
      FilterSpec(xs[1..], keep);
      assert forall x :: x in xs <==> x == xs[0] || x in xs[1..];
      var r := Filter(xs, keep);
      if keep(xs[0]) {
        assert r[0] == xs[0] && r[1..] == Filter(xs[1..], keep);
      } else {
        assert r == Filter(xs[1..], keep);
        SubsequenceOfTail(r, xs);
      }
    }
  }

  lemma SubsequenceOfTail<T>(sub: seq<T>, xs: seq<T>)
    requires xs != [] && IsSubsequence(sub, xs[1..])
    ensures IsSubsequence(sub, xs)
  {
  }

  /** A filter that accepts everything returns its input. */
  lemma {:induction false} FilterAll<T>(xs: seq<T>, keep: T -> bool)
    requires forall x :: x in xs ==> keep(x)
    ensures Filter(xs, keep) == xs
    decreases |xs|
  {
    if xs != [] {
      FilterAll(xs[1..], keep);
      assert xs == [xs[0]] + xs[1..];
    }
  }

  /** A filter that rejects everything returns nothing. */
  lemma {:induction false} FilterNone<T>(xs: seq<T>, keep: T -> bool)
    requires forall x :: x in xs ==> !keep(x)
    ensures Filter(xs, keep) == []
    decreases |xs|
  {
    if xs != [] {
      assert xs[0] in xs;
      assert forall x :: x in xs[1..] ==> x in xs;
      FilterNone(xs[1..], keep);
    }
  }

  /** Filtering distributes over concatenation. */
  lemma {:induction false} FilterAppend<T>(a: seq<T>, b: seq<T>, keep: T -> bool)
    ensures Filter(a + b, keep) == Filter(a, keep) + Filter(b, keep)
    decreases |a|
  {
    if a == [] {
      assert a + b == b;
    } else {
      var ab := a + b;
      assert ab[0] == a[0];
      assert ab[1..] == a[1..] + b;
      FilterAppend(a[1..], b, keep);
      var head := if keep(a[0]) then [a[0]] else [];
      assert Filter(ab, keep) == head + Filter(ab[1..], keep);
      assert Filter(a, keep) == head + Filter(a[1..], keep);
      assert head + (Filter(a[1..], keep) + Filter(b, keep))
             == (head + Filter(a[1..], keep)) + Filter(b, keep);
    }
  }

  /** Replacing an element the filter rejects by another it rejects leaves the filter's result alone. */
  lemma {:induction false} FilterUpdate<T>(xs: seq<T>, i: nat, y: T, keep: T -> bool)
    requires i < |xs| && !keep(xs[i]) && !keep(y)
    ensures Filter(xs[i := y], keep) == Filter(xs, keep)
    decreases |xs|
  {
    if i > 0 {
      assert xs[i := y][1..] == xs[1..][i - 1 := y];
      FilterUpdate(xs[1..], i - 1, y, keep);
    }
  }
}
