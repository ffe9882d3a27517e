/**
 * Order and multiplicity notions on finite sequences, used to say that a
 * filtered list keeps the order of the list it was filtered from.
 */
module Sequences {

  /**
   * `r` is obtained from `xs` by deleting elements, keeping the order of the
   * rest (matched greedily from the back).
   */
  predicate IsSubseq<T(==)>(r: seq<T>, xs: seq<T>)
    decreases |xs|
  {
    if |r| == 0 then true
    else if |xs| == 0 then false
    else if r[|r| - 1] == xs[|xs| - 1] then IsSubseq(r[..|r| - 1], xs[..|xs| - 1])
    else IsSubseq(r, xs[..|xs| - 1])
  }

  /** Every element of a subsequence is an element of the whole. */
  lemma {:induction false} SubseqMembers<T>(r: seq<T>, xs: seq<T>)
    requires IsSubseq(r, xs)
    ensures forall x :: x in r ==> x in xs
    decreases |xs|
  {
    if |r| > 0 {
      var xs' := xs[..|xs| - 1];
      assert xs == xs' + [xs[|xs| - 1]];
      if r[|r| - 1] == xs[|xs| - 1] {
        var r' := r[..|r| - 1];
        SubseqMembers(r', xs');
        assert r == r' + [r[|r| - 1]];
      } else {
        SubseqMembers(r, xs');
      }
    }
  }

  /** Dropping the last element of a subsequence leaves a subsequence. */
  lemma {:induction false} SubseqDropLast<T>(r: seq<T>, xs: seq<T>)
    requires |r| > 0 && IsSubseq(r, xs)
    ensures IsSubseq(r[..|r| - 1], xs)
    decreases |xs|
  {
    var r', xs' := r[..|r| - 1], xs[..|xs| - 1];
    if |r'| > 0 && r'[|r'| - 1] == xs[|xs| - 1] {
      if r[|r| - 1] == xs[|xs| - 1] {
        SubseqDropLast(r', xs');
      } else {
        SubseqDropLast(r, xs');
        SubseqDropLast(r', xs');
      }
    } else if |r'| > 0 && r[|r| - 1] != xs[|xs| - 1] {
      SubseqDropLast(r, xs');
    }
  }

  /** A subsequence stays one when the whole grows at its end. */
  lemma SubseqExtend<T>(r: seq<T>, xs: seq<T>, y: T)
    requires IsSubseq(r, xs)
    ensures IsSubseq(r, xs + [y])
  {
    assert (xs + [y])[..|xs|] == xs;
    if |r| > 0 && r[|r| - 1] == y {
      SubseqDropLast(r, xs);
    }
  }

  /** No element occurs twice. */
  predicate Distinct<T(==)>(xs: seq<T>) {
    forall i, j :: 0 <= i < j < |xs| ==> xs[i] != xs[j]
  }

  /** In a sequence without repetitions every element occurs at most once. */
  lemma {:induction false} DistinctCount<T>(xs: seq<T>)
    requires Distinct(xs)
    ensures forall x :: multiset(xs)[x] <= 1
  {
    if |xs| > 0 {
      var xs' := xs[..|xs| - 1];
      assert xs == xs' + [xs[|xs| - 1]];
      assert Distinct(xs');
      DistinctCount(xs');
      assert xs[|xs| - 1] !in xs';
    }
  }
}
