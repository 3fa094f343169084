/**
 * `Array.prototype.sort(sortByPublished)` as the listings use it. The model
 * promises what the pages rely on, a newest-first permutation of the input,
 * and computes one by insertion.
 */
module Sorting {
  import opened Dates
  import opened Seqs

  /** Every element carries a well-formed `published` token. */
  predicate AllWellFormed<T>(xs: seq<T>, published: T -> string)
  {
    forall i :: 0 <= i < |xs| ==> WellFormedDate(published(xs[i]))
  }

  /** No element is newer than one before it. */
  predicate NewestFirst<T>(xs: seq<T>, published: T -> string)
    requires AllWellFormed(xs, published)
  {
    forall i, j :: 0 <= i < j < |xs| ==> SortByPublished(published(xs[i]), published(xs[j])) <= 0
  }

  lemma PermutationWellFormed<T>(xs: seq<T>, ys: seq<T>, published: T -> string)
    requires AllWellFormed(xs, published)
    requires multiset(ys) == multiset(xs)
    ensures AllWellFormed(ys, published)
  {
    forall i | 0 <= i < |ys|
      ensures WellFormedDate(published(ys[i]))
    {
      assert ys[i] in multiset(xs);
      var j :| 0 <= j < |xs| && xs[j] == ys[i];
    }
  }

  /** Puts `x` before the first element that is not newer than it. */
  function Insert<T>(x: T, xs: seq<T>, published: T -> string): (r: seq<T>)
    requires WellFormedDate(published(x)) && AllWellFormed(xs, published)
    requires NewestFirst(xs, published)
    ensures |r| == |xs| + 1 && multiset(r) == multiset(xs) + multiset{x}
    ensures AllWellFormed(r, published) && NewestFirst(r, published)
  {
    if |xs| == 0 then [x]
    else if SortByPublished(published(x), published(xs[0])) <= 0 then
      assert AllWellFormed([x] + xs, published) by {
        assert forall i :: 0 < i <= |xs| ==> ([x] + xs)[i] == xs[i - 1];
      }
      [x] + xs
    else
      var rest := Insert(x, xs[1..], published);
      InsertBelowHead(x, xs, rest, published);
      [xs[0]] + rest
  }

  /** A list headed by an element at least as new as all the others stays newest first. */
  lemma PrependNewest<T>(h: T, rest: seq<T>, published: T -> string)
    requires WellFormedDate(published(h)) && AllWellFormed(rest, published)
    requires NewestFirst(rest, published)
    requires forall k :: 0 <= k < |rest| ==> SortByPublished(published(h), published(rest[k])) <= 0
    ensures AllWellFormed([h] + rest, published) && NewestFirst([h] + rest, published)
  {
    var r := [h] + rest;
    assert forall i :: 0 < i < |r| ==> r[i] == rest[i - 1];
  }

  lemma InsertBelowHead<T>(x: T, xs: seq<T>, rest: seq<T>, published: T -> string)
    requires |xs| > 0 && WellFormedDate(published(x)) && AllWellFormed(xs, published)
    requires NewestFirst(xs, published)
    requires SortByPublished(published(x), published(xs[0])) > 0
    requires multiset(rest) == multiset(xs[1..]) + multiset{x}
    requires AllWellFormed(rest, published) && NewestFirst(rest, published)
    ensures multiset([xs[0]] + rest) == multiset(xs) + multiset{x}
    ensures AllWellFormed([xs[0]] + rest, published) && NewestFirst([xs[0]] + rest, published)
  {
    assert xs == [xs[0]] + xs[1..];
    forall k | 0 <= k < |rest|
      ensures SortByPublished(published(xs[0]), published(rest[k])) <= 0
    {
      assert rest[k] in multiset(xs[1..]) + multiset{x};
      if rest[k] != x {
        assert rest[k] in multiset(xs[1..]);
        var j :| 0 <= j < |xs[1..]| && xs[1..][j] == rest[k];
        assert xs[j + 1] == rest[k];
      }
    }
    PrependNewest(xs[0], rest, published);
  }

  /** `xs.sort(comparator)`: a newest-first permutation of `xs`. */
  function SortNewestFirst<T>(xs: seq<T>, published: T -> string): (r: seq<T>)
    requires AllWellFormed(xs, published)
    ensures |r| == |xs| && multiset(r) == multiset(xs)
    ensures AllWellFormed(r, published) && NewestFirst(r, published)
  {
    if |xs| == 0 then []
    else
      assert xs == [xs[0]] + xs[1..];
      Insert(xs[0], SortNewestFirst(xs[1..], published), published)
  }

  /** Dropping elements from a newest-first list leaves it newest first. */
  lemma {:induction false} SubsequenceNewestFirst<T>(a: seq<T>, b: seq<T>, published: T -> string)
    requires IsSubsequence(a, b) && AllWellFormed(b, published) && NewestFirst(b, published)
    ensures AllWellFormed(a, published) && NewestFirst(a, published)
    decreases |b|
  {
    if |a| > 0 {
      assert AllWellFormed(b[1..], published) && NewestFirst(b[1..], published) by {
        assert forall i :: 0 <= i < |b| - 1 ==> b[1..][i] == b[i + 1];
      }
      if a[0] == b[0] && IsSubsequence(a[1..], b[1..]) {
        SubsequenceNewestFirst(a[1..], b[1..], published);
        HeadNewerThanSubsequence(b, a[1..], published);
        PrependNewest(a[0], a[1..], published);
        assert [a[0]] + a[1..] == a;
      } else {
        SubsequenceNewestFirst(a, b[1..], published);
      }
    }
  }

  /** The head of a newest-first list is at least as new as every element of a subsequence of its tail. */
  lemma HeadNewerThanSubsequence<T>(b: seq<T>, rest: seq<T>, published: T -> string)
    requires |b| > 0 && AllWellFormed(b, published) && NewestFirst(b, published)
    requires IsSubsequence(rest, b[1..])
    ensures AllWellFormed(rest, published)
    ensures forall k :: 0 <= k < |rest| ==> SortByPublished(published(b[0]), published(rest[k])) <= 0
  {
    SubsequenceMembers(rest, b[1..]);
    forall k | 0 <= k < |rest|
      ensures WellFormedDate(published(rest[k])) && SortByPublished(published(b[0]), published(rest[k])) <= 0
    {
      assert rest[k] in b[1..];
      var j :| 0 <= j < |b[1..]| && b[1..][j] == rest[k];
      assert b[j + 1] == rest[k];
    }
  }
}
