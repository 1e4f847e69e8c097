/**
 Sequence operations behind the list comprehensions of the sync tasks:
 keeping the elements that satisfy a predicate (`[x for x in s if p(x)]`),
 applying a function to every element, and counting. Each comes with the
 facts the tasks rely on: the kept elements form a subsequence of the input,
 all of them satisfy the predicate, none that satisfies it is lost, and the
 result is the only sequence with these three properties.
 */
module Sequences {

  /** `sub` is obtained from `s` by deleting zero or more elements: every
      element of `sub` occurs in `s`, in the same relative order. */
  ghost predicate IsSubsequence<T(!new)>(sub: seq<T>, s: seq<T>)
    decreases |s|
  {
    if sub == [] then true
    else if s == [] then false
    else (sub[0] == s[0] && IsSubsequence(sub[1..], s[1..])) || IsSubsequence(sub, s[1..])
  }

  /** The conjunction of two predicates, as one predicate. */
  function And<T(!new)>(p: T -> bool, q: T -> bool): (pq: T -> bool)
    ensures forall x :: pq(x) == (p(x) && q(x))
  {
    x => p(x) && q(x)
  }

  /** The elements of `s` that satisfy `p`, in their original order. */
  function Filter<T(!new)>(p: T -> bool, s: seq<T>): (r: seq<T>)
    ensures |r| <= |s|
    ensures forall i :: 0 <= i < |r| ==> p(r[i])
    ensures forall x :: multiset(r)[x] == if p(x) then multiset(s)[x] else 0
  {
    if s == [] then []
    else
      assert s == [s[0]] + s[1..];
      if p(s[0]) then [s[0]] + Filter(p, s[1..]) else Filter(p, s[1..])
  }

  /** `f` applied to every element of `s`. */
  function Map<T, U>(f: T -> U, s: seq<T>): (r: seq<U>)
    ensures |r| == |s|
    ensures forall i :: 0 <= i < |s| ==> r[i] == f(s[i])
  {
    if s == [] then [] else [f(s[0])] + Map(f, s[1..])
  }

  /** The number of positions of `s` whose element satisfies `p`. */
  function Count<T(!new)>(p: T -> bool, s: seq<T>): (n: nat)
    ensures n <= |s|
  {
    if s == [] then 0 else (if p(s[0]) then 1 else 0) + Count(p, s[1..])
  }

  /** The kept elements are a subsequence of the input. */
  lemma {:induction false} FilterIsSubsequence<T(!new)>(p: T -> bool, s: seq<T>)
    ensures IsSubsequence(Filter(p, s), s)
    decreases |s|
  {
    if s != [] {
      FilterIsSubsequence(p, s[1..]);
      var r := Filter(p, s);
      if p(s[0]) {
        assert r[0] == s[0] && r[1..] == Filter(p, s[1..]);
      } else {
        assert r == Filter(p, s[1..]);
      }
    }
  }

  /** The filter keeps exactly as many elements as satisfy the predicate. */
  lemma {:induction false} FilterLength<T(!new)>(p: T -> bool, s: seq<T>)
    ensures |Filter(p, s)| == Count(p, s)
    decreases |s|
  {
    if s != [] {
      FilterLength(p, s[1..]);
    }
  }

  /** A sequence whose elements all satisfy `p` passes through unchanged. */
  lemma {:induction false} FilterKeepsAll<T(!new)>(p: T -> bool, s: seq<T>)
    requires forall i :: 0 <= i < |s| ==> p(s[i])
    ensures Filter(p, s) == s
    decreases |s|
  {
    if s != [] {
      FilterKeepsAll(p, s[1..]);
      assert s == [s[0]] + s[1..];
    }
  }

  /** A sequence none of whose elements satisfies `p` filters to nothing. */
  lemma {:induction false} FilterKeepsNone<T(!new)>(p: T -> bool, s: seq<T>)
    requires forall i :: 0 <= i < |s| ==> !p(s[i])
    ensures Filter(p, s) == []
    decreases |s|
  {
    if s != [] {
      FilterKeepsNone(p, s[1..]);
    }
  }

  /** Filtering twice with the same predicate is filtering once. */
  lemma FilterIdempotent<T(!new)>(p: T -> bool, s: seq<T>)
    ensures Filter(p, Filter(p, s)) == Filter(p, s)
  {
    FilterKeepsAll(p, Filter(p, s));
  }

  /** Predicates that agree on every element give the same result. */
  lemma {:induction false} FilterExtensional<T(!new)>(p: T -> bool, q: T -> bool, s: seq<T>)
    requires forall x :: p(x) == q(x)
    ensures Filter(p, s) == Filter(q, s)
    decreases |s|
  {
    if s != [] {
      FilterExtensional(p, q, s[1..]);
    }
  }

  /** Filtering by `p` and then by `q` is one pass with both predicates. */
  lemma {:induction false} FilterFilter<T(!new)>(p: T -> bool, q: T -> bool, s: seq<T>)
    ensures Filter(q, Filter(p, s)) == Filter(And(p, q), s)
    decreases |s|
  {
    if s != [] {
      FilterFilter(p, q, s[1..]);
      if p(s[0]) {
        assert Filter(p, s) == [s[0]] + Filter(p, s[1..]);
        assert Filter(p, s)[1..] == Filter(p, s[1..]);
      }
    }
  }

  /** A subsequence of `s` made only of elements satisfying `p` is no longer
      than the number of such elements in `s`. */
  lemma {:induction false} KeptSubsequenceBound<T(!new)>(p: T -> bool, r: seq<T>, s: seq<T>)
    requires IsSubsequence(r, s)
    requires forall i :: 0 <= i < |r| ==> p(r[i])
    ensures |r| <= Count(p, s)
    decreases |s|
  {
    if r != [] {
      if r[0] == s[0] && IsSubsequence(r[1..], s[1..]) {
        KeptSubsequenceBound(p, r[1..], s[1..]);
      } else {
        KeptSubsequenceBound(p, r, s[1..]);
      }
    }
  }

  /** Soundness, order preservation and completeness pin the filter down:
      a subsequence of `s` whose elements all satisfy `p` and which has as many
      elements as satisfy `p` in `s` is `Filter(p, s)`. */
  lemma {:induction false} FilterUnique<T(!new)>(p: T -> bool, r: seq<T>, s: seq<T>)
    requires IsSubsequence(r, s)
    requires forall i :: 0 <= i < |r| ==> p(r[i])
    requires |r| == Count(p, s)
    ensures r == Filter(p, s)
    decreases |s|
  {
    if s == [] {
    } else if r == [] {
      FilterLength(p, s);
    } else if r[0] == s[0] && IsSubsequence(r[1..], s[1..]) {
      FilterUnique(p, r[1..], s[1..]);
    } else {
      KeptSubsequenceBound(p, r, s[1..]);
      FilterUnique(p, r, s[1..]);
    }
  }

  /** The images of the kept elements are exactly the images of the elements
      that satisfy `p`, and there is one image per such element. */
  lemma MapFilterMembers<T(!new), U>(f: T -> U, p: T -> bool, s: seq<T>)
    ensures forall y :: y in Map(f, Filter(p, s)) ==> exists x :: x in s && p(x) && y == f(x)
    ensures forall x :: x in s && p(x) ==> f(x) in Map(f, Filter(p, s))
    ensures |Map(f, Filter(p, s))| == Count(p, s)
  {
    var kept := Filter(p, s);
    var images := Map(f, kept);
    FilterLength(p, s);
    forall y | y in images
      ensures exists x :: x in s && p(x) && y == f(x)
    {
      var i :| 0 <= i < |images| && images[i] == y;
      assert multiset(kept)[kept[i]] > 0;
    }
    forall x | x in s && p(x)
      ensures f(x) in images
    {
      assert multiset(s)[x] > 0;
      var i :| 0 <= i < |kept| && kept[i] == x;
      assert images[i] == f(x);
    }
  }
}
