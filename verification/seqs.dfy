/** Order-preserving sequence transformers: Swift's `filter`, `compactMap` and `map`. */
module Seqs {
  import opened Wrappers

  /** `a` can be obtained from `b` by deleting elements, keeping the rest in order. */
  ghost predicate IsSubsequence<T>(a: seq<T>, b: seq<T>)
    decreases |b|
  {
    |a| == 0 ||
    (|b| > 0 && ((a[0] == b[0] && IsSubsequence(a[1..], b[1..])) || IsSubsequence(a, b[1..])))
  }

  /** The elements of `xs` satisfying `p`, in their original order. */
  function Filter<T>(xs: seq<T>, p: T -> bool): (r: seq<T>)
    ensures |r| <= |xs|
    ensures forall y :: y in r ==> y in xs && p(y)
  {
    if |xs| == 0 then []
    else
      var rest := Filter(xs[1..], p);
      if p(xs[0]) then [xs[0]] + rest else rest
  }

  /** The `Some` results of `f` over `xs`, in order; `None` results are dropped. */
  function FilterMap<A, B>(xs: seq<A>, f: A -> Option<B>): (r: seq<B>)
    ensures |r| <= |xs|
    ensures forall y :: y in r ==> exists x :: x in xs && f(x) == Some(y)
  {
    if |xs| == 0 then []
    else
      var rest := FilterMap(xs[1..], f);
      match f(xs[0])
      case Some(y) => [y] + rest
      case None => rest
  }

  /** `f` applied to every element of `xs`. */
  function Map<A, B>(xs: seq<A>, f: A -> B): seq<B>
  {
    seq(|xs|, i requires 0 <= i < |xs| => f(xs[i]))
  }

  /** Filtering keeps the surviving elements in their original relative order. */
  lemma {:induction false} FilterIsSubsequence<T>(xs: seq<T>, p: T -> bool)
    ensures IsSubsequence(Filter(xs, p), xs)
  {
    if |xs| > 0 {
      var rest := Filter(xs[1..], p);
      FilterIsSubsequence(xs[1..], p);
      if p(xs[0]) {
        var r := [xs[0]] + rest;
        assert r[1..] == rest;
      }
    }
  }

  /** Filtering keeps every occurrence of a satisfying element and no occurrence of any
      other: together with `FilterIsSubsequence` this determines the result exactly. */
  lemma {:induction false} FilterCounts<T>(xs: seq<T>, p: T -> bool, x: T)
    ensures multiset(Filter(xs, p))[x] == if p(x) then multiset(xs)[x] else 0
  {
    if |xs| > 0 {
      FilterCounts(xs[1..], p, x);
      assert xs == [xs[0]] + xs[1..];
      assert multiset(xs) == multiset([xs[0]]) + multiset(xs[1..]);
    }
  }

  /** No element satisfying `p` is lost. */
  lemma FilterKeepsSatisfying<T>(xs: seq<T>, p: T -> bool, x: T)
    requires x in xs && p(x)
    ensures x in Filter(xs, p)
  {
    FilterCounts(xs, p, x);
  }

  /** Filtering distributes over concatenation. */
  lemma {:induction false} FilterAppend<T>(a: seq<T>, b: seq<T>, p: T -> bool)
    ensures Filter(a + b, p) == Filter(a, p) + Filter(b, p)
  {
    if |a| > 0 {
      assert (a + b)[1..] == a[1..] + b;
      FilterAppend(a[1..], b, p);
    } else {
      assert a + b == b;
    }
  }

  /** Filtering by `p` first is harmless when every element satisfying `q` satisfies `p`. */
  lemma {:induction false} FilterImplied<T>(xs: seq<T>, p: T -> bool, q: T -> bool)
    requires forall x :: q(x) ==> p(x)
    ensures Filter(Filter(xs, p), q) == Filter(xs, q)
  {
    if |xs| > 0 {
      FilterImplied(xs[1..], p, q);
      if p(xs[0]) {
        assert ([xs[0]] + Filter(xs[1..], p))[1..] == Filter(xs[1..], p);
      }
    }
  }

  /** Filtering the inputs by "`f` succeeds with a result satisfying `q`" and then mapping
      them is mapping all inputs and then filtering the results by `q`. */
  lemma {:induction false} FilterThenFilterMap<A, B>(xs: seq<A>, p: A -> bool, f: A -> Option<B>, q: B -> bool)
    requires forall x :: p(x) <==> f(x).Some? && q(f(x).value)
    ensures FilterMap(Filter(xs, p), f) == Filter(FilterMap(xs, f), q)
  {
    if |xs| > 0 {
      var x := xs[0];
      FilterThenFilterMap(xs[1..], p, f, q);
      var kept := Filter(xs[1..], p);
      var mapped := FilterMap(xs[1..], f);
      if p(x) {
        assert ([x] + kept)[1..] == kept;
        assert ([f(x).value] + mapped)[1..] == mapped;
      } else if f(x).Some? {
        assert ([f(x).value] + mapped)[1..] == mapped;
      }
    }
  }

  /** Every `Some` result of `f` on an element of `xs` reaches the output. */
  lemma {:induction false} FilterMapKeepsSome<A, B>(xs: seq<A>, f: A -> Option<B>, x: A)
    requires x in xs && f(x).Some?
    ensures f(x).value in FilterMap(xs, f)
  {
    if xs[0] != x {
      FilterMapKeepsSome(xs[1..], f, x);
    }
  }

  /** The output has exactly one element per input element on which `f` succeeds. */
  lemma {:induction false} FilterMapLength<A, B>(xs: seq<A>, f: A -> Option<B>, succeeds: A -> bool)
    requires forall x :: succeeds(x) == f(x).Some?
    ensures |FilterMap(xs, f)| == |Filter(xs, succeeds)|
  {
    if |xs| > 0 {
      FilterMapLength(xs[1..], f, succeeds);
    }
  }

  /** The successful results of a map, as options. */
  function IsSome<B>(): Option<B> -> bool
  {
    (o: Option<B>) => o.Some?
  }

  /** `FilterMap` is `Map` followed by `Filter` on the successes: so it keeps the successful
      results in input order, exactly as `Filter` keeps its elements. */
  lemma {:induction false} FilterMapIsFilterOfMap<A, B>(xs: seq<A>, f: A -> Option<B>)
    ensures Map(FilterMap(xs, f), (y: B) => Some(y)) == Filter(Map(xs, f), IsSome())
  {
    if |xs| > 0 {
      FilterMapIsFilterOfMap(xs[1..], f);
      var rest := FilterMap(xs[1..], f);
      assert Map(xs, f) == [f(xs[0])] + Map(xs[1..], f);
      assert Map(xs, f)[1..] == Map(xs[1..], f);
      if f(xs[0]).Some? {
        assert Map([f(xs[0]).value] + rest, (y: B) => Some(y))
            == [f(xs[0])] + Map(rest, (y: B) => Some(y));
      }
    }
  }

  /** Mapping a sequence that ends in two elements. */
  lemma MapAppendTwo<A, B>(xs: seq<A>, a: A, b: A, f: A -> B)
    ensures Map(xs + [a, b], f) == Map(xs, f) + [f(a), f(b)]
  {
  }

  /** Filtering distributes over concatenation for `FilterMap` too. */
  lemma {:induction false} FilterMapAppend<A, B>(a: seq<A>, b: seq<A>, f: A -> Option<B>)
    ensures FilterMap(a + b, f) == FilterMap(a, f) + FilterMap(b, f)
  {
    if |a| > 0 {
      assert (a + b)[1..] == a[1..] + b;
      FilterMapAppend(a[1..], b, f);
    } else {
      assert a + b == b;
    }
  }
}
