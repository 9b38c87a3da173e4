/** The array methods the pages use (`filter`, `find`, `includes`) over
    immutable sequences, with the facts the page models need about them. */
module Seqs {
  import opened Options

  /** `a` can be obtained from `b` by deleting elements: the elements of `a`
      appear in `b` in the same order. */
  predicate IsSubseq<T(==)>(a: seq<T>, b: seq<T>)
    decreases |b|
  {
    || a == []
    || (b != [] && ((a[0] == b[0] && IsSubseq(a[1..], b[1..])) || IsSubseq(a, b[1..])))
  }

  /** No value occurs twice. */
  predicate NoDuplicates<T(==)>(xs: seq<T>) {
    forall i, j | 0 <= i < j < |xs| :: xs[i] != xs[j]
  }

  /** `Array.prototype.filter`: the elements `keep` accepts, in their order. */
  function Filter<T(==)>(keep: T -> bool, xs: seq<T>): (r: seq<T>)
    ensures |r| <= |xs|
    ensures forall x | x in r :: x in xs && keep(x)
    ensures forall x | x in xs && keep(x) :: x in r
    ensures IsSubseq(r, xs)
    ensures forall x | x in xs :: multiset(r)[x] == if keep(x) then multiset(xs)[x] else 0
  {
    if xs == [] then []
    else
      var rest := Filter(keep, xs[1..]);
      var r := if keep(xs[0]) then [xs[0]] + rest else rest;
      assert forall x | x in xs :: multiset(r)[x] == if keep(x) then multiset(xs)[x] else 0 by {
        assert xs == [xs[0]] + xs[1..];
        forall x | x in xs
          ensures multiset(r)[x] == if keep(x) then multiset(xs)[x] else 0
        {
          if x !in xs[1..] {
            assert x !in rest;
          }
        }
      }
      r
  }

  lemma IsSubseqCons<T>(a: seq<T>, x: T, b: seq<T>)
    requires IsSubseq(a, b)
    ensures IsSubseq(a, [x] + b)
  {
    assert ([x] + b)[1..] == b;
  }

  /** Filter keeps each accepted value as often as it occurs and drops every
      occurrence of the others. */
  lemma {:induction false} FilterCount<T>(keep: T -> bool, xs: seq<T>, x: T)
    ensures multiset(Filter(keep, xs))[x] == if keep(x) then multiset(xs)[x] else 0
  {
    if xs != [] {
      FilterCount(keep, xs[1..], x);
      assert xs == [xs[0]] + xs[1..];
    }
  }

  /** Filtering with a test every element passes changes nothing. */
  lemma {:induction false} FilterAll<T>(keep: T -> bool, xs: seq<T>)
    requires forall x | x in xs :: keep(x)
    ensures Filter(keep, xs) == xs
  {
    if xs != [] {
      FilterAll(keep, xs[1..]);
      assert xs == [xs[0]] + xs[1..];
    }
  }

  /** Filtering with a test no element passes leaves nothing. */
  lemma {:induction false} FilterNone<T>(keep: T -> bool, xs: seq<T>)
    requires forall x | x in xs :: !keep(x)
    ensures Filter(keep, xs) == []
  {
    if xs != [] {
      FilterNone(keep, xs[1..]);
    }
  }

  /** Filtering twice with the same test is filtering once. */
  lemma FilterIdempotent<T>(keep: T -> bool, xs: seq<T>)
    ensures Filter(keep, Filter(keep, xs)) == Filter(keep, xs)
  {
    FilterAll(keep, Filter(keep, xs));
  }

  lemma {:induction false} FilterConcat<T>(keep: T -> bool, a: seq<T>, b: seq<T>)
    ensures Filter(keep, a + b) == Filter(keep, a) + Filter(keep, b)
  {
    if a != [] {
      assert (a + b)[0] == a[0] && (a + b)[1..] == a[1..] + b;
      FilterConcat(keep, a[1..], b);
      var head := if keep(a[0]) then [a[0]] else [];
      assert Filter(keep, a + b) == head + Filter(keep, a[1..] + b);
      assert Filter(keep, a) == head + Filter(keep, a[1..]);
    } else {
      assert a + b == b;
    }
  }

  /** Tests that agree on the elements give the same result. */
  lemma {:induction false} FilterCongruent<T>(f: T -> bool, g: T -> bool, xs: seq<T>)
    requires forall x | x in xs :: f(x) == g(x)
    ensures Filter(f, xs) == Filter(g, xs)
  {
    if xs != [] {
      FilterCongruent(f, g, xs[1..]);
    }
  }

  /** Filtering the result of a filter is filtering once with a test that
      accepts what both accept. */
  lemma {:induction false} FilterFilter<T>(f: T -> bool, g: T -> bool, both: T -> bool, xs: seq<T>)
    requires forall x | x in xs :: both(x) == (g(x) && f(x))
    ensures Filter(f, Filter(g, xs)) == Filter(both, xs)
  {
    if xs != [] {
      FilterFilter(f, g, both, xs[1..]);
    }
  }

  /** A stricter test keeps a subsequence of what a looser one keeps. */
  lemma {:induction false} FilterNarrower<T>(narrow: T -> bool, wide: T -> bool, xs: seq<T>)
    requires forall x | x in xs && narrow(x) :: wide(x)
    ensures IsSubseq(Filter(narrow, xs), Filter(wide, xs))
  {
    if xs != [] {
      FilterNarrower(narrow, wide, xs[1..]);
      if !narrow(xs[0]) && wide(xs[0]) {
        IsSubseqCons(Filter(narrow, xs[1..]), xs[0], Filter(wide, xs[1..]));
      }
    }
  }

  /** Filtering never introduces a duplicate. */
  lemma {:induction false} FilterNoDuplicates<T>(keep: T -> bool, xs: seq<T>)
    requires NoDuplicates(xs)
    ensures NoDuplicates(Filter(keep, xs))
  {
    if xs != [] {
      assert NoDuplicates(xs[1..]) by {
        forall i, j | 0 <= i < j < |xs| - 1
          ensures xs[1..][i] != xs[1..][j]
        {
          assert xs[1..][i] == xs[i + 1] && xs[1..][j] == xs[j + 1];
        }
      }
      FilterNoDuplicates(keep, xs[1..]);
      if keep(xs[0]) {
        assert xs[0] !in xs[1..] by {
          forall j | 0 <= j < |xs| - 1
            ensures xs[1..][j] != xs[0]
          {
            assert xs[1..][j] == xs[j + 1];
          }
        }
        var r := [xs[0]] + Filter(keep, xs[1..]);
        forall i, j | 0 <= i < j < |r|
          ensures r[i] != r[j]
        {
          if i == 0 {
            assert r[j] in Filter(keep, xs[1..]);
          }
        }
      }
    }
  }

  /** Appending a value not yet present keeps the elements distinct. */
  lemma AppendFresh<T>(xs: seq<T>, v: T)
    requires NoDuplicates(xs) && v !in xs
    ensures NoDuplicates(xs + [v])
  {
  }

  /** `xs[i]` is the first element `keep` accepts. */
  predicate FirstAt<T>(keep: T -> bool, xs: seq<T>, i: int) {
    && 0 <= i < |xs|
    && keep(xs[i])
    && forall j | 0 <= j < i :: !keep(xs[j])
  }

  /** `Array.prototype.find`: the first element `keep` accepts, if any. */
  function Find<T(==)>(keep: T -> bool, xs: seq<T>): (r: Option<T>)
    ensures r.None? <==> forall x | x in xs :: !keep(x)
    ensures r.Some? ==> exists i | 0 <= i < |xs| :: FirstAt(keep, xs, i) && xs[i] == r.value
  {
    if xs == [] then None
    else if keep(xs[0]) then
      assert FirstAt(keep, xs, 0);
      Some(xs[0])
    else
      var r := Find(keep, xs[1..]);
      assert r.Some? ==> exists i | 0 <= i < |xs| :: FirstAt(keep, xs, i) && xs[i] == r.value by {
        if r.Some? {
          var i :| 0 <= i < |xs| - 1 && FirstAt(keep, xs[1..], i) && xs[1..][i] == r.value;
          assert FirstAt(keep, xs, i + 1);
        }
      }
      r
  }
}
