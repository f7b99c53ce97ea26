/**
 * The aggregator: `get_average_scores` drops every director with fewer than
 * MIN_MOVIES movies and records, for each remaining one in dictionary
 * order, its average score together with its unchanged movie list.
 */
module Aggregator {
  import opened Movies

  /** `sum(mm.score for mm in movies)`, in tenths. */
  function SumScores(ms: seq<Movie>): int {
    if ms == [] then 0 else SumScores(ms[..|ms| - 1]) + ms[|ms| - 1].score
  }

  /** Python's `round` applied to the exact quotient `s / n`: the nearest
      integer, and on a tie the even one. */
  function RoundHalfEven(s: int, n: int): (q: int)
    requires n > 0
    ensures 2 * (s - q * n) <= n && 2 * (q * n - s) <= n
    ensures 2 * (s - q * n) == n || 2 * (q * n - s) == n ==> q % 2 == 0
  {
    var f, r := s / n, s % n;
    assert s == f * n + r;
    assert (f + 1) * n == f * n + n;
    if 2 * r < n then f
    else if 2 * r > n then f + 1
    else if f % 2 == 0 then f else f + 1
  }

  /** `_calc_mean`: the average score of a non-empty list, in tenths: the
      total divided by the count, rounded to the nearest tenth, and on a
      tie to the even one. */
  function MeanTenths(ms: seq<Movie>): (avg: int)
    requires |ms| > 0
    ensures 2 * (SumScores(ms) - avg * |ms|) <= |ms| && 2 * (avg * |ms| - SumScores(ms)) <= |ms|
    ensures 2 * (SumScores(ms) - avg * |ms|) == |ms| || 2 * (avg * |ms| - SumScores(ms)) == |ms| ==> avg % 2 == 0
  {
    RoundHalfEven(SumScores(ms), |ms|)
  }

  lemma {:induction false} SumAppend(a: seq<Movie>, b: seq<Movie>)
    ensures SumScores(a + b) == SumScores(a) + SumScores(b)
  {
    if b == [] {
      assert a + b == a;
    } else {
      assert (a + b)[..|a + b| - 1] == a + b[..|b| - 1];
      SumAppend(a, b[..|b| - 1]);
    }
  }

  /** The sum does not depend on the order of the movies. */
  lemma {:induction false} SumPermutation(a: seq<Movie>, b: seq<Movie>)
    requires multiset(a) == multiset(b)
    ensures SumScores(a) == SumScores(b)
    decreases |a|
  {
    if a != [] {
      var n := |a| - 1;
      var x := a[n];
      assert a == a[..n] + [x];
      assert multiset(a[..n]) == multiset(a) - multiset{x};
      assert x in multiset(b);
      var j :| 0 <= j < |b| && b[j] == x;
      var rest := b[..j] + b[j + 1..];
      RemoveAt(b, j);
      SumPermutation(a[..n], rest);
    }
  }

  /** Taking out the movie at `j` takes its score out of the sum. */
  lemma RemoveAt(b: seq<Movie>, j: nat)
    requires j < |b|
    ensures multiset(b[..j] + b[j + 1..]) == multiset(b) - multiset{b[j]}
    ensures SumScores(b) == SumScores(b[..j] + b[j + 1..]) + b[j].score
  {
    var p, x, q := b[..j], b[j], b[j + 1..];
    SplitAt(b, j);
    assert multiset(b) == multiset(p) + multiset{x} + multiset(q);
    SumSplit(p, x, q);
  }

  lemma SplitAt<T>(b: seq<T>, j: nat)
    requires j < |b|
    ensures b == b[..j] + [b[j]] + b[j + 1..]
  {
    assert b[..j] + [b[j]] == b[..j + 1];
    assert b[..j + 1] + b[j + 1..] == b;
  }

  lemma SumSplit(p: seq<Movie>, x: Movie, q: seq<Movie>)
    ensures SumScores(p + [x] + q) == SumScores(p + q) + x.score
  {
    assert SumScores([x]) == x.score by {
      assert [x][..0] == [];
    }
    SumAppend(p + [x], q);
    SumAppend(p, [x]);
    SumAppend(p, q);
  }

  /** `_calc_mean` gives the same average for any reordering of the list. */
  lemma MeanPermutation(a: seq<Movie>, b: seq<Movie>)
    requires |a| > 0 && multiset(a) == multiset(b)
    ensures |b| == |a| && MeanTenths(a) == MeanTenths(b)
  {
    assert |multiset(a)| == |multiset(b)|;
    SumPermutation(a, b);
  }

  lemma {:induction false} SumBounds(ms: seq<Movie>, lo: int, hi: int)
    requires forall i :: 0 <= i < |ms| ==> lo <= ms[i].score <= hi
    ensures |ms| * lo <= SumScores(ms) <= |ms| * hi
  {
    if ms != [] {
      var n := |ms| - 1;
      SumBounds(ms[..n], lo, hi);
      var s, nlo, nhi := SumScores(ms[..n]), n * lo, n * hi;
      assert (n + 1) * lo == nlo + lo;
      assert (n + 1) * hi == nhi + hi;
    }
  }

  /** The average lies between the lowest and the highest score. */
  lemma MeanWithinScores(ms: seq<Movie>, lo: int, hi: int)
    requires |ms| > 0
    requires forall i :: 0 <= i < |ms| ==> lo <= ms[i].score <= hi
    ensures lo <= MeanTenths(ms) <= hi
  {
    var n, q, s := |ms|, MeanTenths(ms), SumScores(ms);
    SumBounds(ms, lo, hi);
    MeanBetween(s, n, q, lo, hi);
  }

  /** A quotient rounded to within half a unit lies between the bounds of
      its dividend. */
  lemma MeanBetween(s: int, n: int, q: int, lo: int, hi: int)
    requires n > 0 && n * lo <= s <= n * hi
    requires 2 * (s - q * n) <= n && 2 * (q * n - s) <= n
    ensures lo <= q <= hi
  {
    Distribute(hi, n);
    Distribute(lo - 1, n);
    if q > hi {
      MulMonotone(hi + 1, q, n);
    }
    if q < lo {
      MulMonotone(q, lo - 1, n);
    }
  }

  lemma MulMonotone(a: int, b: int, n: nat)
    requires a <= b
    ensures a * n <= b * n
  {
  }

  lemma Distribute(a: int, n: int)
    ensures (a + 1) * n == a * n + n && n * a == a * n
  {
  }

  /** `get_average_scores` over the keys `names` of the dictionary `lists`. */
  function Aggregate(names: seq<Director>, lists: map<Director, seq<Movie>>): (out: seq<Entry>)
    requires forall d :: d in names ==> d in lists
    ensures forall e :: e in out ==>
      && e.director in names
      && e.movies == lists[e.director]
      && |e.movies| >= MIN_MOVIES
      && e.avg == MeanTenths(e.movies)
  {
    if names == [] then []
    else
      var d := names[|names| - 1];
      var prev := Aggregate(names[..|names| - 1], lists);
      if |lists[d]| < MIN_MOVIES then prev
      else prev + [Entry(d, MeanTenths(lists[d]), lists[d])]
  }

  /** `get_average_scores`: one pass over the dictionary in key order. */
  method GetAverageScores(g: Groups) returns (out: seq<Entry>)
    requires forall d :: d in g.names ==> d in g.lists
    ensures out == Aggregate(g.names, g.lists)
  {
    out := [];
    for i := 0 to |g.names|
      invariant out == Aggregate(g.names[..i], g.lists)
    {
      assert g.names[..i + 1][..i] == g.names[..i];
      var d := g.names[i];
      var movies := g.lists[d];
      var counter := |movies|;
      if counter < MIN_MOVIES {
        continue;
      }
      var avg := MeanTenths(movies);
      out := out + [Entry(d, avg, movies)];
    }
    assert g.names[..|g.names|] == g.names;
  }

  /** A director is kept exactly when it has at least MIN_MOVIES movies: one
      with MIN_MOVIES - 1 is dropped and one with MIN_MOVIES is kept. */
  lemma {:induction false} AggregateMember(names: seq<Director>, lists: map<Director, seq<Movie>>, d: Director)
    requires forall x :: x in names ==> x in lists
    ensures d in Directors(Aggregate(names, lists)) <==> d in names && |lists[d]| >= MIN_MOVIES
  {
    if names != [] {
      var n := |names| - 1;
      var init := names[..n];
      AggregateMember(init, lists, d);
      assert names == init + [names[n]];
      var prev := Aggregate(init, lists);
      assert d in names <==> d in init || d == names[n];
      if |lists[names[n]]| >= MIN_MOVIES {
        var e := Entry(names[n], MeanTenths(lists[names[n]]), lists[names[n]]);
        DirectorsAppend(prev, [e]);
        assert Directors([e]) == [names[n]];
        assert Directors(Aggregate(names, lists)) == Directors(prev) + [names[n]];
      }
    }
  }

  /** The entries' directors appear in `names`, in the same order. */
  predicate InKeyOrder(es: seq<Entry>, names: seq<Director>) {
    forall i, j :: 0 <= i < j < |es| ==>
      es[i].director in names && es[j].director in names &&
      IndexOf(names, es[i].director) < IndexOf(names, es[j].director)
  }

  /** Kept directors stay in the order of the dictionary's keys. */
  lemma {:induction false} AggregateOrder(names: seq<Director>, lists: map<Director, seq<Movie>>)
    requires forall d :: d in names ==> d in lists
    requires Distinct(names)
    ensures InKeyOrder(Aggregate(names, lists), names)
  {
    if names != [] {
      var n := |names| - 1;
      var init := names[..n];
      AggregateOrder(init, lists);
      var prev := Aggregate(init, lists);
      var out := Aggregate(names, lists);
      forall e | e in prev ensures e.director in names && IndexOf(names, e.director) < n {
        IndexOfPrefix(names, n, e.director);
      }
      IndexOfDistinct(names, n);
      forall i, j | 0 <= i < j < |out|
        ensures out[i].director in names && out[j].director in names
        ensures IndexOf(names, out[i].director) < IndexOf(names, out[j].director)
      {
        assert out[i] == prev[i];
        IndexOfPrefix(names, n, out[i].director);
        if j < |prev| {
          assert out[j] == prev[j];
          IndexOfPrefix(names, n, out[j].director);
        } else {
          assert out[j].director == names[n];
          assert IndexOf(names, out[i].director) < n;
        }
      }
    }
  }

  lemma {:induction false} IndexOfPrefix<T>(s: seq<T>, n: nat, x: T)
    requires n <= |s| && x in s[..n]
    ensures IndexOf(s, x) == IndexOf(s[..n], x) < n
  {
    if s[0] != x {
      assert s[1..][..n - 1] == s[..n][1..];
      IndexOfPrefix(s[1..], n - 1, x);
    }
  }

  lemma {:induction false} IndexOfDistinct<T>(s: seq<T>, i: nat)
    requires i < |s| && Distinct(s)
    ensures IndexOf(s, s[i]) == i
  {
    if i > 0 {
      IndexOfDistinct(s[1..], i - 1);
    }
  }
}
