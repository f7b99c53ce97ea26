/**
 * The loader: `get_movies_by_director` walks the rows in order, skips a row
 * whose title, year or score does not parse, skips a movie released before
 * MIN_YEAR, and appends every other movie to the list of its director.
 */
module Loader {
  import opened Wrappers
  import opened Movies

  /** The movie a row contributes, if any: it must parse and must not be
      older than MIN_YEAR. */
  function Accept(r: Row): (m: Option<Movie>)
    ensures m.Some? <==> Parse(r).Some? && Parse(r).value.year >= MIN_YEAR
    ensures m.Some? ==> m == Parse(r)
  {
    match Parse(r)
    case None => None
    case Some(movie) => if movie.year < MIN_YEAR then None else Some(movie)
  }

  /** Row `r` is kept and belongs to director `d`. */
  predicate KeptFor(r: Row, d: Director) {
    r.director == d && Accept(r).Some?
  }

  /** What row `r` adds to the list of director `d`. */
  function Contribution(r: Row, d: Director): seq<Movie> {
    if KeptFor(r, d) then [Accept(r).value] else []
  }

  /** The movies of director `d` among `rows`, in row order. */
  function MoviesOf(rows: seq<Row>, d: Director): seq<Movie> {
    if rows == [] then []
    else MoviesOf(rows[..|rows| - 1], d) + Contribution(rows[|rows| - 1], d)
  }

  /** The directors with at least one accepted row, in the order in which
      their first accepted row appears. */
  function FirstSeen(rows: seq<Row>): (names: seq<Director>)
    ensures Distinct(names)
  {
    if rows == [] then []
    else
      var prev := FirstSeen(rows[..|rows| - 1]);
      var r := rows[|rows| - 1];
      if Accept(r).Some? && r.director !in prev then prev + [r.director] else prev
  }

  /** The dictionary that `get_movies_by_director` returns for `rows`. */
  function Grouping(rows: seq<Row>): (g: Groups)
    ensures Distinct(g.names)
    ensures forall d :: d in g.lists <==> d in g.names
  {
    var names := FirstSeen(rows);
    Groups(names, map d | d in names :: MoviesOf(rows, d))
  }

  /** A director is a key exactly when at least one of its rows is kept. */
  lemma {:induction false} FirstSeenMember(rows: seq<Row>, d: Director)
    ensures d in FirstSeen(rows) <==> MoviesOf(rows, d) != []
  {
    if rows != [] {
      FirstSeenMember(rows[..|rows| - 1], d);
    }
  }

  /** One more row, seen as the prefix `rows[..i + 1]`. */
  lemma {:induction false} PrefixStep(rows: seq<Row>, i: nat)
    requires i < |rows|
    ensures FirstSeen(rows[..i + 1]) ==
      if Accept(rows[i]).Some? && rows[i].director !in FirstSeen(rows[..i])
      then FirstSeen(rows[..i]) + [rows[i].director] else FirstSeen(rows[..i])
    ensures forall d :: MoviesOf(rows[..i + 1], d) == MoviesOf(rows[..i], d) + Contribution(rows[i], d)
  {
    assert rows[..i + 1][..i] == rows[..i];
  }

  /** Grouping distributes over concatenation: the rows after a point only
      ever append to the lists built from the rows before it. */
  lemma {:induction false} MoviesOfAppend(a: seq<Row>, b: seq<Row>, d: Director)
    ensures MoviesOf(a + b, d) == MoviesOf(a, d) + MoviesOf(b, d)
  {
    if b == [] {
      assert a + b == a;
    } else {
      var b', r := b[..|b| - 1], b[|b| - 1];
      assert (a + b)[..|a + b| - 1] == a + b';
      MoviesOfAppend(a, b', d);
    }
  }

  /** Every stored movie comes from a kept row of exactly its own director,
      and every such row contributes its movie. */
  lemma {:induction false} MoviesOfOrigin(rows: seq<Row>, d: Director, m: Movie)
    ensures m in MoviesOf(rows, d) <==>
            exists i :: 0 <= i < |rows| && rows[i].director == d && Accept(rows[i]) == Some(m)
  {
    if rows != [] {
      var init := rows[..|rows| - 1];
      MoviesOfOrigin(init, d, m);
      if m in MoviesOf(rows, d) && m !in MoviesOf(init, d) {
        var i := |rows| - 1;
        assert rows[i].director == d && Accept(rows[i]) == Some(m);
      }
      if exists i :: 0 <= i < |rows| && rows[i].director == d && Accept(rows[i]) == Some(m) {
        var i :| 0 <= i < |rows| && rows[i].director == d && Accept(rows[i]) == Some(m);
        if i < |rows| - 1 {
          assert init[i] == rows[i];
        }
      }
    }
  }

  /** No stored movie is older than MIN_YEAR. */
  lemma MoviesOfRecent(rows: seq<Row>, d: Director)
    ensures forall m :: m in MoviesOf(rows, d) ==> m.year >= MIN_YEAR
  {
    forall m | m in MoviesOf(rows, d) ensures m.year >= MIN_YEAR {
      MoviesOfOrigin(rows, d, m);
    }
  }

  /** The indices of the rows of director `d` that are kept. */
  function KeptRows(rows: seq<Row>, d: Director): set<nat> {
    set i: nat | i < |rows| && KeptFor(rows[i], d)
  }

  /** A director's list has one movie per kept row of that director. */
  lemma {:induction false} MoviesOfCount(rows: seq<Row>, d: Director)
    ensures |MoviesOf(rows, d)| == |KeptRows(rows, d)|
  {
    if rows != [] {
      var n := |rows| - 1;
      MoviesOfCount(rows[..n], d);
      KeptRowsLast(rows, d);
    }
  }

  lemma KeptRowsLast(rows: seq<Row>, d: Director)
    requires rows != []
    ensures var n := |rows| - 1;
      && n !in KeptRows(rows[..n], d)
      && KeptRows(rows, d) == KeptRows(rows[..n], d) + if KeptFor(rows[n], d) then {n} else {}
  {
    var n := |rows| - 1;
    var kept, kept' := KeptRows(rows[..n], d), KeptRows(rows, d);
    var last := if KeptFor(rows[n], d) then {n} else {};
    forall i: nat ensures i in kept' <==> i in kept + last {
      if i < n {
        assert rows[..n][i] == rows[i];
      }
    }
  }

  /** The index of the first kept row of director `d`. */
  function FirstKept(rows: seq<Row>, d: Director): (k: nat)
    requires KeptRows(rows, d) != {}
    ensures k in KeptRows(rows, d)
    ensures forall i :: i in KeptRows(rows, d) ==> k <= i
    decreases |rows|
  {
    var n := |rows| - 1;
    KeptRowsLast(rows, d);
    if KeptRows(rows[..n], d) != {} then FirstKept(rows[..n], d) else n
  }

  /** A director is a key exactly when it has a kept row. */
  lemma {:induction false} FirstSeenKept(rows: seq<Row>, d: Director)
    ensures d in FirstSeen(rows) <==> KeptRows(rows, d) != {}
  {
    if rows != [] {
      var n := |rows| - 1;
      FirstSeenKept(rows[..n], d);
      KeptRowsLast(rows, d);
    }
  }

  /** Adding a row does not move the first kept row of a director that
      already had one. */
  lemma FirstKeptLast(rows: seq<Row>, d: Director)
    requires rows != [] && KeptRows(rows[..|rows| - 1], d) != {}
    ensures KeptRows(rows, d) != {}
    ensures FirstKept(rows, d) == FirstKept(rows[..|rows| - 1], d) < |rows| - 1
  {
    KeptRowsLast(rows, d);
  }

  /** The keys are in the order of their directors' first kept rows: the
      dictionary's insertion order. */
  lemma {:induction false} FirstSeenOrder(rows: seq<Row>, i: nat, j: nat)
    requires i < j < |FirstSeen(rows)|
    ensures KeptRows(rows, FirstSeen(rows)[i]) != {} && KeptRows(rows, FirstSeen(rows)[j]) != {}
    ensures FirstKept(rows, FirstSeen(rows)[i]) < FirstKept(rows, FirstSeen(rows)[j])
  {
    var n := |rows| - 1;
    var init, r := rows[..n], rows[n];
    var prev, names := FirstSeen(init), FirstSeen(rows);
    var x, y := names[i], names[j];
    assert x == prev[i];
    FirstSeenKept(init, x);
    FirstKeptLast(rows, x);
    if j < |prev| {
      assert y == prev[j];
      FirstSeenKept(init, y);
      FirstKeptLast(rows, y);
      FirstSeenOrder(init, i, j);
    } else {
      assert y == r.director && y !in prev;
      FirstSeenKept(init, y);
      KeptRowsLast(rows, y);
      assert KeptRows(rows, y) == {n};
    }
  }

  /** The movie of kept row `i` sits in its director's list right after the
      movies of the earlier rows: lists keep the order of the rows. */
  lemma MoviesOfPosition(rows: seq<Row>, i: nat)
    requires i < |rows| && Accept(rows[i]).Some?
    ensures var d, k := rows[i].director, |MoviesOf(rows[..i], rows[i].director)|;
            k < |MoviesOf(rows, d)| && MoviesOf(rows, d)[k] == Accept(rows[i]).value
  {
    var d := rows[i].director;
    assert rows == rows[..i] + ([rows[i]] + rows[i + 1..]);
    MoviesOfAppend(rows[..i], [rows[i]] + rows[i + 1..], d);
    MoviesOfAppend([rows[i]], rows[i + 1..], d);
    MoviesOfSingle(rows[i], d);
  }

  /** A row that fails to parse, or whose movie is older than MIN_YEAR,
      changes nothing: the result is that of the other rows alone. */
  lemma SkippedRowIgnored(a: seq<Row>, r: Row, b: seq<Row>)
    requires Parse(r).None? || Parse(r).value.year < MIN_YEAR
    ensures FirstSeen(a + [r] + b) == FirstSeen(a + b)
    ensures forall d :: MoviesOf(a + [r] + b, d) == MoviesOf(a + b, d)
  {
    SkippedRowFirstSeen(a, r, b);
    forall d ensures MoviesOf(a + [r] + b, d) == MoviesOf(a + b, d) {
      SkippedRowMovies(a, r, b, d);
    }
  }

  lemma SkippedRowMovies(a: seq<Row>, r: Row, b: seq<Row>, d: Director)
    requires Accept(r).None?
    ensures MoviesOf(a + [r] + b, d) == MoviesOf(a + b, d)
  {
    MoviesOfAppend(a + [r], b, d);
    MoviesOfAppend(a, [r], d);
    MoviesOfSingle(r, d);
    MoviesOfAppend(a, b, d);
  }

  lemma MoviesOfSingle(r: Row, d: Director)
    ensures MoviesOf([r], d) == Contribution(r, d)
  {
    assert [r][..0] == [];
  }

  lemma {:induction false} SkippedRowFirstSeen(a: seq<Row>, r: Row, b: seq<Row>)
    requires Accept(r).None?
    ensures FirstSeen(a + [r] + b) == FirstSeen(a + b)
  {
    if b == [] {
      assert (a + [r] + b)[..|a|] == a + b;
    } else {
      var b' := b[..|b| - 1];
      SkippedRowFirstSeen(a, r, b');
      assert (a + [r] + b)[..|a| + |b|] == a + [r] + b';
      assert (a + b)[..|a| + |b| - 1] == a + b';
    }
  }

  /** So is the whole dictionary. */
  lemma SkippedRowGrouping(a: seq<Row>, r: Row, b: seq<Row>)
    requires Parse(r).None? || Parse(r).value.year < MIN_YEAR
    ensures Grouping(a + [r] + b) == Grouping(a + b)
  {
    SkippedRowIgnored(a, r, b);
  }

  /** Any dictionary whose keys are the first-seen directors and whose
      lists are the per-director movies is the grouping of the rows. */
  lemma {:induction false} GroupingUnique(rows: seq<Row>, g: Groups)
    requires g.names == FirstSeen(rows)
    requires forall d :: d in g.lists <==> d in g.names
    requires forall d :: d in g.lists ==> g.lists[d] == MoviesOf(rows, d)
    ensures g == Grouping(rows)
  {
    assert g.lists.Keys == Grouping(rows).lists.Keys;
  }

  /** A row that is not accepted leaves every list as it was. */
  lemma SkipStep(rows: seq<Row>, i: nat, lists: map<Director, seq<Movie>>)
    requires i < |rows| && Accept(rows[i]).None?
    requires forall d :: d in lists ==> lists[d] == MoviesOf(rows[..i], d)
    ensures forall d :: d in lists ==> lists[d] == MoviesOf(rows[..i + 1], d)
  {
    PrefixStep(rows, i);
  }

  /** An accepted row extends the list of its own director by its movie
      and leaves every other list as it was. */
  lemma AppendStep(rows: seq<Row>, i: nat, lists: map<Director, seq<Movie>>)
    requires i < |rows| && Accept(rows[i]).Some?
    requires rows[i].director in lists
    requires forall d :: d in lists && d != rows[i].director ==> lists[d] == MoviesOf(rows[..i], d)
    requires lists[rows[i].director] == MoviesOf(rows[..i], rows[i].director)
    ensures var d := rows[i].director;
      var next := lists[d := lists[d] + [Accept(rows[i]).value]];
      forall x :: x in next ==> next[x] == MoviesOf(rows[..i + 1], x)
  {
    PrefixStep(rows, i);
    var d := rows[i].director;
    var next := lists[d := lists[d] + [Accept(rows[i]).value]];
    forall x | x in next ensures next[x] == MoviesOf(rows[..i + 1], x) {
      if x != d {
        assert next[x] == lists[x];
      }
    }
  }

  /** `get_movies_by_director`: one pass over the rows, appending each kept
      movie to its director's list, the list being created on first use. */
  method GetMoviesByDirector(rows: seq<Row>) returns (g: Groups)
    ensures g.names == FirstSeen(rows)
    ensures forall d :: d in g.lists <==> d in g.names
    ensures forall d :: d in g.lists ==> g.lists[d] == MoviesOf(rows, d)
  {
    var names: seq<Director> := [];
    var lists: map<Director, seq<Movie>> := map[];
    for i := 0 to |rows|
      invariant names == FirstSeen(rows[..i])
      invariant forall d :: d in lists <==> d in names
      invariant forall d :: d in lists ==> lists[d] == MoviesOf(rows[..i], d)
    {
      PrefixStep(rows, i);
      var parsed := Parse(rows[i]);
      if parsed.None? {
        SkipStep(rows, i, lists);
        continue;
      }
      var movie := parsed.value;
      if movie.year < MIN_YEAR {
        SkipStep(rows, i, lists);
        continue;
      }
      var d := rows[i].director;
      if d !in lists {
        FirstSeenMember(rows[..i], d);
        names := names + [d];
        lists := lists[d := []];
      }
      AppendStep(rows, i, lists);
      lists := lists[d := lists[d] + [movie]];
    }
    assert rows[..|rows|] == rows;
    g := Groups(names, lists);
  }
}
