/**
 * `main`: the loader, the aggregator and the report run one after the
 * other on the rows of the CSV file. The properties below follow a row all
 * the way to the printed report.
 */
module Pipeline {
  import opened Movies
  import opened StableSort
  import opened Loader
  import opened Aggregator
  import opened Reporter

  /** The aggregated entries for `rows`. */
  function Entries(rows: seq<Row>): seq<Entry> {
    var g := Grouping(rows);
    Aggregate(g.names, g.lists)
  }

  /** What the program prints for `rows`. */
  function Output(rows: seq<Row>): seq<Block> {
    Report(Entries(rows))
  }

  /** `main`: the three stages in order. */
  method Run(rows: seq<Row>) returns (blocks: seq<Block>)
    ensures blocks == Output(rows)
  {
    var directors := GetMoviesByDirector(rows);
    GroupingUnique(rows, directors);
    var averaged := GetAverageScores(directors);
    blocks := PrintResults(averaged);
  }

  /** Every aggregated entry holds all the kept rows of its director, at
      least MIN_MOVIES of them, and their average. */
  lemma EntryOfRows(rows: seq<Row>, e: Entry)
    requires e in Entries(rows)
    ensures e.movies == MoviesOf(rows, e.director)
    ensures |e.movies| == |KeptRows(rows, e.director)| >= MIN_MOVIES
    ensures e.avg == MeanTenths(MoviesOf(rows, e.director))
  {
    MoviesOfCount(rows, e.director);
  }

  /** Each printed block: its header counts exactly the kept rows of its
      director, at least MIN_MOVIES; its average is the mean of those rows'
      scores; its movie lines are those rows' movies, each from MIN_YEAR on,
      ordered by non-increasing score. */
  lemma OutputBlock(rows: seq<Row>, i: nat)
    requires i < |Output(rows)|
    ensures var b := Output(rows)[i];
      && b.count == |b.movies| == |KeptRows(rows, b.director)|
      && b.count >= MIN_MOVIES
      && multiset(b.movies) == multiset(MoviesOf(rows, b.director))
      && b.avg == MeanTenths(MoviesOf(rows, b.director))
      && NonIncreasing(b.movies, ScoreKey)
      && forall m :: m in b.movies ==> m.year >= MIN_YEAR
  {
    var es := Entries(rows);
    var top := TopDirectors(es);
    var b := Output(rows)[i];
    ReportShape(es);
    assert Presents(b, top[i]);
    EntryOfRows(rows, top[i]);
    MoviesOfRecent(rows, b.director);
    forall m | m in b.movies ensures m.year >= MIN_YEAR {
      assert m in multiset(MoviesOf(rows, b.director));
    }
  }

  /** A director with fewer than MIN_MOVIES kept rows is not printed. */
  lemma FewRowsNotPrinted(rows: seq<Row>, d: Director)
    requires |KeptRows(rows, d)| < MIN_MOVIES
    ensures forall i :: 0 <= i < |Output(rows)| ==> Output(rows)[i].director != d
  {
    forall i | 0 <= i < |Output(rows)| ensures Output(rows)[i].director != d {
      OutputBlock(rows, i);
    }
  }

  /** A director with at least MIN_MOVIES movies is printed, unless the
      report is full and every printed director averages at least as much. */
  lemma EnoughRowsPrinted(rows: seq<Row>, d: Director)
    requires |MoviesOf(rows, d)| >= MIN_MOVIES
    ensures || (exists i :: 0 <= i < |Output(rows)| && Output(rows)[i].director == d)
            || (&& |Output(rows)| == NUM_TOP_DIRECTORS
                && forall i :: 0 <= i < NUM_TOP_DIRECTORS ==>
                     Output(rows)[i].avg >= MeanTenths(MoviesOf(rows, d)))
  {
    var g := Grouping(rows);
    var es := Entries(rows);
    FirstSeenMember(rows, d);
    AggregateMember(g.names, g.lists, d);
    var k :| 0 <= k < |es| && Directors(es)[k] == d;
    var e := es[k];
    assert e in es && e.director == d;
    EntryOfRows(rows, e);
    assert Output(rows) == Report(es);
    ReportIncludes(es, e);
  }

  /** No director is printed twice. */
  lemma OutputDistinct(rows: seq<Row>)
    ensures forall i, j :: 0 <= i < j < |Output(rows)| ==> Output(rows)[i].director != Output(rows)[j].director
  {
    var g := Grouping(rows);
    var es := Entries(rows);
    AggregateOrder(g.names, g.lists);
    forall i, j | 0 <= i < j < |es| ensures Directors(es)[i] != Directors(es)[j] {
      assert IndexOf(g.names, es[i].director) < IndexOf(g.names, es[j].director);
    }
    ReportDistinct(es);
  }
}
