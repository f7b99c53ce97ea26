/**
 * The report: `print_results` orders the aggregated entries by average,
 * keeps the best NUM_TOP_DIRECTORS of them and, for each, prints a header
 * with the number of movies, the director and the average, followed by the
 * director's movies ordered by score. The printed text itself is left out;
 * the model produces, per header, the values it shows and the movie lines
 * in the order they are printed.
 */
module Reporter {
  import opened Movies
  import opened StableSort

  /** The sort key of a dictionary item: the average stored in its key. */
  function AvgKey(e: Entry): int {
    e.avg
  }

  /** The sort key of a movie: its score. */
  function ScoreKey(m: Movie): int {
    m.score
  }

  /** `sorted(directors.items(), key=avg, reverse=True)[:20]`. */
  function TopDirectors(es: seq<Entry>): (top: seq<Entry>)
    ensures |top| == if |es| < NUM_TOP_DIRECTORS then |es| else NUM_TOP_DIRECTORS
    ensures NonIncreasing(top, AvgKey)
    ensures forall i :: 0 <= i < |top| ==> top[i] in es
  {
    var sorted := SortDesc(es, AvgKey);
    var top := if |sorted| <= NUM_TOP_DIRECTORS then sorted else sorted[..NUM_TOP_DIRECTORS];
    forall i | 0 <= i < |top| ensures top[i] in es {
      assert top[i] == sorted[i];
      assert sorted[i] in multiset(es);
    }
    top
  }

  /** With at most NUM_TOP_DIRECTORS entries nothing is cut off: the top
      list is a reordering of all of them. */
  lemma TopDirectorsAll(es: seq<Entry>)
    requires |es| <= NUM_TOP_DIRECTORS
    ensures multiset(TopDirectors(es)) == multiset(es)
  {
  }

  /** An entry left out of the top list has an average no higher than any
      entry in it. */
  lemma TopDirectorsBest(es: seq<Entry>, e: Entry)
    requires e in es && e !in TopDirectors(es)
    ensures |TopDirectors(es)| == NUM_TOP_DIRECTORS
    ensures forall i :: 0 <= i < NUM_TOP_DIRECTORS ==> TopDirectors(es)[i].avg >= e.avg
  {
    var sorted := SortDesc(es, AvgKey);
    assert e in multiset(sorted);
    var k :| 0 <= k < |sorted| && sorted[k] == e;
    var top := TopDirectors(es);
    assert k >= |top| && |sorted| > NUM_TOP_DIRECTORS;
    forall i | 0 <= i < NUM_TOP_DIRECTORS ensures top[i].avg >= e.avg {
      assert AvgKey(sorted[i]) >= AvgKey(sorted[k]);
    }
  }

  /** Stability of the director order: entries with the same average are
      listed in dictionary order, and those kept are the first ones. */
  lemma TopDirectorsStable(es: seq<Entry>, avg: int)
    ensures WithKey(TopDirectors(es), AvgKey, avg) <= WithKey(es, AvgKey, avg)
  {
    var sorted := SortDesc(es, AvgKey);
    SortDescStable(es, AvgKey, avg);
    if |sorted| > NUM_TOP_DIRECTORS {
      WithKeyPrefix(sorted, NUM_TOP_DIRECTORS, AvgKey, avg);
    }
  }

  /** No director is listed twice in the top list when no director has two
      entries. */
  lemma TopDirectorsDistinct(es: seq<Entry>)
    requires Distinct(Directors(es))
    ensures Distinct(Directors(TopDirectors(es)))
  {
    var sorted := SortDesc(es, AvgKey);
    var top := TopDirectors(es);
    DistinctEntries(es);
    DistinctPermutation(es, sorted);
    assert Distinct(top) by {
      forall i, j | 0 <= i < j < |top| ensures top[i] != top[j] {
        assert top[i] == sorted[i] && top[j] == sorted[j];
      }
    }
    DistinctDirectorsOfSubset(es, top);
  }

  /** Entries with different directors are different entries. */
  lemma DistinctEntries(es: seq<Entry>)
    requires Distinct(Directors(es))
    ensures Distinct(es)
  {
    forall i, j | 0 <= i < j < |es| ensures es[i] != es[j] {
      assert Directors(es)[i] != Directors(es)[j];
    }
  }

  /** Different entries drawn from `es` have different directors. */
  lemma DistinctDirectorsOfSubset(es: seq<Entry>, sub: seq<Entry>)
    requires Distinct(Directors(es)) && Distinct(sub)
    requires forall i :: 0 <= i < |sub| ==> sub[i] in es
    ensures Distinct(Directors(sub))
  {
    forall i, j | 0 <= i < j < |sub| ensures Directors(sub)[i] != Directors(sub)[j] {
      var p := IndexOf(es, sub[i]);
      var q := IndexOf(es, sub[j]);
      assert Directors(es)[p] == sub[i].director && Directors(es)[q] == sub[j].director;
    }
  }

  /** What one director's part of the report shows: the header values and
      the movie lines in printed order. */
  datatype Block = Block(count: nat, director: Director, avg: int, movies: seq<Movie>)

  /** `b` is a faithful rendering of entry `e`: the header counts the
      director's movies and repeats the key, and the movie lines are the
      director's movies ordered by non-increasing score. */
  predicate Presents(b: Block, e: Entry) {
    && b.count == |e.movies| == |b.movies|
    && b.director == e.director
    && b.avg == e.avg
    && multiset(b.movies) == multiset(e.movies)
    && NonIncreasing(b.movies, ScoreKey)
  }

  /** One iteration of the printing loop: the header and
      `sorted(movies, key=score, reverse=True)`. */
  function DirectorBlock(e: Entry): (b: Block)
    ensures Presents(b, e)
  {
    Block(|e.movies|, e.director, e.avg, SortDesc(e.movies, ScoreKey))
  }

  /** Stability of the movie order: movies with the same score are printed
      in the order in which they were read. */
  lemma DirectorBlockStable(e: Entry, score: int)
    ensures WithKey(DirectorBlock(e).movies, ScoreKey, score) == WithKey(e.movies, ScoreKey, score)
  {
    SortDescStable(e.movies, ScoreKey, score);
  }

  /** The blocks for a list of entries, one per entry, in order. */
  function Blocks(top: seq<Entry>): (bs: seq<Block>)
    ensures |bs| == |top|
    ensures forall i :: 0 <= i < |top| ==> bs[i] == DirectorBlock(top[i])
  {
    seq(|top|, i requires 0 <= i < |top| => DirectorBlock(top[i]))
  }

  lemma BlocksSnoc(top: seq<Entry>, n: nat)
    requires n < |top|
    ensures Blocks(top[..n + 1]) == Blocks(top[..n]) + [DirectorBlock(top[n])]
  {
    var a, b := Blocks(top[..n + 1]), Blocks(top[..n]) + [DirectorBlock(top[n])];
    forall i | 0 <= i <= n ensures a[i] == b[i] {
      assert top[..n + 1][i] == top[i];
      if i < n {
        assert top[..n][i] == top[i];
      }
    }
  }

  /** Everything `print_results` prints, block by block. */
  function Report(es: seq<Entry>): seq<Block> {
    Blocks(TopDirectors(es))
  }

  /** The report has at most NUM_TOP_DIRECTORS blocks, each presenting the
      corresponding top entry, with headers in non-increasing average. */
  lemma ReportShape(es: seq<Entry>)
    ensures |Report(es)| == |TopDirectors(es)| <= NUM_TOP_DIRECTORS
    ensures forall i :: 0 <= i < |Report(es)| ==> Presents(Report(es)[i], TopDirectors(es)[i])
    ensures forall i, j :: 0 <= i < j < |Report(es)| ==> Report(es)[i].avg >= Report(es)[j].avg
  {
    var top := TopDirectors(es);
    forall i | 0 <= i < |Report(es)| ensures Presents(Report(es)[i], top[i]) {
      assert Report(es)[i] == DirectorBlock(top[i]);
    }
    forall i, j | 0 <= i < j < |Report(es)| ensures Report(es)[i].avg >= Report(es)[j].avg {
      assert AvgKey(top[i]) >= AvgKey(top[j]);
    }
  }

  /** Each director has at most one block when no director has two
      entries. */
  lemma ReportDistinct(es: seq<Entry>)
    requires Distinct(Directors(es))
    ensures forall i, j :: 0 <= i < j < |Report(es)| ==> Report(es)[i].director != Report(es)[j].director
  {
    var top := TopDirectors(es);
    TopDirectorsDistinct(es);
    forall i, j | 0 <= i < j < |Report(es)| ensures Report(es)[i].director != Report(es)[j].director {
      assert Report(es)[i] == DirectorBlock(top[i]) && Report(es)[j] == DirectorBlock(top[j]);
      assert Directors(top)[i] != Directors(top)[j];
    }
  }

  /** Every entry is printed, unless the report is full and every printed
      block has an average at least as high. */
  lemma ReportIncludes(es: seq<Entry>, e: Entry)
    requires e in es
    ensures || (exists i :: 0 <= i < |Report(es)| && Report(es)[i].director == e.director)
            || (&& |Report(es)| == NUM_TOP_DIRECTORS
                && forall i :: 0 <= i < NUM_TOP_DIRECTORS ==> Report(es)[i].avg >= e.avg)
  {
    var top := TopDirectors(es);
    if e in top {
      var j :| 0 <= j < |top| && top[j] == e;
      assert Report(es)[j] == DirectorBlock(e);
    } else {
      TopDirectorsBest(es, e);
      forall i | 0 <= i < NUM_TOP_DIRECTORS ensures Report(es)[i].avg >= e.avg {
        assert Report(es)[i] == DirectorBlock(top[i]);
      }
    }
  }

  /** `print_results`: the loop over the top directors, emitting one block
      per director in order. */
  method PrintResults(es: seq<Entry>) returns (out: seq<Block>)
    ensures out == Report(es)
  {
    var top := TopDirectors(es);
    out := [];
    for i := 0 to |top|
      invariant out == Blocks(top[..i])
    {
      BlocksSnoc(top, i);
      var topMovies := SortDesc(top[i].movies, ScoreKey);
      out := out + [Block(|top[i].movies|, top[i].director, top[i].avg, topMovies)];
    }
    assert top[..|top|] == top;
  }
}
