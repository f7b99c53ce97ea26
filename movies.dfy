/**
 * The records of the movie/director pipeline and its configuration
 * constants. IMDb scores carry one decimal, so a score is kept as an
 * integer number of tenths (7.5 is 75) and every comparison is exact.
 */
module Movies {
  import opened Wrappers
  import opened Text

  const NUM_TOP_DIRECTORS: nat := 20
  const MIN_MOVIES: nat := 4
  const MIN_YEAR: int := 1960

  /** The `Movie(title, year, score)` named tuple; score in tenths. */
  datatype Movie = Movie(title: string, year: int, score: int)

  /** The `director_name` field of a row, the dictionary key; keys are
      compared as exact strings. */
  datatype Director = Director(name: string)

  /** One data row of the CSV file after tokenising. The director field is
      used as it stands; a title, year or score that is missing or does not
      parse as its type is `None`. */
  datatype Row = Row(director: Director, title: Option<string>, year: Option<int>, score: Option<int>)

  /** The per-director lists built by the loader. `names` is the insertion
      order of the dictionary's keys, `lists` maps each key to its movies. */
  datatype Groups = Groups(names: seq<Director>, lists: map<Director, seq<Movie>>)

  /** One entry of the ordered dictionary built by the aggregator: the key
      `(director, average)` and its value, the director's movie list. The
      average is in tenths. */
  datatype Entry = Entry(director: Director, avg: int, movies: seq<Movie>)

  /** Building a `Movie` from a row: fails when any of the three fields
      fails; the title is stripped of surrounding whitespace. */
  function Parse(r: Row): (m: Option<Movie>)
    ensures m.Some? <==> r.title.Some? && r.year.Some? && r.score.Some?
    ensures m.Some? ==> m.value.title == Strip(r.title.value)
    ensures m.Some? ==> m.value.year == r.year.value && m.value.score == r.score.value
  {
    if r.title.Some? && r.year.Some? && r.score.Some? then
      Some(Movie(Strip(r.title.value), r.year.value, r.score.value))
    else
      None
  }

  /** The directors of a sequence of entries, in order. */
  function Directors(es: seq<Entry>): seq<Director> {
    seq(|es|, k requires 0 <= k < |es| => es[k].director)
  }

  lemma DirectorsAppend(a: seq<Entry>, b: seq<Entry>)
    ensures Directors(a + b) == Directors(a) + Directors(b)
  {
  }

  /** Position of the first occurrence of `x` in `s`. */
  function IndexOf<T(==)>(s: seq<T>, x: T): (i: nat)
    requires x in s
    ensures i < |s| && s[i] == x && x !in s[..i]
  {
    if s[0] == x then 0 else 1 + IndexOf(s[1..], x)
  }

  /** No name occurs twice. */
  predicate Distinct<T(==)>(s: seq<T>) {
    forall i, j :: 0 <= i < j < |s| ==> s[i] != s[j]
  }

  lemma {:induction false} DistinctOnce<T>(s: seq<T>, x: T)
    requires Distinct(s)
    ensures multiset(s)[x] <= 1
  {
    if s != [] {
      var n := |s| - 1;
      assert s == s[..n] + [s[n]];
      DistinctOnce(s[..n], x);
      if s[n] == x {
        assert x !in s[..n];
      }
    }
  }

  lemma RepeatedTwice<T>(s: seq<T>, i: nat, j: nat)
    requires i < j < |s| && s[i] == s[j]
    ensures multiset(s)[s[i]] >= 2
  {
    assert s == s[..j] + s[j..];
    assert s[i] in s[..j] && s[j] in s[j..];
  }

  /** A reordering of a sequence without repetitions has none either. */
  lemma DistinctPermutation<T>(a: seq<T>, b: seq<T>)
    requires Distinct(a) && multiset(a) == multiset(b)
    ensures Distinct(b)
  {
    forall i, j | 0 <= i < j < |b| ensures b[i] != b[j] {
      if b[i] == b[j] {
        RepeatedTwice(b, i, j);
        DistinctOnce(a, b[i]);
      }
    }
  }
}
