# Directors by average IMDb score: a Dafny model

The program reads a CSV file of movies, groups the movies by director, keeps
the directors with enough movies, and prints the 20 directors with the
highest average IMDb score. Under each director it prints that director's
movies, best score first. Three stages do the work:

- `get_movies_by_director` reads every row. It skips a row whose title, year
  or score does not parse, and it skips a movie released before 1960
  (`MIN_YEAR`). Every other movie is appended to a per-director list, in
  row order, and a director becomes a key the first time one of their rows
  is kept.
- `get_average_scores` walks the directors in key order and drops anyone
  with fewer than 4 movies (`MIN_MOVIES`). For everyone else it records
  `(director, average)` as a key and keeps the unchanged movie list as the
  value. `_calc_mean` computes the average, rounded to one decimal.
- `print_results` sorts those entries by average, highest first, and keeps
  the first 20. For each one it prints a header: the number of movies, the
  director and the average. Then it prints the director's movies sorted by
  score, highest first. Both sorts are stable.

The model has one Dafny module per concern:

- `Movies`: the records and constants.
- `Text`: Python's `str.strip`.
- `StableSort`: `sorted(..., reverse=True)`.
- `Loader`, `Aggregator` and `Reporter`: the three stages.
- `Pipeline`: `main`.
- `Example`: one worked input, proved to give the expected output.

How the code is modelled:

- Each of the three stage loops (directors.py lines 18, 34 and 61) is a
  method with a `for` loop:
  - `Loader.GetMoviesByDirector` is proved against the specification
    functions `Loader.FirstSeen` and `Loader.MoviesOf`.
  - `Aggregator.GetAverageScores` is proved against `Aggregator.Aggregate`.
  - `Reporter.PrintResults` is proved against `Reporter.Report`.
- The sum inside `_calc_mean` (line 47) is the recursive function
  `Aggregator.SumScores`. The inner loop that prints one director's movies
  (lines 65-66) is the sorted sequence in `Reporter.DirectorBlock`.
- The lemmas state the program's promises about those functions.
- The dictionary that `get_movies_by_director` returns is a `Groups`
  value. It holds the key insertion order (`names`) and the lists (`lists`).
- A score is an integer number of tenths (7.5 is 75). IMDb scores carry one
  decimal, so every comparison and sum is exact.

## Model

| member | source | states |
|---|---|---|
| Movies.Parse | 13/mrbrenna83/directors.py:20 | A row yields a `Movie` exactly when title, year and score all parse. The title is the stripped raw title. Year and score are taken unchanged. |
| Text.StripLeftSpec | 13/mrbrenna83/directors.py:20 | `lstrip` keeps a suffix of the title. Everything it drops is whitespace. What it keeps does not start with whitespace. |
| Text.StripRightSpec | 13/mrbrenna83/directors.py:20 | `rstrip` keeps a prefix of the title. Everything it drops is whitespace. What it keeps does not end with whitespace. |
| Text.StripSlice | 13/mrbrenna83/directors.py:20 | The stripped title is the slice `s[lo..hi]`. Only whitespace lies outside it. |
| Text.StripIsTrimmedInfix | 13/mrbrenna83/directors.py:20 | The stripped title is a slice of the raw title with only whitespace around it, and it has no whitespace at either end. |
| Text.StripUnchanged | 13/mrbrenna83/directors.py:20 | A title with no whitespace at either end is kept as it is. |
| Text.StripIdempotent | 13/mrbrenna83/directors.py:20 | Stripping twice gives the same title as stripping once. |
| Loader.Accept | 13/mrbrenna83/directors.py:19-22 | A row contributes a movie exactly when it parses and its year is at least `MIN_YEAR`. |
| Loader.FirstSeen | 13/mrbrenna83/directors.py:15-23 | The dictionary keys, in insertion order, contain no duplicates. |
| Loader.Grouping | 13/mrbrenna83/directors.py:12-28 | The dictionary's key order has no duplicates. Its key set equals that order. |
| Loader.FirstKept | 13/mrbrenna83/directors.py:18-23 | The result is the least index of a kept row of the director. |
| Loader.FirstSeenKept | 13/mrbrenna83/directors.py:15-23 | A director is a key exactly when one of their rows is kept. |
| Loader.FirstSeenOrder | 13/mrbrenna83/directors.py:15-23 | Keys are ordered by their directors' first kept rows: the dictionary's insertion order. |
| Loader.FirstSeenMember | 13/mrbrenna83/directors.py:23 | A director is a key exactly when at least one of their rows is kept. |
| Loader.MoviesOfAppend | 13/mrbrenna83/directors.py:18-23 | Processing more rows only appends to each list. |
| Loader.MoviesOfOrigin | 13/mrbrenna83/directors.py:18-23 | A movie is in director `d`'s list exactly when some row of `d` is accepted as that movie. |
| Loader.MoviesOfRecent | 13/mrbrenna83/directors.py:21-22 | No stored movie is older than `MIN_YEAR`. |
| Loader.MoviesOfCount | 13/mrbrenna83/directors.py:18-23 | A director's list has exactly one movie per kept row of that director. |
| Loader.MoviesOfPosition | 13/mrbrenna83/directors.py:23 | A kept row's movie sits in its director's list right after the movies of the earlier rows. Lists keep row order. |
| Loader.SkippedRowIgnored | 13/mrbrenna83/directors.py:19-26 | A row that fails to parse, or whose movie predates `MIN_YEAR`, changes neither the key order nor any list. |
| Loader.SkippedRowGrouping | 13/mrbrenna83/directors.py:19-26 | Such a row leaves the whole dictionary unchanged. |
| Loader.GroupingUnique | 13/mrbrenna83/directors.py:12-28 | Any dictionary whose keys are the first-seen directors, and whose lists are the per-director movies, is `Grouping(rows)`. |
| Loader.GetMoviesByDirector | 13/mrbrenna83/directors.py:12-28 | The loop builds key order `FirstSeen(rows)` and maps every key `d` to `MoviesOf(rows, d)`. |
| Aggregator.RoundHalfEven | 13/mrbrenna83/directors.py:47 | The result is within half a unit of `s / n`. On an exact tie it is even, as with Python's `round`. |
| Aggregator.MeanTenths | 13/mrbrenna83/directors.py:44-48 | The average is within half a tenth of the sum of scores divided by the count. On an exact tie it is the even tenth. |
| Aggregator.SumPermutation | 13/mrbrenna83/directors.py:47 | The sum of scores does not depend on the order of the movies. |
| Aggregator.MeanPermutation | 13/mrbrenna83/directors.py:44-48 | `_calc_mean` gives the same average for any reordering of the list. |
| Aggregator.MeanWithinScores | 13/mrbrenna83/directors.py:44-48 | The average lies between the lowest and the highest score. |
| Aggregator.Aggregate | 13/mrbrenna83/directors.py:31-41 | Every entry's director is a key of the input. Its list is that key's unchanged list, with at least `MIN_MOVIES` movies. Its average is the mean of that list. |
| Aggregator.GetAverageScores | 13/mrbrenna83/directors.py:31-41 | The loop's result is `Aggregate(names, lists)`. |
| Aggregator.AggregateMember | 13/mrbrenna83/directors.py:34-40 | A director is kept exactly when it is a key with at least `MIN_MOVIES` movies. One with 3 is dropped; one with 4 is kept. |
| Aggregator.AggregateOrder | 13/mrbrenna83/directors.py:34-40 | Kept directors appear in the input's key order. |
| StableSort.Insert | 13/mrbrenna83/directors.py:59 | Inserting adds exactly one element: same multiset plus `x`. |
| StableSort.InsertSorted | 13/mrbrenna83/directors.py:59 | Insertion keeps a non-increasing sequence non-increasing. |
| StableSort.SortDesc | 13/mrbrenna83/directors.py:59 | `sorted(..., reverse=True)` returns a permutation of its input whose keys never increase. |
| StableSort.WithKeyInsert | 13/mrbrenna83/directors.py:59 | Insertion places `x` after every element with the same key. |
| StableSort.SortDescStable | 13/mrbrenna83/directors.py:59 | Stability: for every key value, the elements with that key keep their input order. |
| StableSort.WithKeyPrefix | 13/mrbrenna83/directors.py:59 | Truncating a sequence keeps a prefix of the elements with each key. |
| Reporter.TopDirectors | 13/mrbrenna83/directors.py:59 | The top list has `min(20, n)` entries. Their averages never increase, and every one comes from the input. |
| Reporter.TopDirectorsAll | 13/mrbrenna83/directors.py:59 | With at most 20 entries, the top list is a reordering of all of them. |
| Reporter.TopDirectorsBest | 13/mrbrenna83/directors.py:59 | An entry left out means the list is full. Every listed entry then averages at least as much as the one left out. |
| Reporter.TopDirectorsStable | 13/mrbrenna83/directors.py:59 | Entries with equal averages keep dictionary order. The ones kept are the first ones. |
| Reporter.TopDirectorsDistinct | 13/mrbrenna83/directors.py:59 | No director appears twice in the top list. |
| Reporter.DirectorBlock | 13/mrbrenna83/directors.py:62-66 | The header count equals the number of movies printed. The movie lines are a permutation of the director's list, in non-increasing score. |
| Reporter.DirectorBlockStable | 13/mrbrenna83/directors.py:63 | Movies with equal scores are printed in the order they were read. |
| Reporter.ReportShape | 13/mrbrenna83/directors.py:59-66 | At most 20 blocks. Block `i` presents top entry `i`, and header averages never increase. |
| Reporter.ReportDistinct | 13/mrbrenna83/directors.py:59-62 | Each director is printed at most once. |
| Reporter.ReportIncludes | 13/mrbrenna83/directors.py:59-62 | Every entry is printed, unless all 20 printed averages are at least as high. |
| Reporter.PrintResults | 13/mrbrenna83/directors.py:51-67 | The printing loop emits `Report(es)`: one block per top entry, in order. |
| Pipeline.Run | 13/mrbrenna83/directors.py:70-75 | `main` prints `Output(rows)`, the composition of the three stages. |
| Pipeline.EntryOfRows | 13/mrbrenna83/directors.py:12-48 | An aggregated entry holds every kept row of its director, at least `MIN_MOVIES`, and their mean. |
| Pipeline.OutputBlock | 13/mrbrenna83/directors.py:12-66 | A printed header counts exactly its director's kept rows, and at least `MIN_MOVIES`. The average is their mean. The movie lines are those rows' movies, each from `MIN_YEAR` on, sorted by score. |
| Pipeline.FewRowsNotPrinted | 13/mrbrenna83/directors.py:36-38 | A director with fewer than `MIN_MOVIES` kept rows is never printed. |
| Pipeline.EnoughRowsPrinted | 13/mrbrenna83/directors.py:36-59 | A director with at least `MIN_MOVIES` movies is printed, unless 20 directors with averages at least as high fill the report. |
| Pipeline.OutputDistinct | 13/mrbrenna83/directors.py:15-62 | No director is printed twice. |
| Example.MeanExample | 13/mrbrenna83/directors.py:47 | Scores 6.5, 9.0, 7.5 and 8.0 average 7.75. That rounds to the even 7.8. |
| Example.SortExample | 13/mrbrenna83/directors.py:63 | The same movies print in the order 9.0, 8.0, 7.5, 6.5. |
| Example.Worked | 13/mrbrenna83/directors.py:70-75 | Five rows give one block. The pre-1960 row is skipped and the padded title is stripped. The block shows 4 movies, the average 7.8 and the movies by score. |

## Left out

- Reading the CSV file is not modelled. The input is the sequence of its data rows, already split into fields.
- Parsing a year with `int` and a score with `float` is not modelled. Each field is given as parsed (`Some`) or not (`None`); a `None` field stands for any exception the row raises inside the `try` block.
- A score is an integer count of tenths. A score with more than one decimal cannot be represented, and neither can `nan` or `inf`.
- Aggregator.MeanTenths: rounds the exact quotient half-to-even. Python rounds the binary floating-point quotient, so the two can differ when a mean such as x.x5 is not exactly representable.
- A row too short to have a `director_name` field is not modelled. `csv.DictReader` would give such a row the key `None`. Every row here has a director name, possibly empty.
- Printing is not modelled. `Reporter.Block` records the values each header and movie line shows, in printed order. The text itself is left out: the field widths 53 and 50, the 60-dash separator and the blank line.
- The `MOVIE_DATA` file name is not modelled.
