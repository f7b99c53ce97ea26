/**
 * A worked example: five rows of one director, one of them from before
 * MIN_YEAR and one with a padded title, give a single block whose average
 * 77.5 is rounded to the even 78 and whose movies are printed by score.
 */
module Example {
  import opened Wrappers
  import opened Text
  import opened StableSort
  import opened Movies
  import opened Loader
  import opened Aggregator
  import opened Reporter
  import opened Pipeline

  const Z := Director("Z")
  const A := Movie("A", 2000, 65)
  const B := Movie("B", 2001, 90)
  const C := Movie("C", 1999, 75)
  const D := Movie("D", 2010, 80)

  function Rows(): seq<Row> {
    [ Row(Z, Some(" A"), Some(2000), Some(65)),
      Row(Z, Some("B"), Some(2001), Some(90)),
      Row(Z, Some("Old"), Some(1950), Some(99)),
      Row(Z, Some("C"), Some(1999), Some(75)),
      Row(Z, Some("D"), Some(2010), Some(80)) ]
  }

  lemma StripExample()
    ensures Strip(" A") == "A"
  {
    assert StripLeft(" A") == StripLeft(" A"[1..]);
    assert " A"[1..] == "A";
  }

  lemma AcceptExample()
    ensures Accept(Rows()[0]) == Some(A)
    ensures Accept(Rows()[2]) == None
    ensures Accept(Rows()[3]) == Some(C) && Accept(Rows()[4]) == Some(D)
  {
    StripExample();
  }

  lemma MoviesOfFirstThree()
    ensures MoviesOf(Rows()[..3], Z) == [A, B]
  {
    var rows := Rows();
    AcceptExample();
    assert rows[..1][..0] == [];
    assert rows[..2][..1] == rows[..1];
    assert rows[..3][..2] == rows[..2];
    assert MoviesOf(rows[..1], Z) == [A];
    assert MoviesOf(rows[..2], Z) == [A, B];
  }

  lemma MoviesOfExample()
    ensures MoviesOf(Rows(), Z) == [A, B, C, D]
  {
    var rows := Rows();
    assert rows[..4][..3] == rows[..3];
    assert rows[..5][..4] == rows[..4];
    assert rows[..5] == rows;
    AcceptExample();
    calc {
      MoviesOf(rows, Z);
      MoviesOf(rows[..4], Z) + [D];
      MoviesOf(rows[..3], Z) + [C] + [D];
      { MoviesOfFirstThree(); }
      [A, B] + [C] + [D];
    }
  }

  lemma FirstSeenExample()
    ensures FirstSeen(Rows()) == [Z]
  {
    var rows := Rows();
    AcceptExample();
    assert rows[..1][..0] == [];
    assert rows[..2][..1] == rows[..1];
    assert rows[..3][..2] == rows[..2];
    assert rows[..4][..3] == rows[..3];
    assert rows[..5][..4] == rows[..4];
    assert rows[..5] == rows;
    assert FirstSeen(rows[..1]) == [Z];
    assert FirstSeen(rows[..2]) == [Z];
    assert FirstSeen(rows[..3]) == [Z];
    assert FirstSeen(rows[..4]) == [Z];
  }

  lemma MeanExample()
    ensures MeanTenths([A, B, C, D]) == 78
  {
    var ms := [A, B, C, D];
    assert ms[..3] == [A, B, C] && [A, B, C][..2] == [A, B] && [A, B][..1] == [A] && [A][..0] == [];
    assert SumScores([A]) == 65;
    assert SumScores([A, B]) == 155;
    assert SumScores([A, B, C]) == 230;
    assert SumScores(ms) == 310;
  }

  lemma SortTwo()
    ensures SortDesc([A, B], ScoreKey) == [B, A]
  {
    assert [A, B][..1] == [A] && [A][..0] == [];
    assert SortDesc([A], ScoreKey) == Insert(A, [], ScoreKey) == [A];
    assert Insert(B, [A], ScoreKey) == [B, A];
  }

  lemma InsertC()
    ensures Insert(C, [B, A], ScoreKey) == [B, C, A]
  {
    assert [B, A][1..] == [A];
    assert Insert(C, [A], ScoreKey) == [C, A];
  }

  lemma SortThree()
    ensures SortDesc([A, B, C], ScoreKey) == [B, C, A]
  {
    SortTwo();
    InsertC();
    assert [A, B, C][..2] == [A, B];
  }

  lemma InsertD()
    ensures Insert(D, [B, C, A], ScoreKey) == [B, D, C, A]
  {
    assert [B, C, A][1..] == [C, A];
    assert Insert(D, [C, A], ScoreKey) == [D, C, A];
  }

  lemma SortExample()
    ensures SortDesc([A, B, C, D], ScoreKey) == [B, D, C, A]
  {
    calc {
      SortDesc([A, B, C, D], ScoreKey);
      { assert [A, B, C, D][..3] == [A, B, C]; }
      Insert(D, SortDesc([A, B, C], ScoreKey), ScoreKey);
      { SortThree(); }
      Insert(D, [B, C, A], ScoreKey);
      { InsertD(); }
      [B, D, C, A];
    }
  }

  lemma TopExample(e: Entry)
    ensures TopDirectors([e]) == [e]
  {
    assert [e][..0] == [];
    assert SortDesc([e], AvgKey) == Insert(e, [], AvgKey) == [e];
  }

  lemma GroupedExample()
    ensures Entries(Rows()) == [Entry(Z, 78, [A, B, C, D])]
  {
    MoviesOfExample();
    FirstSeenExample();
    MeanExample();
    var g := Grouping(Rows());
    assert g == Groups([Z], map[Z := [A, B, C, D]]);
    assert [Z][..0] == [];
  }

  lemma ReportSingle(e: Entry)
    ensures Report([e]) == [DirectorBlock(e)]
  {
    TopExample(e);
  }

  lemma Worked()
    ensures Output(Rows()) == [Block(4, Z, 78, [B, D, C, A])]
  {
    var e := Entry(Z, 78, [A, B, C, D]);
    calc {
      Output(Rows());
      { GroupedExample(); }
      Report([e]);
      { ReportSingle(e); }
      [DirectorBlock(e)];
      { SortExample(); }
      [Block(4, Z, 78, [B, D, C, A])];
    }
  }
}
