/** Worked examples: small tables run through the yearly averages, the
    categorical distribution and the word-cloud text, with the exact values
    before the app rounds them for display. */
module Scenarios {
  import opened Wrappers
  import opened Seqs
  import opened Text
  import opened Table
  import opened Grouping
  import opened Categorical
  import opened Corpus

  /** Three reviews: two from 2010 rating 4 and 2, one from 2011 rating 5. */
  const Reviews: seq<Row> := [
    [Num(2010.0), Str("USA"), Num(4.0)],
    [Num(2010.0), Str("USA"), Num(2.0)],
    [Num(2011.0), Str("India"), Num(5.0)]
  ]

  lemma YearKey(row: Row, ix: nat)
    requires CellAt(row, ix) != Missing
    ensures KeyOf(row, [ix]) == Some([CellAt(row, ix)])
  {
    assert KeyOf(row, [ix]).value == [CellAt(row, ix)];
  }

  lemma ExampleKeys()
    ensures GroupKeys(Reviews, [0]) == [[Num(2010.0)], [Num(2011.0)]]
  {
    var k10, k11 := [Num(2010.0)], [Num(2011.0)];
    YearKey(Reviews[0], 0);
    YearKey(Reviews[1], 0);
    YearKey(Reviews[2], 0);
    assert KeyLess(k10, k11) by { assert CellLess(k10[0], k11[0]); }
    assert GroupKeys(Reviews[2..], [0]) == [k11] by {
      assert GroupKeys(Reviews[2..][1..], [0]) == [];
    }
    assert Reviews[1..][1..] == Reviews[2..];
    assert GroupKeys(Reviews[1..], [0]) == [k10, k11];
  }

  lemma ExampleRows()
    ensures GroupRows(Reviews, [0], [Num(2010.0)]) == Reviews[..2]
    ensures GroupRows(Reviews, [0], [Num(2011.0)]) == Reviews[2..]
  {
    var k10, k11 := [Num(2010.0)], [Num(2011.0)];
    YearKey(Reviews[0], 0);
    YearKey(Reviews[1], 0);
    YearKey(Reviews[2], 0);
    var in10, in11 := InGroup([0], k10), InGroup([0], k11);
    assert Reviews[1..][1..] == Reviews[2..];
    assert Select(Reviews[2..], in10) == [] by { assert Select(Reviews[2..][1..], in10) == []; }
    assert Select(Reviews[1..], in10) == [Reviews[1]];
    assert Select(Reviews[2..], in11) == [Reviews[2]] by { assert Select(Reviews[2..][1..], in11) == []; }
    assert Select(Reviews[1..], in11) == [Reviews[2]];
  }

  lemma ExampleMeans()
    ensures Mean(ColumnValues(Reviews[..2], 2)) == Some(3.0)
    ensures Mean(ColumnValues(Reviews[2..], 2)) == Some(5.0)
  {
    assert ColumnValues(Reviews[..2], 2) == [4.0, 2.0] by {
      assert Reviews[..2][1..] == [Reviews[1]];
      assert ColumnValues([Reviews[1]], 2) == [2.0];
    }
    assert ColumnValues(Reviews[2..], 2) == [5.0];
    assert Sum([4.0, 2.0]) == 6.0;
  }

  /** A group with one metric holds its key and the mean of that metric over
      its rows. */
  lemma OneMetricGroup(rows: seq<Row>, keyIxs: seq<nat>, m: nat, k: Key)
    ensures GroupOf(rows, keyIxs, [m], k) == Group(k, [Mean(ColumnValues(GroupRows(rows, keyIxs, k), m))])
  {
  }

  lemma YearMeansExample()
    ensures YearMeans(Reviews, 0, [2]) == [Group([Num(2010.0)], [Some(3.0)]), Group([Num(2011.0)], [Some(5.0)])]
  {
    ExampleKeys();
    ExampleRows();
    ExampleMeans();
    OneMetricGroup(Reviews, [0], 2, [Num(2010.0)]);
    OneMetricGroup(Reviews, [0], 2, [Num(2011.0)]);
    YearMeansAreGroupMeans(Reviews, 0, [2]);
  }

  lemma YearMeansAreGroupMeans(view: seq<Row>, yearIx: nat, metricIxs: seq<nat>)
    ensures YearMeans(view, yearIx, metricIxs) == GroupMeans(view, [yearIx], metricIxs)
  {
  }

  /** A Recommended column: Yes, No, Yes and one row without the column. */
  const Answers: seq<Row> := [[Str("Yes")], [Str("No")], [Str("Yes")], []]

  lemma CountExample()
    ensures CountValues([Str("Yes"), Str("No"), Str("Yes"), Missing]) == [Tally(Str("Yes"), 2), Tally(Str("No"), 1)]
  {
    var y, n := Str("Yes"), Str("No");
    assert [y, n, y, Missing][..3] == [y, n, y] && [y, n, y][..2] == [y, n] && [y, n][..1] == [y] && [y][..0] == [];
    assert CountValues([y]) == [Tally(y, 1)];
    assert CountValues([y, n]) == [Tally(y, 1), Tally(n, 1)];
    assert CountValues([y, n, y]) == [Tally(y, 2), Tally(n, 1)];
  }

  lemma RankExample()
    ensures Ranked([Str("Yes"), Str("No"), Str("Yes"), Missing]) == [Tally(Str("Yes"), 2), Tally(Str("No"), 1)]
  {
    var y, n := Str("Yes"), Str("No");
    CountExample();
    assert SortByCount([Tally(n, 1)]) == [Tally(n, 1)];
    assert SortByCount([Tally(y, 2), Tally(n, 1)]) == [Tally(y, 2), Tally(n, 1)];
  }

  lemma SharesExample()
    ensures Percentages([Tally(Str("Yes"), 2), Tally(Str("No"), 1)], 3)
      == [Share(Str("Yes"), 2, 200.0 / 3.0), Share(Str("No"), 1, 100.0 / 3.0)]
  {
    var ts := [Tally(Str("Yes"), 2), Tally(Str("No"), 1)];
    assert Percentages(ts[1..], 3) == [Share(Str("No"), 1, 100.0 / 3.0)];
  }

  lemma DistributionExample()
    ensures Distribution(Answers, 0) == [Share(Str("Yes"), 2, 200.0 / 3.0), Share(Str("No"), 1, 100.0 / 3.0)]
  {
    var ts := [Tally(Str("Yes"), 2), Tally(Str("No"), 1)];
    assert ColumnCells(Answers, 0) == [Str("Yes"), Str("No"), Str("Yes"), Missing];
    RankExample();
    assert TotalCount(ts) == 3;
    SharesExample();
    DistributionUnfold(Answers, 0);
  }

  lemma DistributionUnfold(view: seq<Row>, col: nat)
    ensures Distribution(view, col) == Percentages(Ranked(ColumnCells(view, col)), TotalCount(Ranked(ColumnCells(view, col))))
  {
  }

  const Header: seq<Column> := [Column("Country", false), Column("pros", false)]
  const Notes: seq<Row> := [
    [Str("USA"), Str("good pay")],
    [Str("India"), Str("long hours")],
    [Str("USA")],
    [Str("USA"), Str("team")]
  ]

  /** Numbers never occur in the review column of these rows. */
  function Render(x: real): string { "" }

  lemma CorpusExample()
    ensures WordCloud(Header, Notes, Str("USA"), Pros, Render) == Ok(Words("good pay team"))
  {
    NotesParts();
    HeaderColumns();
    assert JoinSpace(["good pay", "team"]) == "good pay team" by {
      assert ["good pay", "team"][1..] == ["team"];
    }
    assert !Blank("good pay team") by {
      assert !IsSpace("good pay team"[0]);
    }
  }

  /** The USA rows with a present review, in order. */
  lemma NotesParts()
    ensures Parts(Notes, 0, 1, Str("USA"), Render) == ["good pay", "team"]
  {
    var t := ContributesTest(0, 1, Str("USA"));
    assert Notes[1..][1..] == Notes[2..] && Notes[2..][1..] == Notes[3..] && Notes[3..][1..] == [];
    assert Select(Notes[3..], t) == [Notes[3]];
    assert Select(Notes[2..], t) == [Notes[3]];
    assert Select(Notes[1..], t) == [Notes[3]];
    assert Select(Notes, t) == [Notes[0], Notes[3]];
  }

  lemma HeaderColumns()
    ensures ColumnIndex(Header, "Country") == Some(0)
    ensures ColumnIndex(Header, "pros") == Some(1)
  {
    assert ColumnIndex(Header[1..], "pros") == Some(0);
  }
}
