/** The categorical distribution (app2.py:533-543): value_counts(dropna=True)
    on one column of the view, then each count's share of the total as a
    percentage. */
module Categorical {
  import opened Wrappers
  import opened Table

  /** One distinct value of the column and how many rows hold it. */
  datatype Tally = Tally(value: Cell, count: nat)

  /** One row of cat_counts: value, Count, Percentage. */
  datatype Share = Share(value: Cell, count: nat, percentage: real)

  function Values(ts: seq<Tally>): (r: seq<Cell>)
    ensures |r| == |ts| && forall i :: 0 <= i < |ts| ==> r[i] == ts[i].value
  {
    seq(|ts|, i requires 0 <= i < |ts| => ts[i].value)
  }

  ghost predicate DistinctValues(ts: seq<Tally>)
  {
    forall i, j :: 0 <= i < j < |ts| ==> ts[i].value != ts[j].value
  }

  function TotalCount(ts: seq<Tally>): nat
  {
    if ts == [] then 0 else ts[0].count + TotalCount(ts[1..])
  }

  /** Counts one more occurrence of a present value v: its tally goes up by
      one, or a new tally of one is appended when v has none yet. */
  function Bump(ts: seq<Tally>, v: Cell): (r: seq<Tally>)
    ensures |ts| <= |r| <= |ts| + 1
  {
    if ts == [] then [Tally(v, 1)]
    else if ts[0].value == v then [Tally(v, ts[0].count + 1)] + ts[1..]
    else [ts[0]] + Bump(ts[1..], v)
  }

  /** Bump keeps every tally's value in place and appends a tally of one for
      a value it has not seen. */
  lemma BumpShape(ts: seq<Tally>, v: Cell)
    ensures |Bump(ts, v)| == |ts| + (if v in Values(ts) then 0 else 1)
    ensures forall i :: 0 <= i < |ts| ==> Bump(ts, v)[i].value == ts[i].value
    ensures v !in Values(ts) ==> Bump(ts, v)[|ts|] == Tally(v, 1)
  {
    BumpKeeps(ts, v);
    BumpGrows(ts, v);
  }

  lemma {:induction false} BumpKeeps(ts: seq<Tally>, v: Cell)
    ensures forall i :: 0 <= i < |ts| ==> Bump(ts, v)[i].value == ts[i].value
  {
    if ts != [] && ts[0].value != v {
      var r, rest := Bump(ts, v), Bump(ts[1..], v);
      BumpKeeps(ts[1..], v);
      assert r == [ts[0]] + rest;
      forall i | 0 < i < |ts| ensures r[i].value == ts[i].value {
        assert r[i] == rest[i - 1] && ts[i] == ts[1..][i - 1];
      }
    }
  }

  lemma {:induction false} BumpGrows(ts: seq<Tally>, v: Cell)
    ensures |Bump(ts, v)| == |ts| + (if v in Values(ts) then 0 else 1)
    ensures v !in Values(ts) ==> Bump(ts, v)[|ts|] == Tally(v, 1)
  {
    if ts != [] {
      if ts[0].value == v {
        assert Values(ts)[0] == v;
      } else {
        var r, rest := Bump(ts, v), Bump(ts[1..], v);
        BumpGrows(ts[1..], v);
        ValuesCons(ts);
        assert r == [ts[0]] + rest;
        if v !in Values(ts) {
          assert r[|ts|] == rest[|ts| - 1];
        }
      }
    }
  }

  lemma ValuesCons(ts: seq<Tally>)
    requires ts != []
    ensures forall x :: x in Values(ts) <==> x == ts[0].value || x in Values(ts[1..])
  {
    forall x | x in Values(ts) && x != ts[0].value ensures x in Values(ts[1..]) {
      var k :| 0 <= k < |ts| && Values(ts)[k] == x;
      assert Values(ts[1..])[k - 1] == x;
    }
    forall x | x in Values(ts[1..]) ensures x in Values(ts) {
      var k :| 0 <= k < |ts| - 1 && Values(ts[1..])[k] == x;
      assert Values(ts)[k + 1] == x;
    }
    assert Values(ts)[0] == ts[0].value;
  }

  /** The values after Bump are the values before, and v. */
  lemma BumpValues(ts: seq<Tally>, v: Cell)
    ensures forall x :: x in Values(Bump(ts, v)) <==> x in Values(ts) || x == v
    ensures DistinctValues(ts) ==> DistinctValues(Bump(ts, v))
  {
    var r := Bump(ts, v);
    BumpShape(ts, v);
    forall x | x in Values(r) ensures x in Values(ts) || x == v {
      var k :| 0 <= k < |r| && Values(r)[k] == x;
      if k < |ts| { assert Values(ts)[k] == x; }
    }
    forall x | x in Values(ts) || x == v ensures x in Values(r) {
      if x in Values(ts) {
        var k :| 0 <= k < |ts| && Values(ts)[k] == x;
        assert Values(r)[k] == x;
      } else if v !in Values(ts) {
        assert Values(r)[|ts|] == v;
      }
    }
    if DistinctValues(ts) {
      forall i, j | 0 <= i < j < |r| ensures r[i].value != r[j].value {
        if j == |ts| { assert Values(ts)[i] == r[i].value; }
      }
    }
  }

  /** On tallies with distinct values, Bump adds one to v's count only, and
      so adds one to the total. */
  lemma {:induction false} BumpCounts(ts: seq<Tally>, v: Cell)
    requires DistinctValues(ts)
    ensures forall i :: 0 <= i < |ts| ==> Bump(ts, v)[i].count == ts[i].count + (if ts[i].value == v then 1 else 0)
    ensures TotalCount(Bump(ts, v)) == TotalCount(ts) + 1
  {
    var r := Bump(ts, v);
    if ts != [] {
      if ts[0].value == v {
        assert r[1..] == ts[1..];
      } else {
        BumpCounts(ts[1..], v);
        assert r[1..] == Bump(ts[1..], v);
      }
    }
  }

  /** ts tallies the present values of cells: each once, with its number of
      occurrences, the counts adding up to the number of present cells. */
  ghost predicate Tallies(ts: seq<Tally>, cells: seq<Cell>)
  {
    && DistinctValues(ts)
    && (forall x :: x in Values(ts) <==> x in cells && x != Missing)
    && (forall i :: 0 <= i < |ts| ==> ts[i].count == multiset(cells)[ts[i].value] && ts[i].count > 0)
    && TotalCount(ts) == |cells| - multiset(cells)[Missing]
  }

  /** Counting one more cell keeps the tallies exact. */
  lemma CountStep(ts: seq<Tally>, cells: seq<Cell>, v: Cell)
    requires Tallies(ts, cells)
    ensures Tallies(if v == Missing then ts else Bump(ts, v), cells + [v])
  {
    if v == Missing {
      CountMissing(ts, cells);
    } else {
      CountPresent(ts, cells, v);
    }
  }

  /** A missing cell changes no tally. */
  lemma CountMissing(ts: seq<Tally>, cells: seq<Cell>)
    requires Tallies(ts, cells)
    ensures Tallies(ts, cells + [Missing])
  {
    var cells' := cells + [Missing];
    assert multiset(cells') == multiset(cells) + multiset{Missing};
    assert forall x :: x in cells' <==> x in cells || x == Missing;
    forall i | 0 <= i < |ts| ensures ts[i].count == multiset(cells')[ts[i].value] {
      assert ts[i].value in Values(ts);
    }
  }

  /** A present cell is counted by Bump. */
  lemma CountPresent(ts: seq<Tally>, cells: seq<Cell>, v: Cell)
    requires Tallies(ts, cells) && v != Missing
    ensures Tallies(Bump(ts, v), cells + [v])
  {
    var r, cells' := Bump(ts, v), cells + [v];
    assert multiset(cells') == multiset(cells) + multiset{v};
    assert forall x :: x in cells' <==> x in cells || x == v;
    BumpValues(ts, v);
    CountStepCounts(ts, cells, v);
    BumpCounts(ts, v);
  }

  lemma CountStepCounts(ts: seq<Tally>, cells: seq<Cell>, v: Cell)
    requires Tallies(ts, cells) && v != Missing
    ensures forall i :: 0 <= i < |Bump(ts, v)| ==>
      Bump(ts, v)[i].count == multiset(cells + [v])[Bump(ts, v)[i].value] && Bump(ts, v)[i].count > 0
  {
    var r := Bump(ts, v);
    BumpShape(ts, v);
    BumpCounts(ts, v);
    OldTalliesCounted(ts, cells, v, r);
    if v !in Values(ts) {
      assert v !in cells;
      NewValueCounted(cells, v);
      forall i | 0 <= i < |r| ensures r[i].count == multiset(cells + [v])[r[i].value] && r[i].count > 0 {
        if i == |ts| {
          assert r[i] == Tally(v, 1);
        }
      }
    }
  }

  lemma NewValueCounted(cells: seq<Cell>, v: Cell)
    requires v !in cells
    ensures multiset(cells + [v])[v] == 1
  {
    assert multiset(cells + [v]) == multiset(cells) + multiset{v};
  }

  lemma OldTalliesCounted(ts: seq<Tally>, cells: seq<Cell>, v: Cell, r: seq<Tally>)
    requires Tallies(ts, cells) && |ts| <= |r|
    requires forall i :: 0 <= i < |ts| ==> r[i].value == ts[i].value
    requires forall i :: 0 <= i < |ts| ==> r[i].count == ts[i].count + (if ts[i].value == v then 1 else 0)
    ensures forall i :: 0 <= i < |ts| ==> r[i].count == multiset(cells + [v])[r[i].value] && r[i].count > 0
  {
    assert multiset(cells + [v]) == multiset(cells) + multiset{v};
  }

  /** The present values of cells, each once, in order of first appearance,
      with the number of cells holding it. */
  function CountValues(cells: seq<Cell>): (r: seq<Tally>)
    ensures DistinctValues(r)
    ensures Missing !in Values(r)
    ensures forall v :: v in Values(r) <==> v in cells && v != Missing
    ensures forall i :: 0 <= i < |r| ==> r[i].count == multiset(cells)[r[i].value] && r[i].count > 0
    ensures TotalCount(r) == |cells| - multiset(cells)[Missing]
  {
    if cells == [] then []
    else
      var init, v := cells[..|cells| - 1], cells[|cells| - 1];
      assert cells == init + [v];
      var ts := CountValues(init);
      CountStep(ts, init, v);
      if v == Missing then ts else Bump(ts, v)
  }

  /** Places t after the tallies with a larger count and before the rest,
      so that among equal counts the earlier tally stays first. */
  function InsertByCount(t: Tally, ts: seq<Tally>): (r: seq<Tally>)
    ensures multiset(r) == multiset(ts) + multiset{t}
    ensures forall x :: x in r <==> x == t || x in ts
  {
    if ts == [] || ts[0].count <= t.count then [t] + ts
    else
      assert ts == [ts[0]] + ts[1..];
      [ts[0]] + InsertByCount(t, ts[1..])
  }

  ghost predicate NonIncreasing(ts: seq<Tally>)
  {
    forall i, j :: 0 <= i < j < |ts| ==> ts[i].count >= ts[j].count
  }

  lemma TalliesCons(ts: seq<Tally>)
    requires ts != []
    ensures multiset(ts) == multiset(ts[1..]) + multiset{ts[0]}
  {
    assert ts == [ts[0]] + ts[1..];
  }

  lemma {:induction false} InsertByCountSorted(t: Tally, ts: seq<Tally>)
    requires NonIncreasing(ts)
    ensures NonIncreasing(InsertByCount(t, ts))
  {
    if ts != [] && ts[0].count > t.count {
      InsertByCountSorted(t, ts[1..]);
      var rest := InsertByCount(t, ts[1..]);
      forall x | x in rest ensures ts[0].count >= x.count {
        if x != t { var k :| 0 <= k < |ts[1..]| && ts[1..][k] == x; assert x == ts[k + 1]; }
      }
    }
  }

  /** sort_values(ascending=False) on the counts: a stable insertion sort. */
  function SortByCount(ts: seq<Tally>): (r: seq<Tally>)
    ensures multiset(r) == multiset(ts)
    ensures NonIncreasing(r)
  {
    if ts == [] then []
    else
      var rest := SortByCount(ts[1..]);
      InsertByCountSorted(ts[0], rest);
      TalliesCons(ts);
      InsertByCount(ts[0], rest)
  }

  lemma OnceInDistinct(a: seq<Tally>, p: nat)
    requires DistinctValues(a) && p < |a|
    ensures multiset(a)[a[p]] == 1
  {
    assert a == a[..p] + [a[p]] + a[p + 1..];
    assert a[p] !in a[..p] && a[p] !in a[p + 1..];
  }

  lemma TwoPositionsCountTwice(b: seq<Tally>, i: nat, j: nat)
    requires i < j < |b|
    ensures b[i] == b[j] ==> multiset(b)[b[i]] >= 2
  {
    var front, back := b[..j], b[j..];
    assert b == front + back;
    assert multiset(b) == multiset(front) + multiset(back);
    assert front[i] == b[i] && back[0] == b[j];
    assert b[i] in multiset(front) && b[j] in multiset(back);
  }

  /** A permutation of tallies with distinct values has distinct values. */
  lemma PermutationKeepsDistinct(a: seq<Tally>, b: seq<Tally>)
    requires multiset(a) == multiset(b) && DistinctValues(a)
    ensures DistinctValues(b)
  {
    forall i, j | 0 <= i < j < |b| ensures b[i].value != b[j].value {
      assert b[i] in multiset(a) && b[j] in multiset(a);
      var p :| 0 <= p < |a| && a[p] == b[i];
      var q :| 0 <= q < |a| && a[q] == b[j];
      OnceInDistinct(a, p);
      TwoPositionsCountTwice(b, i, j);
      assert b[i] != b[j];
      assert p != q;
    }
  }

  lemma {:induction false} SortKeepsTotal(ts: seq<Tally>)
    ensures TotalCount(SortByCount(ts)) == TotalCount(ts)
  {
    if ts != [] {
      SortKeepsTotal(ts[1..]);
      InsertKeepsTotal(ts[0], SortByCount(ts[1..]));
    }
  }

  lemma {:induction false} InsertKeepsTotal(t: Tally, ts: seq<Tally>)
    ensures TotalCount(InsertByCount(t, ts)) == t.count + TotalCount(ts)
  {
    if ts != [] && ts[0].count > t.count {
      InsertKeepsTotal(t, ts[1..]);
    }
  }

  /** Reordering a tally list keeps its members and so its values. */
  lemma SameMembers(a: seq<Tally>, b: seq<Tally>)
    requires multiset(a) == multiset(b)
    ensures forall i :: 0 <= i < |b| ==> b[i] in a
    ensures forall v :: v in Values(b) ==> v in Values(a)
    ensures forall v :: v in Values(a) ==> v in Values(b)
  {
    forall i | 0 <= i < |b| ensures b[i] in a {
      assert b[i] in multiset(b);
    }
    forall v | v in Values(b) ensures v in Values(a) {
      var k :| 0 <= k < |b| && Values(b)[k] == v;
      assert b[k] in multiset(a);
      var m :| 0 <= m < |a| && a[m] == b[k];
      assert Values(a)[m] == v;
    }
    forall v | v in Values(a) ensures v in Values(b) {
      var k :| 0 <= k < |a| && Values(a)[k] == v;
      assert a[k] in multiset(b);
      var m :| 0 <= m < |b| && b[m] == a[k];
      assert Values(b)[m] == v;
    }
  }

  /** value_counts(): one tally per present value, largest count first. */
  function Ranked(cells: seq<Cell>): (r: seq<Tally>)
    ensures DistinctValues(r) && NonIncreasing(r)
    ensures forall v :: v in Values(r) <==> v in cells && v != Missing
    ensures forall i :: 0 <= i < |r| ==> r[i].count == multiset(cells)[r[i].value] && r[i].count > 0
    ensures TotalCount(r) == |cells| - multiset(cells)[Missing]
  {
    var counted := CountValues(cells);
    var sorted := SortByCount(counted);
    SortKeepsTotal(counted);
    PermutationKeepsDistinct(counted, sorted);
    SameMembers(counted, sorted);
    sorted
  }

  /** The cells of column col down the view. */
  function ColumnCells(view: seq<Row>, col: nat): (r: seq<Cell>)
    ensures |r| == |view| && forall i :: 0 <= i < |view| ==> r[i] == CellAt(view[i], col)
  {
    seq(|view|, i requires 0 <= i < |view| => CellAt(view[i], col))
  }

  /** Count / Count.sum() * 100, row by row. */
  function Percentages(ts: seq<Tally>, total: nat): (r: seq<Share>)
    requires total > 0 || ts == []
    ensures |r| == |ts|
    ensures forall i :: 0 <= i < |ts| ==>
      r[i].value == ts[i].value && r[i].count == ts[i].count
      && r[i].percentage == ts[i].count as real / total as real * 100.0
  {
    if ts == [] then []
    else [Share(ts[0].value, ts[0].count, ts[0].count as real / total as real * 100.0)] + Percentages(ts[1..], total)
  }

  /** Every share's percentage is its count over total, times 100. */
  predicate PercentOf(r: seq<Share>, total: nat)
  {
    forall i :: 0 <= i < |r| ==> total > 0 && r[i].percentage == r[i].count as real / total as real * 100.0
  }

  /** Some row of the table holds the value v. */
  predicate Listed(r: seq<Share>, v: Cell)
  {
    exists i :: 0 <= i < |r| && r[i].value == v
  }

  function SharesTotal(r: seq<Share>): nat
  {
    if r == [] then 0 else r[0].count + SharesTotal(r[1..])
  }

  function PercentTotal(r: seq<Share>): real
  {
    if r == [] then 0.0 else r[0].percentage + PercentTotal(r[1..])
  }

  lemma {:induction false} SharesMatchTallies(ts: seq<Tally>, total: nat)
    requires total > 0 || ts == []
    ensures SharesTotal(Percentages(ts, total)) == TotalCount(ts)
  {
    if ts != [] {
      SharesMatchTallies(ts[1..], total);
    }
  }

  /** cat_counts: each present value of the column once, with its number of
      rows and its percentage of all present values, largest count first.
      An empty view, or a column with no present value, gives no row. */
  function Distribution(view: seq<Row>, col: nat): (r: seq<Share>)
    ensures forall v :: v in ColumnCells(view, col) && v != Missing <==> Listed(r, v)
    ensures forall i, j :: 0 <= i < j < |r| ==> r[i].value != r[j].value
    ensures forall i :: 0 <= i < |r| ==> r[i].count == multiset(ColumnCells(view, col))[r[i].value] && r[i].count > 0
    ensures forall i, j :: 0 <= i < j < |r| ==> r[i].count >= r[j].count
    ensures SharesTotal(r) == |view| - multiset(ColumnCells(view, col))[Missing]
    ensures PercentOf(r, SharesTotal(r))
  {
    var cells := ColumnCells(view, col);
    var ranked := Ranked(cells);
    SharesOfRanked(cells, ranked);
    Percentages(ranked, TotalCount(ranked))
  }

  /** The shares of value_counts' tallies carry the tallies' facts over. */
  lemma SharesOfRanked(cells: seq<Cell>, ts: seq<Tally>)
    requires DistinctValues(ts) && NonIncreasing(ts)
    requires forall v :: v in Values(ts) <==> v in cells && v != Missing
    requires forall i :: 0 <= i < |ts| ==> ts[i].count == multiset(cells)[ts[i].value] && ts[i].count > 0
    requires TotalCount(ts) == |cells| - multiset(cells)[Missing]
    ensures TotalCount(ts) > 0 || ts == []
    ensures var r := Percentages(ts, TotalCount(ts));
      && (forall v :: v in cells && v != Missing <==> Listed(r, v))
      && (forall i, j :: 0 <= i < j < |r| ==> r[i].value != r[j].value)
      && (forall i :: 0 <= i < |r| ==> r[i].count == multiset(cells)[r[i].value] && r[i].count > 0)
      && (forall i, j :: 0 <= i < j < |r| ==> r[i].count >= r[j].count)
      && SharesTotal(r) == |cells| - multiset(cells)[Missing]
      && PercentOf(r, SharesTotal(r))
  {
    var total := TotalCount(ts);
    if ts != [] {
      assert total == ts[0].count + TotalCount(ts[1..]);
    }
    var r := Percentages(ts, total);
    SharesMatchTallies(ts, total);
    assert PercentOf(r, total);
    SharesFromTallies(cells, ts, r);
  }

  /** Shares that copy the tallies' values and counts, in order, have the
      tallies' facts. */
  lemma SharesFromTallies(cells: seq<Cell>, ts: seq<Tally>, r: seq<Share>)
    requires DistinctValues(ts) && NonIncreasing(ts)
    requires forall v :: v in Values(ts) <==> v in cells && v != Missing
    requires forall i :: 0 <= i < |ts| ==> ts[i].count == multiset(cells)[ts[i].value] && ts[i].count > 0
    requires |r| == |ts| && forall i :: 0 <= i < |ts| ==> r[i].value == ts[i].value && r[i].count == ts[i].count
    ensures forall v :: v in cells && v != Missing <==> Listed(r, v)
    ensures forall i, j :: 0 <= i < j < |r| ==> r[i].value != r[j].value
    ensures forall i :: 0 <= i < |r| ==> r[i].count == multiset(cells)[r[i].value] && r[i].count > 0
    ensures forall i, j :: 0 <= i < j < |r| ==> r[i].count >= r[j].count
  {
    forall v ensures v in cells && v != Missing <==> Listed(r, v) {
      if v in Values(ts) {
        var k :| 0 <= k < |ts| && Values(ts)[k] == v;
        assert r[k].value == v;
      }
      if Listed(r, v) {
        var k :| 0 <= k < |r| && r[k].value == v;
        assert Values(ts)[k] == v;
      }
    }
  }

  /** filtered_df[cat_col] then the distribution: None where the table has
      no column of that label (pandas raises KeyError), otherwise the
      distribution of the first column so labelled. */
  function CategoryTable(cols: seq<Column>, view: seq<Row>, name: string): (r: Option<seq<Share>>)
    ensures r.None? <==> name !in Names(cols)
    ensures r.Some? ==> exists col :: 0 <= col < |cols| && cols[col].name == name && r.value == Distribution(view, col)
  {
    match ColumnIndex(cols, name)
    case None => None
    case Some(col) => Some(Distribution(view, col))
  }

  /** A view with no present value in the column gives an empty table, and
      any other view a non-empty one. */
  lemma DistributionEmpty(view: seq<Row>, col: nat)
    ensures Distribution(view, col) == [] <==> forall i :: 0 <= i < |view| ==> CellAt(view[i], col) == Missing
  {
    var r, cells := Distribution(view, col), ColumnCells(view, col);
    if r == [] {
      forall i | 0 <= i < |view| ensures CellAt(view[i], col) == Missing {
        assert cells[i] in cells;
      }
    } else {
      assert r[0].value in cells;
    }
  }

  lemma {:induction false} PercentTotalScaled(r: seq<Share>, total: nat)
    requires total > 0 && PercentOf(r, total)
    ensures PercentTotal(r) == SharesTotal(r) as real / total as real * 100.0
  {
    if r != [] {
      PercentTotalScaled(r[1..], total);
      SplitShare(r[0].count as real, SharesTotal(r[1..]) as real, total as real);
    }
  }

  /** Shares of two parts of a total add up to the share of their sum. */
  lemma SplitShare(a: real, b: real, t: real)
    requires t > 0.0
    ensures a / t * 100.0 + b / t * 100.0 == (a + b) / t * 100.0
  {
    assert (a + b) / t == a / t + b / t;
  }

  lemma SharesSumTo100(r: seq<Share>)
    requires r != [] && r[0].count > 0 && PercentOf(r, SharesTotal(r))
    ensures PercentTotal(r) == 100.0
  {
    PercentTotalScaled(r, SharesTotal(r));
  }

  /** Before rounding, the percentages of a non-empty distribution add up to
      exactly 100. */
  lemma PercentagesSumTo100(view: seq<Row>, col: nat)
    requires Distribution(view, col) != []
    ensures PercentTotal(Distribution(view, col)) == 100.0
  {
    SharesSumTo100(Distribution(view, col));
  }
}
