/** groupby(...)[metrics].mean() (app2.py:236-242, 339-344, 394-400): the
    view's rows are grouped by the values of one or more key columns, groups
    come out in ascending key order, and each selected metric is averaged per
    group over its present values. */
module Grouping {
  import opened Wrappers
  import opened Order
  import opened Seqs
  import opened Table

  /** A group key: the row's cells in the key columns, in order. */
  type Key = seq<Cell>

  /** The key of a row, or None when any key cell is missing: groupby drops
      such rows (dropna=True). */
  function KeyOf(row: Row, keyIxs: seq<nat>): (r: Option<Key>)
    ensures r.Some? <==> forall j :: 0 <= j < |keyIxs| ==> CellAt(row, keyIxs[j]) != Missing
    ensures r.Some? ==> |r.value| == |keyIxs| && forall j :: 0 <= j < |keyIxs| ==> r.value[j] == CellAt(row, keyIxs[j])
  {
    if forall j :: 0 <= j < |keyIxs| ==> CellAt(row, keyIxs[j]) != Missing
    then Some(seq(|keyIxs|, j requires 0 <= j < |keyIxs| => CellAt(row, keyIxs[j])))
    else None
  }

  /** pandas sorts group keys as Python compares tuples: lexicographically. */
  function KeyLess(a: Key, b: Key): bool
  {
    LexLess(a, b, CellLess)
  }

  lemma KeyIrreflexive(a: Key)
    ensures !KeyLess(a, a)
  {
    CellOrder();
    LexIrreflexive(a, CellLess);
  }

  lemma KeyTransitive(a: Key, b: Key, c: Key)
    requires KeyLess(a, b) && KeyLess(b, c)
    ensures KeyLess(a, c)
  {
    CellOrder();
    LexTransitive(a, b, c, CellLess);
  }

  lemma KeyTotal(a: Key, b: Key)
    ensures a == b || KeyLess(a, b) || KeyLess(b, a)
  {
    CellOrder();
    LexTotal(a, b, CellLess);
  }

  ghost predicate StrictlyAscending(ks: seq<Key>)
  {
    forall i, j :: 0 <= i < j < |ks| ==> KeyLess(ks[i], ks[j])
  }

  /** Adds a key to an ascending list of distinct keys, keeping it so. */
  function InsertKey(ks: seq<Key>, k: Key): (r: seq<Key>)
    requires StrictlyAscending(ks)
    ensures StrictlyAscending(r)
    ensures forall x :: x in r <==> x in ks || x == k
    ensures k in ks ==> r == ks
  {
    if ks == [] then [k]
    else if k == ks[0] then ks
    else if KeyLess(k, ks[0]) then
      InsertFront(ks, k);
      [k] + ks
    else
      KeyTotal(k, ks[0]);
      var rest := InsertKey(ks[1..], k);
      InsertBehind(ks, k, rest);
      [ks[0]] + rest
  }

  /** A key below the first of an ascending list goes in front of it. */
  lemma InsertFront(ks: seq<Key>, k: Key)
    requires StrictlyAscending(ks) && ks != [] && KeyLess(k, ks[0])
    ensures StrictlyAscending([k] + ks) && k !in ks
  {
    forall j | 0 < j < |ks| ensures KeyLess(k, ks[j]) { KeyTransitive(k, ks[0], ks[j]); }
    var r := [k] + ks;
    forall i, j | 0 <= i < j < |r| ensures KeyLess(r[i], r[j]) {
      assert r[j] == ks[j - 1];
      if i > 0 { assert r[i] == ks[i - 1]; }
    }
    if k in ks {
      var j :| 0 <= j < |ks| && ks[j] == k;
      KeyIrreflexive(k);
    }
  }

  /** A key above the first of an ascending list goes in behind it. */
  lemma InsertBehind(ks: seq<Key>, k: Key, rest: seq<Key>)
    requires StrictlyAscending(ks) && ks != [] && KeyLess(ks[0], k)
    requires StrictlyAscending(rest) && forall x :: x in rest <==> x in ks[1..] || x == k
    requires k in ks[1..] ==> rest == ks[1..]
    ensures StrictlyAscending([ks[0]] + rest)
    ensures forall x :: x in [ks[0]] + rest <==> x in ks || x == k
    ensures k in ks ==> [ks[0]] + rest == ks
  {
    var r := [ks[0]] + rest;
    forall i, j | 0 <= i < j < |r| ensures KeyLess(r[i], r[j]) {
      assert r[j] == rest[j - 1] && r[j] in rest;
      if i > 0 {
        assert r[i] == rest[i - 1];
      } else if r[j] != k {
        var m :| 1 <= m < |ks| && ks[m] == r[j];
      }
    }
    assert ks == [ks[0]] + ks[1..];
    if k in ks {
      assert k != ks[0] by { KeyIrreflexive(k); }
    }
  }

  /** The distinct keys of the rows that have one, in ascending order: one
      entry per group groupby forms. */
  function GroupKeys(rows: seq<Row>, keyIxs: seq<nat>): (ks: seq<Key>)
    ensures StrictlyAscending(ks)
    ensures forall k :: k in ks <==> KeyPresent(rows, keyIxs, k)
  {
    if rows == [] then []
    else
      var rest := GroupKeys(rows[1..], keyIxs);
      KeyPresentCons(rows, keyIxs);
      match KeyOf(rows[0], keyIxs)
      case None => rest
      case Some(k) => InsertKey(rest, k)
  }

  /** Some row has key k. */
  predicate KeyPresent(rows: seq<Row>, keyIxs: seq<nat>, k: Key)
  {
    exists i :: 0 <= i < |rows| && KeyOf(rows[i], keyIxs) == Some(k)
  }

  lemma KeyPresentCons(rows: seq<Row>, keyIxs: seq<nat>)
    requires rows != []
    ensures forall k :: KeyPresent(rows, keyIxs, k) <==>
      KeyOf(rows[0], keyIxs) == Some(k) || KeyPresent(rows[1..], keyIxs, k)
  {
    forall k ensures KeyPresent(rows, keyIxs, k) <==>
      KeyOf(rows[0], keyIxs) == Some(k) || KeyPresent(rows[1..], keyIxs, k)
    {
      if KeyPresent(rows, keyIxs, k) && KeyOf(rows[0], keyIxs) != Some(k) {
        var i :| 0 <= i < |rows| && KeyOf(rows[i], keyIxs) == Some(k);
        assert rows[1..][i - 1] == rows[i];
      }
      if KeyPresent(rows[1..], keyIxs, k) {
        var i :| 0 <= i < |rows[1..]| && KeyOf(rows[1..][i], keyIxs) == Some(k);
        assert rows[i + 1] == rows[1..][i];
      }
    }
  }

  function InGroup(keyIxs: seq<nat>, k: Key): Row -> bool
  {
    row => KeyOf(row, keyIxs) == Some(k)
  }

  function HasKey(keyIxs: seq<nat>): Row -> bool
  {
    row => KeyOf(row, keyIxs).Some?
  }

  /** The rows of the group with key k, in view order. */
  function GroupRows(rows: seq<Row>, keyIxs: seq<nat>, k: Key): seq<Row>
  {
    Select(rows, InGroup(keyIxs, k))
  }

  /** The present values of column m, in row order (missing ones skipped, as
      mean() does by default). */
  function ColumnValues(rows: seq<Row>, m: nat): seq<real>
  {
    if rows == [] then []
    else (match CellAt(rows[0], m) case Num(x) => [x] case _ => []) + ColumnValues(rows[1..], m)
  }

  function Sum(vs: seq<real>): real
  {
    if vs == [] then 0.0 else vs[0] + Sum(vs[1..])
  }

  /** The arithmetic mean, or None (NaN) when there is no value. */
  function Mean(vs: seq<real>): (r: Option<real>)
    ensures r.Some? <==> vs != []
    ensures r.Some? ==> r.value * |vs| as real == Sum(vs)
  {
    if vs == [] then None else Some(Sum(vs) / |vs| as real)
  }

  lemma {:induction false} SumBetween(vs: seq<real>, lo: real, hi: real)
    requires forall i :: 0 <= i < |vs| ==> lo <= vs[i] <= hi
    ensures |vs| as real * lo <= Sum(vs) <= |vs| as real * hi
  {
    if vs != [] {
      SumBetween(vs[1..], lo, hi);
      assert |vs| as real * lo == lo + |vs[1..]| as real * lo;
      assert |vs| as real * hi == hi + |vs[1..]| as real * hi;
    }
  }

  /** A mean lies between the smallest and the largest value it averages:
      ratings on a 1-5 scale average to a rating on that scale. */
  lemma MeanBetween(vs: seq<real>, lo: real, hi: real)
    requires vs != []
    requires forall i :: 0 <= i < |vs| ==> lo <= vs[i] <= hi
    ensures lo <= Mean(vs).value <= hi
  {
    SumBetween(vs, lo, hi);
    var n := |vs| as real;
    var m := Mean(vs).value;
    assert m * n == Sum(vs);
    assert (m - lo) * n == Sum(vs) - n * lo && (hi - m) * n == n * hi - Sum(vs);
    NonNegativeFactor(m - lo, n);
    NonNegativeFactor(hi - m, n);
  }

  lemma NonNegativeFactor(x: real, n: real)
    requires n > 0.0 && x * n >= 0.0
    ensures x >= 0.0
  {
  }

  /** One row of the grouped table: the key and, per selected metric, the
      mean of its present values in the group (None where there is none:
      pandas puts NaN there and keeps the row). */
  datatype Group = Group(key: Key, means: seq<Option<real>>)

  function GroupOf(rows: seq<Row>, keyIxs: seq<nat>, metricIxs: seq<nat>, k: Key): Group
  {
    var members := GroupRows(rows, keyIxs, k);
    Group(k, seq(|metricIxs|, j requires 0 <= j < |metricIxs| => Mean(ColumnValues(members, metricIxs[j]))))
  }

  /** groupby(keys)[metrics].mean().reset_index(): one row per distinct key
      present in the view, in ascending key order. */
  function GroupMeans(rows: seq<Row>, keyIxs: seq<nat>, metricIxs: seq<nat>): (r: seq<Group>)
    ensures |r| == |GroupKeys(rows, keyIxs)|
    ensures forall g :: 0 <= g < |r| ==> r[g] == GroupOf(rows, keyIxs, metricIxs, GroupKeys(rows, keyIxs)[g])
  {
    var ks := GroupKeys(rows, keyIxs);
    seq(|ks|, g requires 0 <= g < |ks| => GroupOf(rows, keyIxs, metricIxs, ks[g]))
  }

  /** Total number of rows in the groups with keys ks. */
  function SizeSum(rows: seq<Row>, keyIxs: seq<nat>, ks: seq<Key>): nat
  {
    if ks == [] then 0 else |GroupRows(rows, keyIxs, ks[0])| + SizeSum(rows, keyIxs, ks[1..])
  }

  lemma {:induction false} SizeSumInsert(rows: seq<Row>, keyIxs: seq<nat>, ks: seq<Key>, k: Key)
    requires StrictlyAscending(ks) && k !in ks
    ensures SizeSum(rows, keyIxs, InsertKey(ks, k)) == SizeSum(rows, keyIxs, ks) + |GroupRows(rows, keyIxs, k)|
  {
    if ks != [] && !KeyLess(k, ks[0]) {
      SizeSumInsert(rows, keyIxs, ks[1..], k);
      assert InsertKey(ks, k) == [ks[0]] + InsertKey(ks[1..], k);
    }
  }

  lemma {:induction false} SizeSumDropFirstRow(rows: seq<Row>, keyIxs: seq<nat>, ks: seq<Key>)
    requires rows != [] && StrictlyAscending(ks)
    ensures SizeSum(rows, keyIxs, ks) == SizeSum(rows[1..], keyIxs, ks)
      + (if KeyOf(rows[0], keyIxs).Some? && KeyOf(rows[0], keyIxs).value in ks then 1 else 0)
  {
    if ks != [] {
      var k0, tail := ks[0], ks[1..];
      AscendingTail(ks);
      SizeSumDropFirstRow(rows, keyIxs, tail);
      GroupRowsDropFirst(rows, keyIxs, k0);
      SizeSumCons(rows, keyIxs, ks);
      SizeSumCons(rows[1..], keyIxs, ks);
      var key := KeyOf(rows[0], keyIxs);
      assert key.Some? ==> (key.value in ks <==> key.value == k0 || key.value in tail);
    }
  }

  lemma SizeSumCons(rows: seq<Row>, keyIxs: seq<nat>, ks: seq<Key>)
    requires ks != []
    ensures SizeSum(rows, keyIxs, ks) == |GroupRows(rows, keyIxs, ks[0])| + SizeSum(rows, keyIxs, ks[1..])
  {
  }

  /** The keys after the first of an ascending list are ascending and
      differ from the first. */
  lemma AscendingTail(ks: seq<Key>)
    requires ks != [] && StrictlyAscending(ks)
    ensures StrictlyAscending(ks[1..]) && ks[0] !in ks[1..]
  {
    var tail := ks[1..];
    forall i, j | 0 <= i < j < |tail| ensures KeyLess(tail[i], tail[j]) {
      assert tail[i] == ks[i + 1] && tail[j] == ks[j + 1];
    }
    if ks[0] in tail {
      var j :| 0 <= j < |tail| && tail[j] == ks[0];
      assert KeyLess(ks[0], ks[j + 1]);
      KeyIrreflexive(ks[0]);
    }
  }

  /** The first row counts towards group k exactly when it has key k. */
  lemma GroupRowsDropFirst(rows: seq<Row>, keyIxs: seq<nat>, k: Key)
    requires rows != []
    ensures |GroupRows(rows, keyIxs, k)| == |GroupRows(rows[1..], keyIxs, k)|
      + (if KeyOf(rows[0], keyIxs) == Some(k) then 1 else 0)
  {
  }

  /** The groups partition the rows that have a key: their sizes add up to
      the number of such rows (each such row is in exactly one group, see
      RowInOneGroup). */
  lemma {:induction false} GroupsPartitionRows(rows: seq<Row>, keyIxs: seq<nat>)
    ensures SizeSum(rows, keyIxs, GroupKeys(rows, keyIxs)) == |Select(rows, HasKey(keyIxs))|
  {
    if rows != [] {
      var rest := rows[1..];
      var ks := GroupKeys(rest, keyIxs);
      GroupsPartitionRows(rest, keyIxs);
      match KeyOf(rows[0], keyIxs)
      case None =>
        SizeSumDropFirstRow(rows, keyIxs, ks);
      case Some(k) =>
        if k in ks {
          SizeSumDropFirstRow(rows, keyIxs, ks);
        } else {
          SizeSumDropFirstRow(rows, keyIxs, InsertKey(ks, k));
          SizeSumInsert(rest, keyIxs, ks, k);
          SelectNone(rest, InGroup(keyIxs, k));
        }
    }
  }

  /** One row per distinct key present in the view, keys strictly
      ascending. */
  lemma GroupMeansKeys(rows: seq<Row>, keyIxs: seq<nat>, metricIxs: seq<nat>)
    ensures var r := GroupMeans(rows, keyIxs, metricIxs);
      && (forall g, h :: 0 <= g < h < |r| ==> KeyLess(r[g].key, r[h].key))
      && (forall k :: HasGroup(r, k) <==> KeyPresent(rows, keyIxs, k))
  {
    var r := GroupMeans(rows, keyIxs, metricIxs);
    var ks := GroupKeys(rows, keyIxs);
    assert forall g :: 0 <= g < |r| ==> r[g].key == ks[g];
    forall k ensures HasGroup(r, k) <==> KeyPresent(rows, keyIxs, k) {
      if KeyPresent(rows, keyIxs, k) {
        assert k in ks;
        var g :| 0 <= g < |ks| && ks[g] == k;
        assert r[g].key == k;
      }
      if HasGroup(r, k) {
        var g :| 0 <= g < |r| && r[g].key == k;
        assert ks[g] in ks;
      }
    }
  }

  /** Some group of the table has key k. */
  predicate HasGroup(r: seq<Group>, k: Key)
  {
    exists g :: 0 <= g < |r| && r[g].key == k
  }

  /** Each group has rows, and its key has one cell per key column and its
      means one entry per selected metric. */
  lemma GroupAt(rows: seq<Row>, keyIxs: seq<nat>, metricIxs: seq<nat>, g: nat)
    requires g < |GroupMeans(rows, keyIxs, metricIxs)|
    ensures var grp := GroupMeans(rows, keyIxs, metricIxs)[g];
      && |grp.key| == |keyIxs| && |grp.means| == |metricIxs|
      && GroupRows(rows, keyIxs, grp.key) != []
  {
    var ks := GroupKeys(rows, keyIxs);
    var k := ks[g];
    assert k in ks;
    var i :| 0 <= i < |rows| && KeyOf(rows[i], keyIxs) == Some(k);
    SelectHas(rows, InGroup(keyIxs, k), i);
  }

  /** A group's mean of metric j is present exactly when the group has a
      value for that metric; then it is the sum of the group's values of
      that metric divided by their number. */
  lemma GroupMeanAt(rows: seq<Row>, keyIxs: seq<nat>, metricIxs: seq<nat>, g: nat, j: nat)
    requires g < |GroupMeans(rows, keyIxs, metricIxs)| && j < |metricIxs|
    ensures var grp := GroupMeans(rows, keyIxs, metricIxs)[g];
      var vals := ColumnValues(GroupRows(rows, keyIxs, grp.key), metricIxs[j]);
      && j < |grp.means|
      && (grp.means[j].Some? <==> vals != [])
      && (grp.means[j].Some? ==> grp.means[j].value == Sum(vals) / |vals| as real)
  {
    var ks := GroupKeys(rows, keyIxs);
    var grp := GroupMeans(rows, keyIxs, metricIxs)[g];
    assert grp == GroupOf(rows, keyIxs, metricIxs, ks[g]);
    var members := GroupRows(rows, keyIxs, ks[g]);
    var vals := ColumnValues(members, metricIxs[j]);
    assert grp.means[j] == Mean(vals);
  }

  /** A row with a key lies in exactly one group of the table. */
  lemma RowInOneGroup(rows: seq<Row>, keyIxs: seq<nat>, metricIxs: seq<nat>, i: nat)
    requires i < |rows| && KeyOf(rows[i], keyIxs).Some?
    ensures var r := GroupMeans(rows, keyIxs, metricIxs);
      exists g :: 0 <= g < |r| && r[g].key == KeyOf(rows[i], keyIxs).value
        && rows[i] in GroupRows(rows, keyIxs, r[g].key)
        && forall h :: 0 <= h < |r| && h != g ==> r[h].key != r[g].key
  {
    var r := GroupMeans(rows, keyIxs, metricIxs);
    var ks := GroupKeys(rows, keyIxs);
    var k := KeyOf(rows[i], keyIxs).value;
    assert k in ks;
    var g :| 0 <= g < |ks| && ks[g] == k;
    assert r[g].key == k;
    SelectHas(rows, InGroup(keyIxs, k), i);
    forall h | 0 <= h < |r| && h != g ensures r[h].key != r[g].key {
      assert r[h].key == ks[h];
      if h < g { KeyIrreflexive(ks[h]); assert KeyLess(ks[h], ks[g]); }
      else { KeyIrreflexive(ks[g]); assert KeyLess(ks[g], ks[h]); }
    }
  }

  /** The yearly averages table (app2.py:236-242, 394-398): grouped by Year
      alone, one mean per selected metric, years ascending. */
  function YearMeans(view: seq<Row>, yearIx: nat, metricIxs: seq<nat>): (r: seq<Group>)
    ensures forall g :: 0 <= g < |r| ==> |r[g].key| == 1 && |r[g].means| == |metricIxs|
    ensures forall g, h :: 0 <= g < h < |r| ==> KeyLess(r[g].key, r[h].key)
  {
    GroupMeansKeys(view, [yearIx], metricIxs);
    var r := GroupMeans(view, [yearIx], metricIxs);
    assert forall g :: 0 <= g < |r| ==> |r[g].key| == 1 && |r[g].means| == |metricIxs| by {
      forall g | 0 <= g < |r| ensures |r[g].key| == 1 && |r[g].means| == |metricIxs| {
        GroupAt(view, [yearIx], metricIxs, g);
      }
    }
    r
  }

  /** When every year in the view is a number, the yearly table's years are
      numbers in strictly increasing order. */
  lemma YearsAscending(view: seq<Row>, yearIx: nat, metricIxs: seq<nat>, g: nat, h: nat)
    requires forall i :: 0 <= i < |view| ==> CellAt(view[i], yearIx).Num?
    requires g < h < |YearMeans(view, yearIx, metricIxs)|
    ensures var r := YearMeans(view, yearIx, metricIxs);
      r[g].key[0].Num? && r[h].key[0].Num? && r[g].key[0].x < r[h].key[0].x
  {
    var r := YearMeans(view, yearIx, metricIxs);
    var ks := GroupKeys(view, [yearIx]);
    assert r[g].key == ks[g] && r[h].key == ks[h];
    assert ks[g] in ks && ks[h] in ks;
    var i :| 0 <= i < |view| && KeyOf(view[i], [yearIx]) == Some(ks[g]);
    var k :| 0 <= k < |view| && KeyOf(view[k], [yearIx]) == Some(ks[h]);
    assert ks[g][0] == CellAt(view[i], yearIx) && ks[h][0] == CellAt(view[k], yearIx);
    assert KeyLess(ks[g], ks[h]);
    assert !LexLess(ks[g][1..], ks[h][1..], CellLess);
    assert CellLess(ks[g][0], ks[h][0]);
  }

  /** The per-country trend table (app2.py:339-344): grouped by Year and
      Country, one metric; ordered by year, then by country. The metric is
      what the selector returns, None when no metric is selected, and
      selecting a None column raises KeyError. */
  function YearCountryMeans(view: seq<Row>, yearIx: nat, countryIx: nat, metric: Option<nat>): (r: Option<seq<Group>>)
    ensures r.None? <==> metric.None?
    ensures r.Some? ==> forall g :: 0 <= g < |r.value| ==> |r.value[g].key| == 2 && |r.value[g].means| == 1
    ensures r.Some? ==> forall g, h :: 0 <= g < h < |r.value| ==> KeyLess(r.value[g].key, r.value[h].key)
  {
    match metric
    case None => None
    case Some(metricIx) =>
      GroupMeansKeys(view, [yearIx, countryIx], [metricIx]);
      var r := GroupMeans(view, [yearIx, countryIx], [metricIx]);
      assert forall g :: 0 <= g < |r| ==> |r[g].key| == 2 && |r[g].means| == 1 by {
        forall g | 0 <= g < |r| ensures |r[g].key| == 2 && |r[g].means| == 1 {
          GroupAt(view, [yearIx, countryIx], [metricIx], g);
        }
      }
      Some(r)
  }

  /** One row of the long table melt produces: (Year, Metric, Average). */
  datatype LongRow = LongRow(year: Cell, metric: string, average: Option<real>)

  ghost predicate MeltShape(groups: seq<Group>, width: nat)
  {
    forall g :: 0 <= g < |groups| ==> |groups[g].key| == 1 && |groups[g].means| == width
  }

  function MeltFrom(groups: seq<Group>, names: seq<string>, i: nat): (r: seq<LongRow>)
    requires i <= |names| && MeltShape(groups, |names|)
    ensures |r| == (|names| - i) * |groups|
    decreases |names| - i
  {
    if i == |names| then []
    else
      var block := seq(|groups|, g requires 0 <= g < |groups| => LongRow(groups[g].key[0], names[i], groups[g].means[i]));
      var rest := MeltFrom(groups, names, i + 1);
      RowMajor(|names| - (i + 1), |groups|);
      block + rest
  }

  lemma RowMajor(a: nat, n: nat)
    ensures (a + 1) * n == n + a * n
  {
  }

  lemma {:induction false} MeltFromAt(groups: seq<Group>, names: seq<string>, i: nat, d: nat, g: nat)
    requires i + d < |names| && g < |groups| && MeltShape(groups, |names|)
    ensures d * |groups| + g < |MeltFrom(groups, names, i)|
    ensures MeltFrom(groups, names, i)[d * |groups| + g] == LongRow(groups[g].key[0], names[i + d], groups[g].means[i + d])
    decreases d
  {
    var n := |groups|;
    MeltFromSplit(groups, names, i);
    if d == 0 {
      RowMajorNone(d, n);
    } else {
      MeltFromAt(groups, names, i + 1, d - 1, g);
      RowMajorStep(d, n);
      var m := (d - 1) * n + g;
      assert MeltFrom(groups, names, i)[n + m] == MeltFrom(groups, names, i)[n..][m];
    }
  }

  /** The long rows from metric i on are metric i's block, one row per
      group, followed by the long rows from metric i + 1 on. */
  lemma MeltFromSplit(groups: seq<Group>, names: seq<string>, i: nat)
    requires i < |names| && MeltShape(groups, |names|)
    ensures |MeltFrom(groups, names, i)| == |groups| + |MeltFrom(groups, names, i + 1)|
    ensures forall g :: 0 <= g < |groups| ==>
      MeltFrom(groups, names, i)[g] == LongRow(groups[g].key[0], names[i], groups[g].means[i])
    ensures MeltFrom(groups, names, i)[|groups|..] == MeltFrom(groups, names, i + 1)
  {
    RowMajor(|names| - (i + 1), |groups|);
  }

  lemma RowMajorNone(d: nat, n: nat)
    requires d == 0
    ensures d * n == 0
  {
  }

  lemma RowMajorStep(d: nat, n: nat)
    requires d > 0
    ensures d * n == n + (d - 1) * n
  {
  }

  /** melt(id_vars="Year", var_name="Metric", value_name="Average"): one
      long row per year group and metric. */
  function Melt(groups: seq<Group>, names: seq<string>): (r: seq<LongRow>)
    requires MeltShape(groups, |names|)
    ensures |r| == |names| * |groups|
  {
    MeltFrom(groups, names, 0)
  }

  /** The metrics' blocks follow one another, each listing the years in the
      table's order: the long row for metric a and year group g sits at
      a * |groups| + g and carries that year, that metric's label and that
      group's mean. */
  lemma MeltAt(groups: seq<Group>, names: seq<string>, a: nat, g: nat)
    requires MeltShape(groups, |names|) && a < |names| && g < |groups|
    ensures a * |groups| + g < |Melt(groups, names)|
    ensures Melt(groups, names)[a * |groups| + g] == LongRow(groups[g].key[0], names[a], groups[g].means[a])
  {
    MeltFromAt(groups, names, 0, a, g);
  }

  /** The long table of the multi-metric trend (app2.py:394-400). */
  function YearMeansLong(view: seq<Row>, yearIx: nat, metricIxs: seq<nat>, names: seq<string>): (r: seq<LongRow>)
    requires |names| == |metricIxs|
    ensures |r| == |names| * |YearMeans(view, yearIx, metricIxs)|
  {
    Melt(YearMeans(view, yearIx, metricIxs), names)
  }
}
