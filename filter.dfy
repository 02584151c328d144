/** The sidebar filter (app2.py:85-88): a row stays in the view when its Year
    lies between the slider's two bounds, both included, and its Country is
    one of the selected countries. */
module Filter {
  import opened Seqs
  import opened Table

  /** The sidebar's choices: the year slider's bounds and the selected
      countries, as the cell values the multiselect offers. */
  datatype Selection = Selection(yearLo: int, yearHi: int, countries: set<Cell>)

  /** Series.between(lo, hi): inclusive at both ends; a missing year is never
      between. */
  predicate YearBetween(c: Cell, lo: int, hi: int)
  {
    c.Num? && lo as real <= c.x <= hi as real
  }

  /** The row mask: year in range and country in the selection
      (Series.isin, under which a missing country matches only a selected
      missing value). */
  predicate Keeps(sel: Selection, yearIx: nat, countryIx: nat, row: Row)
  {
    YearBetween(CellAt(row, yearIx), sel.yearLo, sel.yearHi) && CellAt(row, countryIx) in sel.countries
  }

  function KeepTest(sel: Selection, yearIx: nat, countryIx: nat): Row -> bool
  {
    row => Keeps(sel, yearIx, countryIx, row)
  }

  /** filtered_df: the rows the mask keeps, in table order. */
  function FilterRows(rows: seq<Row>, yearIx: nat, countryIx: nat, sel: Selection): (view: seq<Row>)
    ensures |view| <= |rows|
    ensures forall k :: 0 <= k < |view| ==>
      YearBetween(CellAt(view[k], yearIx), sel.yearLo, sel.yearHi) && CellAt(view[k], countryIx) in sel.countries
  {
    Select(rows, KeepTest(sel, yearIx, countryIx))
  }

  /** The view is the table with some rows dropped and the rest in their
      order; row j of the table is kept if and only if its year is within the
      bounds and its country is selected. */
  lemma FilterExact(rows: seq<Row>, yearIx: nat, countryIx: nat, sel: Selection)
    ensures Picks(FilterRows(rows, yearIx, countryIx, sel), rows, SelectedPositions(rows, KeepTest(sel, yearIx, countryIx)))
    ensures forall j :: 0 <= j < |rows| ==>
      (j in SelectedPositions(rows, KeepTest(sel, yearIx, countryIx)) <==>
        CellAt(rows[j], yearIx).Num? && sel.yearLo as real <= CellAt(rows[j], yearIx).x <= sel.yearHi as real
        && CellAt(rows[j], countryIx) in sel.countries)
  {
    SelectPicks(rows, KeepTest(sel, yearIx, countryIx));
    SelectedPositionsExact(rows, KeepTest(sel, yearIx, countryIx));
  }

  /** No selected country, or an empty year range, gives an empty view. */
  lemma EmptySelectionEmptyView(rows: seq<Row>, yearIx: nat, countryIx: nat, sel: Selection)
    requires sel.countries == {} || sel.yearHi < sel.yearLo
    ensures FilterRows(rows, yearIx, countryIx, sel) == []
  {
    SelectNone(rows, KeepTest(sel, yearIx, countryIx));
  }

  /** When every row has a numeric year within the bounds and a selected
      country, the view is the whole table. The sidebar's defaults
      (app2.py:66-77) meet this only when no row's year is missing: the
      year test fails on a missing year, so such a row is dropped even then. */
  lemma {:induction false} DefaultSelectionKeepsAll(rows: seq<Row>, yearIx: nat, countryIx: nat, sel: Selection)
    requires forall k :: 0 <= k < |rows| ==> YearBetween(CellAt(rows[k], yearIx), sel.yearLo, sel.yearHi)
    requires forall k :: 0 <= k < |rows| ==> CellAt(rows[k], countryIx) in sel.countries
    ensures FilterRows(rows, yearIx, countryIx, sel) == rows
  {
    if rows != [] {
      DefaultSelectionKeepsAll(rows[1..], yearIx, countryIx, sel);
      assert [rows[0]] + rows[1..] == rows;
    }
  }
}
