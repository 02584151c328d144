/** Schema normalisation of the loaded table (app2.py:38, 43-55): column
    labels lose surrounding whitespace, a Location column stands in for a
    missing Country column, and the rating metrics are the numeric columns
    other than Year and ID number. */
module Schema {
  import opened Wrappers
  import opened Text
  import opened Seqs
  import opened Table

  /** "Neither 'Country' nor 'Location' column found in dataset.": the app
      reports it and stops, so no view is produced. */
  datatype SchemaError = NoCountryColumn

  const CountryLabel := "Country"
  const LocationLabel := "Location"
  const YearLabel := "Year"
  const IdLabel := "ID number"

  /** df.columns = df.columns.str.strip(): every label stripped, nothing else
      about a column changes. */
  function StripNames(cols: seq<Column>): (r: seq<Column>)
    ensures |r| == |cols|
    ensures forall i :: 0 <= i < |cols| ==>
      r[i].numeric == cols[i].numeric && IsStripOf(r[i].name, cols[i].name) && Trimmed(r[i].name)
  {
    seq(|cols|, i requires 0 <= i < |cols| => Column(Strip(cols[i].name), cols[i].numeric))
  }

  /** df.rename(columns={"Location": "Country"}): relabels every column
      labelled Location. */
  function RenameLocation(cols: seq<Column>): (r: seq<Column>)
    ensures |r| == |cols|
    ensures LocationLabel !in Names(r)
    ensures LocationLabel in Names(cols) ==> CountryLabel in Names(r)
    ensures forall i :: 0 <= i < |cols| ==> r[i].numeric == cols[i].numeric
    ensures forall i :: 0 <= i < |cols| && cols[i].name != LocationLabel ==> r[i] == cols[i]
    ensures forall i :: 0 <= i < |cols| && cols[i].name == LocationLabel ==> r[i].name == CountryLabel
  {
    var r := seq(|cols|, i requires 0 <= i < |cols| =>
      if cols[i].name == LocationLabel then Column(CountryLabel, cols[i].numeric) else cols[i]);
    assert LocationLabel in Names(cols) ==> CountryLabel in Names(r) by {
      if LocationLabel in Names(cols) {
        var i :| 0 <= i < |cols| && Names(cols)[i] == LocationLabel;
        assert Names(r)[i] == CountryLabel;
      }
    }
    r
  }

  /** The Country check of app2.py:43-49, on already stripped labels. */
  function EnsureCountry(cols: seq<Column>): (r: Result<seq<Column>, SchemaError>)
    ensures r.Err? <==> CountryLabel !in Names(cols) && LocationLabel !in Names(cols)
    ensures CountryLabel in Names(cols) ==> r == Ok(cols)
    ensures r.Ok? ==> CountryLabel in Names(r.value) && |r.value| == |cols|
    ensures r.Ok? ==> forall i :: 0 <= i < |cols| ==>
      r.value[i].numeric == cols[i].numeric && (cols[i].name != LocationLabel ==> r.value[i] == cols[i])
    ensures r.Ok? ==> forall i :: 0 <= i < |cols| ==>
      r.value[i].name == cols[i].name || (cols[i].name == LocationLabel && r.value[i].name == CountryLabel)
  {
    if CountryLabel in Names(cols) then Ok(cols)
    else if LocationLabel in Names(cols) then Ok(RenameLocation(cols))
    else Err(NoCountryColumn)
  }

  /** A label occurs after stripping exactly when some column's label strips
      to it. */
  lemma StrippedLabels(cols: seq<Column>, name: string)
    ensures name in Names(StripNames(cols)) <==> exists i :: 0 <= i < |cols| && Strip(cols[i].name) == name
  {
    var r := StripNames(cols);
    if name in Names(r) {
      var i :| 0 <= i < |r| && Names(r)[i] == name;
      assert Strip(cols[i].name) == name;
    }
    if exists i :: 0 <= i < |cols| && Strip(cols[i].name) == name {
      var i :| 0 <= i < |cols| && Strip(cols[i].name) == name;
      assert Names(r)[i] == name;
    }
  }

  lemma EnsureCountryKeepsTrimmed(cols: seq<Column>)
    requires forall i :: 0 <= i < |cols| ==> Trimmed(cols[i].name)
    ensures EnsureCountry(cols).Ok? ==> forall i :: 0 <= i < |cols| ==> Trimmed(EnsureCountry(cols).value[i].name)
  {
    var r := EnsureCountry(cols);
    if r.Ok? {
      assert Trimmed(CountryLabel);
      forall i | 0 <= i < |cols| ensures Trimmed(r.value[i].name) {
        if r.value[i].name != cols[i].name {
          assert r.value[i].name == CountryLabel;
        }
      }
    }
  }

  /** The loaded table made ready for the pipeline: labels stripped, Country
      ensured; the rows are untouched. Fails exactly when no label strips to
      Country or Location. On success each label is its original stripped,
      except that a stripped Location becomes Country when no label strips
      to Country, and then every such Location does. */
  function Normalise(f: Frame): (r: Result<Frame, SchemaError>)
    ensures r.Err? <==> forall i :: 0 <= i < |f.columns| ==>
      Strip(f.columns[i].name) != CountryLabel && Strip(f.columns[i].name) != LocationLabel
    ensures r.Ok? ==> r.value.rows == f.rows && |r.value.columns| == |f.columns|
    ensures r.Ok? ==> CountryLabel in Names(r.value.columns)
    ensures r.Ok? ==> forall i :: 0 <= i < |f.columns| ==>
      Trimmed(r.value.columns[i].name) && r.value.columns[i].numeric == f.columns[i].numeric
    ensures r.Ok? ==> forall i :: 0 <= i < |f.columns| ==>
      r.value.columns[i].name == Strip(f.columns[i].name)
      || (Strip(f.columns[i].name) == LocationLabel && r.value.columns[i].name == CountryLabel)
    ensures CountryLabel in Names(StripNames(f.columns)) ==> r == Ok(Frame(StripNames(f.columns), f.rows))
    ensures CountryLabel !in Names(StripNames(f.columns)) ==> forall i :: 0 <= i < |f.columns| ==>
      Strip(f.columns[i].name) == LocationLabel ==> r.Ok? && r.value.columns[i].name == CountryLabel
  {
    var cols := StripNames(f.columns);
    NormaliseFails(f.columns);
    NormaliseLabels(f.columns);
    EnsureCountryKeepsTrimmed(cols);
    match EnsureCountry(cols)
    case Ok(c) => Ok(Frame(c, f.rows))
    case Err(e) => Err(e)
  }

  /** The Country check on stripped labels fails exactly when no original
      label strips to Country or Location. */
  lemma NormaliseFails(orig: seq<Column>)
    ensures EnsureCountry(StripNames(orig)).Err? <==> forall i :: 0 <= i < |orig| ==>
      Strip(orig[i].name) != CountryLabel && Strip(orig[i].name) != LocationLabel
  {
    StrippedLabels(orig, CountryLabel);
    StrippedLabels(orig, LocationLabel);
  }

  /** After the Country check on stripped labels, each label is its original
      stripped, or Country in place of a stripped Location. */
  lemma NormaliseLabels(orig: seq<Column>)
    ensures var r := EnsureCountry(StripNames(orig));
      r.Ok? ==> forall i :: 0 <= i < |orig| ==>
        r.value[i].name == Strip(orig[i].name)
        || (Strip(orig[i].name) == LocationLabel && r.value[i].name == CountryLabel)
    ensures var r := EnsureCountry(StripNames(orig));
      CountryLabel !in Names(StripNames(orig)) ==> forall i :: 0 <= i < |orig| ==>
        Strip(orig[i].name) == LocationLabel ==> r.Ok? && r.value[i].name == CountryLabel
  {
    var cols := StripNames(orig);
    assert forall i :: 0 <= i < |orig| ==> cols[i].name == Strip(orig[i].name);
    if CountryLabel !in Names(cols) {
      forall i | 0 <= i < |orig| && Strip(orig[i].name) == LocationLabel
        ensures EnsureCountry(cols).Ok? && EnsureCountry(cols).value[i].name == CountryLabel
      {
        assert Names(cols)[i] == LocationLabel;
        assert EnsureCountry(cols) == Ok(RenameLocation(cols));
      }
    }
  }

  /** A column is a rating metric when its dtype is numeric and it is
      neither Year nor ID number (app2.py:54-55). */
  predicate IsMetric(c: Column)
  {
    c.numeric && c.name != YearLabel && c.name != IdLabel
  }

  /** numeric_cols: the labels of the metric columns, in header order. */
  function MetricColumns(cols: seq<Column>): (r: seq<string>)
    ensures YearLabel !in r && IdLabel !in r
  {
    Names(Select(cols, IsMetric))
  }

  /** The metric list keeps the header's order and holds exactly the numeric
      columns other than Year and ID number: a column's label is listed, at
      its own position, if and only if the column is such a metric. */
  lemma MetricColumnsExact(cols: seq<Column>)
    ensures Picks(MetricColumns(cols), Names(cols), SelectedPositions(cols, IsMetric))
    ensures forall j :: 0 <= j < |cols| ==>
      (j in SelectedPositions(cols, IsMetric) <==> cols[j].numeric && cols[j].name !in [YearLabel, IdLabel])
  {
    var sel, ix := Select(cols, IsMetric), SelectedPositions(cols, IsMetric);
    SelectPicks(cols, IsMetric);
    forall k | 0 <= k < |ix| ensures ix[k] < |cols| && Names(sel)[k] == Names(cols)[ix[k]] {
      assert sel[k] == cols[ix[k]];
    }
    SelectedPositionsExact(cols, IsMetric);
  }
}
