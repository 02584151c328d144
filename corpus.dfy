/** The word-cloud text (app2.py:466-488): the chosen review column of the
    view's rows from one country, missing entries dropped, rendered as text
    and joined with single spaces; a corpus that strips to nothing is the
    "No text available" branch instead of a cloud. */
module Corpus {
  import opened Wrappers
  import opened Text
  import opened Seqs
  import opened Table
  import opened Schema

  /** The review-type selector's three choices. */
  datatype ReviewKind = Pros | Cons | Advice

  /** The label the selector shows, which is also the insight key. */
  function KindLabel(kind: ReviewKind): string
  {
    match kind
    case Pros => "Pros"
    case Cons => "Cons"
    case Advice => "Advice to Management"
  }

  /** wc_column_map: the label of the text column holding each review type. */
  function TextColumn(kind: ReviewKind): string
  {
    match kind
    case Pros => "pros"
    case Cons => "cons"
    case Advice => "advice to Management"
  }

  /** A label the table lacks: pandas raises KeyError on the column lookup. */
  datatype CorpusError = NoSuchColumn(name: string)

  /** What the tab shows: the "No text available" warning, or a cloud built
      from the given text. */
  datatype Cloud = NoText | Words(text: string)

  /** astype(str) of a present cell; how a number prints is the render
      parameter. */
  function AsText(c: Cell, render: real -> string): string
  {
    match c
    case Missing => ""
    case Num(x) => render(x)
    case Str(s) => s
  }

  /** A row contributes when its country equals the chosen one (a missing
      value equals nothing) and its review cell is present (dropna). */
  predicate Contributes(countryIx: nat, textIx: nat, country: Cell, row: Row)
  {
    country != Missing && CellAt(row, countryIx) == country && CellAt(row, textIx) != Missing
  }

  function ContributesTest(countryIx: nat, textIx: nat, country: Cell): Row -> bool
  {
    row => Contributes(countryIx, textIx, country, row)
  }

  /** The texts that go into the corpus, in view order. */
  function Parts(view: seq<Row>, countryIx: nat, textIx: nat, country: Cell, render: real -> string): (r: seq<string>)
    ensures |r| <= |view|
  {
    var rows := Select(view, ContributesTest(countryIx, textIx, country));
    seq(|rows|, k requires 0 <= k < |rows| => AsText(CellAt(rows[k], textIx), render))
  }

  /** " ".join(...) of the parts. */
  function JoinedText(view: seq<Row>, countryIx: nat, textIx: nat, country: Cell, render: real -> string): string
  {
    JoinSpace(Parts(view, countryIx, textIx, country, render))
  }

  /** The parts are exactly the rendered review cells of the contributing
      rows, in view order: row j gives a part if and only if it contributes. */
  lemma PartsExact(view: seq<Row>, countryIx: nat, textIx: nat, country: Cell, render: real -> string)
    ensures var ix := SelectedPositions(view, ContributesTest(countryIx, textIx, country));
      && |Parts(view, countryIx, textIx, country, render)| == |ix|
      && (forall k :: 0 <= k < |ix| ==>
            ix[k] < |view| && Parts(view, countryIx, textIx, country, render)[k] == AsText(CellAt(view[ix[k]], textIx), render))
      && (forall k, l :: 0 <= k < l < |ix| ==> ix[k] < ix[l])
      && (forall j :: 0 <= j < |view| ==> (j in ix <==> Contributes(countryIx, textIx, country, view[j])))
  {
    SelectPicks(view, ContributesTest(countryIx, textIx, country));
    SelectedPositionsExact(view, ContributesTest(countryIx, textIx, country));
  }

  /** The text is blank exactly when every contributing row's review renders
      as blank text; in particular no contributing row gives a blank text. */
  lemma TextBlankExactly(view: seq<Row>, countryIx: nat, textIx: nat, country: Cell, render: real -> string)
    ensures Blank(JoinedText(view, countryIx, textIx, country, render)) <==>
      forall j :: 0 <= j < |view| && Contributes(countryIx, textIx, country, view[j]) ==>
        Blank(AsText(CellAt(view[j], textIx), render))
  {
    var parts := Parts(view, countryIx, textIx, country, render);
    var ix := SelectedPositions(view, ContributesTest(countryIx, textIx, country));
    PartsExact(view, countryIx, textIx, country, render);
    JoinSpaceBlank(parts);
    if forall k :: 0 <= k < |parts| ==> Blank(parts[k]) {
      forall j | 0 <= j < |view| && Contributes(countryIx, textIx, country, view[j])
        ensures Blank(AsText(CellAt(view[j], textIx), render))
      {
        assert j in ix;
        var k :| 0 <= k < |ix| && ix[k] == j;
        assert Blank(parts[k]);
      }
    }
  }

  /** The word-cloud tab for one country and review type: an error when the
      table lacks the Country column or the review column, otherwise the
      "No text" branch exactly when the joined text strips to nothing, and
      otherwise a cloud over the joined text itself. */
  function WordCloud(cols: seq<Column>, view: seq<Row>, country: Cell, kind: ReviewKind, render: real -> string): (r: Result<Cloud, CorpusError>)
    ensures r.Err? <==> CountryLabel !in Names(cols) || TextColumn(kind) !in Names(cols)
    ensures r.Ok? ==> var countryIx, textIx := ColumnIndex(cols, CountryLabel).value, ColumnIndex(cols, TextColumn(kind)).value;
      && (r.value.NoText? <==> Blank(JoinedText(view, countryIx, textIx, country, render)))
      && (r.value.Words? ==> r.value.text == JoinedText(view, countryIx, textIx, country, render) && !Blank(r.value.text))
  {
    match ColumnIndex(cols, CountryLabel)
    case None => Err(NoSuchColumn(CountryLabel))
    case Some(countryIx) =>
      match ColumnIndex(cols, TextColumn(kind))
      case None => Err(NoSuchColumn(TextColumn(kind)))
      case Some(textIx) =>
        var text := JoinedText(view, countryIx, textIx, country, render);
        if Strip(text) == "" then Ok(NoText) else Ok(Words(text))
  }

  /** With both columns present, the tab warns "No text available" if and
      only if every matching row's review is blank once rendered; an empty
      view, or a country that is missing, always warns. */
  lemma NoTextExactly(cols: seq<Column>, view: seq<Row>, country: Cell, kind: ReviewKind, render: real -> string)
    requires CountryLabel in Names(cols) && TextColumn(kind) in Names(cols)
    ensures var countryIx, textIx := ColumnIndex(cols, CountryLabel).value, ColumnIndex(cols, TextColumn(kind)).value;
      WordCloud(cols, view, country, kind, render) == Ok(NoText) <==>
        forall j :: 0 <= j < |view| && Contributes(countryIx, textIx, country, view[j]) ==>
          Blank(AsText(CellAt(view[j], textIx), render))
    ensures view == [] || country == Missing ==> WordCloud(cols, view, country, kind, render) == Ok(NoText)
  {
    var countryIx, textIx := ColumnIndex(cols, CountryLabel).value, ColumnIndex(cols, TextColumn(kind)).value;
    TextBlankExactly(view, countryIx, textIx, country, render);
  }
}
