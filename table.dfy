/** The review table as the pipeline sees it once loaded: a header of named
    columns, each numeric or not (pandas' dtype), and positional rows of cells.
    A missing value (NaN/None) is the cell Missing. */
module Table {
  import opened Wrappers
  import opened Order

  datatype Cell = Missing | Num(x: real) | Str(s: string)

  /** One record: its cells in column order. */
  type Row = seq<Cell>

  /** A column header: its label and whether its dtype is a numpy number
      (select_dtypes(include=np.number)); booleans and objects are not. */
  datatype Column = Column(name: string, numeric: bool)

  datatype Frame = Frame(columns: seq<Column>, rows: seq<Row>)

  /** The cell of a row in column ix. Tables are rectangular, so every row
      has a cell for every column; a position past the end reads as Missing. */
  function CellAt(row: Row, ix: nat): Cell
  {
    if ix < |row| then row[ix] else Missing
  }

  /** The labels of a header, in order. */
  function Names(cols: seq<Column>): (r: seq<string>)
    ensures |r| == |cols|
    ensures forall i :: 0 <= i < |cols| ==> r[i] == cols[i].name
  {
    seq(|cols|, i requires 0 <= i < |cols| => cols[i].name)
  }

  /** Position of the column labelled name (df[name]): the first such column,
      or None when no column has that label, where pandas raises KeyError. */
  function ColumnIndex(cols: seq<Column>, name: string): (r: Option<nat>)
    ensures r.Some? ==> r.value < |cols| && cols[r.value].name == name
    ensures r.Some? ==> forall j :: 0 <= j < r.value ==> cols[j].name != name
    ensures r.None? <==> name !in Names(cols)
  {
    if |cols| == 0 then None
    else if cols[0].name == name then Some(0)
    else match ColumnIndex(cols[1..], name)
      case Some(i) => Some(i + 1)
      case None => None
  }

  function CharLess(a: char, b: char): bool
  {
    a < b
  }

  /** The order in which pandas sorts key cells of one typed column: numbers
      by value, strings by Python's code-point lexicographic comparison.
      Across kinds (which a typed column never mixes) Missing < Num < Str. */
  function CellLess(a: Cell, b: Cell): bool
  {
    match (a, b)
    case (Num(x), Num(y)) => x < y
    case (Str(s), Str(t)) => LexLess(s, t, CharLess)
    case (Missing, Missing) => false
    case (Missing, _) => true
    case (Num(_), Str(_)) => true
    case (_, _) => false
  }

  lemma CharOrder()
    ensures StrictTotalOrder(CharLess)
  {
  }

  lemma CellIrreflexive(a: Cell)
    ensures !CellLess(a, a)
  {
    if a.Str? {
      CharOrder();
      LexIrreflexive(a.s, CharLess);
    }
  }

  lemma CellTransitive(a: Cell, b: Cell, c: Cell)
    requires CellLess(a, b) && CellLess(b, c)
    ensures CellLess(a, c)
  {
    if a.Str? && b.Str? && c.Str? {
      CharOrder();
      LexTransitive(a.s, b.s, c.s, CharLess);
    }
  }

  lemma CellTotal(a: Cell, b: Cell)
    ensures a == b || CellLess(a, b) || CellLess(b, a)
  {
    if a.Str? && b.Str? {
      CharOrder();
      LexTotal(a.s, b.s, CharLess);
    }
  }

  /** CellLess is a strict total order on cells, so lexicographic order on
      key tuples of cells is one too. */
  lemma CellOrder()
    ensures StrictTotalOrder(CellLess)
  {
    forall a { CellIrreflexive(a); }
    forall a, b, c | CellLess(a, b) && CellLess(b, c) { CellTransitive(a, b, c); }
    forall a, b { CellTotal(a, b); }
  }
}
