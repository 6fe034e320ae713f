/** The values every stage of the holdings pipeline works on: cells, rows and
    tables (a pandas data frame with named columns), Python floats, and the
    small numeric and text helpers the pipeline relies on. */
module Tables {

  datatype Option<+T> = None | Some(value: T)

  /** A Python float as `float(...)` returns it: a finite number or NaN.
      Infinities are not part of the model. */
  datatype Float = Finite(v: real) | NaN

  /** One cell of a data frame: text, a number, or a missing value (NaN). */
  datatype Cell = Str(s: string) | Num(x: real) | Missing

  /** The empty string `''` the totals row is filled with. */
  const Blank: Cell := Str("")

  /** A row maps each column name to its cell. */
  type Row = map<string, Cell>

  /** A data frame: its columns in order and its rows in order. */
  datatype Table = Table(columns: seq<string>, rows: seq<Row>)

  /** Text-to-number conversion as `float(text)` and `pd.to_numeric` perform it;
      None where the text is not a number (where `float` raises). It belongs to
      the Python runtime, so every stage that needs it takes it as a parameter. */
  type Parser = string -> Option<Float>

  predicate Distinct(s: seq<string>) {
    forall i, j :: 0 <= i < j < |s| ==> s[i] != s[j]
  }

  /** A row has exactly one cell per column. */
  ghost predicate Fits(row: Row, columns: seq<string>) {
    forall c :: c in row <==> c in columns
  }

  /** The shape every data frame has: distinct column names, and one cell per
      column in every row. */
  ghost predicate Valid(t: Table) {
    && Distinct(t.columns)
    && forall i :: 0 <= i < |t.rows| ==> Fits(t.rows[i], t.columns)
  }

  /** `c in df.columns` */
  predicate Has(t: Table, c: string) {
    c in t.columns
  }

  /** `df.empty`: the frame has no rows or no columns. */
  predicate Empty(t: Table) {
    |t.rows| == 0 || |t.columns| == 0
  }

  /** `row.get(c, default)` */
  function Field(row: Row, c: string, default: Cell): Cell {
    if c in row then row[c] else default
  }

  /** `df[c] = f(row)` for every row: overwrites column `c` in place when it
      exists, and otherwise appends it as the last column. */
  function SetColumn(t: Table, c: string, f: Row -> Cell): (r: Table)
    ensures |r.rows| == |t.rows|
    ensures r.columns == if c in t.columns then t.columns else t.columns + [c]
    ensures forall i :: 0 <= i < |t.rows| ==> r.rows[i] == t.rows[i][c := f(t.rows[i])]
    ensures Valid(t) ==> Valid(r)
  {
    var rows := seq(|t.rows|, i requires 0 <= i < |t.rows| => t.rows[i][c := f(t.rows[i])]);
    Table(if c in t.columns then t.columns else t.columns + [c], rows)
  }

  /** Python's `round(x, 2)` on an exact value: to the nearest hundredth, a tie
      going to the even hundredth. */
  function Round2(x: real): (r: real)
    ensures r * 100.0 == (r * 100.0).Floor as real
    ensures -1.0 / 200.0 <= r - x <= 1.0 / 200.0
  {
    var scaled := x * 100.0;
    var n := scaled.Floor;
    var frac := scaled - n as real;
    var k := if frac < 0.5 then n else if frac > 0.5 then n + 1 else if n % 2 == 0 then n else n + 1;
    k as real / 100.0
  }

  function RoundF(f: Float): Float {
    match f
    case Finite(v) => Finite(Round2(v))
    case NaN => NaN
  }

  /** The cell a float is stored as: NaN is a missing value. */
  function FloatCell(f: Float): (c: Cell)
    ensures c.Missing? <==> f.NaN?
  {
    match f
    case Finite(v) => Num(v)
    case NaN => Missing
  }

  /** `a - b`, NaN propagating. */
  function Minus(a: Float, b: Float): (r: Float)
    ensures r.NaN? <==> a.NaN? || b.NaN?
  {
    if a.NaN? || b.NaN? then NaN else Finite(a.v - b.v)
  }

  /** `(a - b) / b * 100` for a `b` that is not zero, NaN propagating. */
  function PercentChange(a: Float, b: Float): (r: Float)
    requires b != Finite(0.0)
    ensures r.NaN? <==> a.NaN? || b.NaN?
  {
    if a.NaN? || b.NaN? then NaN else Finite((a.v - b.v) / b.v * 100.0)
  }

  /** `float(v) if v != '' else 0` on a cell: the empty string reads as zero, and
      None stands for the ValueError `float` raises on other non-numeric text. */
  function ToFloat(c: Cell, parse: Parser): (r: Option<Float>)
    ensures c.Num? ==> r == Some(Finite(c.x))
    ensures c.Missing? ==> r == Some(NaN)
    ensures c == Blank ==> r == Some(Finite(0.0))
    ensures c.Str? && c != Blank ==> r == parse(c.s)
  {
    match c
    case Num(x) => Some(Finite(x))
    case Missing => Some(NaN)
    case Str(s) => if s == "" then Some(Finite(0.0)) else parse(s)
  }

  /** `pd.to_numeric(v, errors='coerce')` followed by `.round(2)`: numbers are
      rounded, text that does not parse becomes a missing value. */
  function ToNumeric(c: Cell, parse: Parser): (r: Cell)
    ensures !r.Str?
    ensures c.Num? ==> r == Num(Round2(c.x))
    ensures c.Missing? ==> r == Missing
    ensures c.Str? ==> (r.Num? <==> parse(c.s).Some? && parse(c.s).value.Finite?)
    ensures c.Str? && r.Num? ==> r.x == Round2(parse(c.s).value.v)
  {
    match c
    case Num(x) => Num(Round2(x))
    case Missing => Missing
    case Str(s) =>
      match parse(s)
      case Some(Finite(x)) => Num(Round2(x))
      case _ => Missing
  }

  function UpperChar(ch: char): char {
    if 'a' <= ch <= 'z' then (ch as int - 32) as char else ch
  }

  /** `str.upper()` on ASCII letters. */
  function Upper(s: string): (r: string)
    ensures |r| == |s|
    ensures forall i :: 0 <= i < |s| ==> r[i] == UpperChar(s[i])
  {
    seq(|s|, i requires 0 <= i < |s| => UpperChar(s[i]))
  }
}
