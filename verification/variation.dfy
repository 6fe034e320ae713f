/** The daily variation of the holdings table against the stored baseline
    (`InterfazSHDA.calcular_variaciones_diarias`, tenencias.py:434-504). */
module Variation {
  import opened Tables
  import opened Normalize

  const PctCol := "% Diario"
  const DayResultCol := "Resultado del dia"

  /** `df['% Diario'] = 0.0` and `df['Resultado del dia'] = 0.0`, done only when
      the frame is not empty (tenencias.py:440-442 and again 502-504). */
  function InitVariation(t: Table): (r: Table)
    requires Valid(t)
    ensures Valid(r) && |r.rows| == |t.rows|
    ensures Empty(t) ==> r == t
    ensures !Empty(t) ==> Has(r, PctCol) && Has(r, DayResultCol)
    ensures !Empty(t) ==> forall c :: Has(r, c) <==> Has(t, c) || c == PctCol || c == DayResultCol
    ensures !Empty(t) ==> forall i :: 0 <= i < |t.rows| ==>
              r.rows[i] == t.rows[i][PctCol := Num(0.0)][DayResultCol := Num(0.0)]
  {
    if Empty(t) then t
    else SetColumn(SetColumn(t, PctCol, row => Num(0.0)), DayResultCol, row => Num(0.0))
  }

  /** Initialising twice is initialising once. */
  lemma InitVariationTwice(t: Table)
    requires Valid(t)
    ensures InitVariation(InitVariation(t)) == InitVariation(t)
  {
    var r := InitVariation(t);
    if !Empty(t) {
      var r2 := InitVariation(r);
      forall i | 0 <= i < |r.rows| ensures r2.rows[i] == r.rows[i] {
        assert r.rows[i][PctCol := Num(0.0)][DayResultCol := Num(0.0)] == r.rows[i];
      }
    }
  }

  // ---------------------------------------------------------------------------
  // The baseline lookup

  /** `if ticker and ticker != 'TOTALES'`: a ticker that takes part in the diff
      is a non-empty text other than the totals sentinel, or a non-zero number. */
  predicate IsKey(c: Cell) {
    match c
    case Str(s) => s != "" && s != Totals
    case Num(x) => x != 0.0
    case Missing => false
  }

  function TickerOf(row: Row): Cell {
    Field(row, TickerCol, Blank)
  }

  /** A row's price and amount as floats. */
  datatype Quote = Quote(price: Float, amount: Float)

  /** `float(row.get('Ultimo Precio', 0))` and `float(row.get('Importe Actual', 0))`,
      each reading '' as 0; None when either conversion raises. */
  function QuoteOf(row: Row, parse: Parser): (q: Option<Quote>)
    ensures q.Some? <==> ToFloat(Field(row, PriceCol, Num(0.0)), parse).Some?
                         && ToFloat(Field(row, AmountCol, Num(0.0)), parse).Some?
    ensures q.Some? ==> q.value.price == ToFloat(Field(row, PriceCol, Num(0.0)), parse).value
                        && q.value.amount == ToFloat(Field(row, AmountCol, Num(0.0)), parse).value
  {
    match (ToFloat(Field(row, PriceCol, Num(0.0)), parse), ToFloat(Field(row, AmountCol, Num(0.0)), parse))
    case (Some(p), Some(a)) => Some(Quote(p, a))
    case _ => None
  }

  /** `datos_ant_dict` after the baseline rows, in order (tenencias.py:458-465);
      None when a conversion raises. */
  function LookupOf(rows: seq<Row>, parse: Parser): (r: Option<map<Cell, Quote>>)
    ensures r.Some? ==> forall k :: k in r.value ==> IsKey(k)
  {
    if rows == [] then Some(map[])
    else match LookupOf(rows[..|rows| - 1], parse)
      case None => None
      case Some(m) =>
        var row := rows[|rows| - 1];
        if !IsKey(TickerOf(row)) then Some(m)
        else match QuoteOf(row, parse)
          case None => None
          case Some(q) => Some(m[TickerOf(row) := q])
  }

  /** The baseline row `j` is the last one with its ticker. */
  predicate LastWithTicker(rows: seq<Row>, j: int) {
    0 <= j < |rows| && forall j' :: j < j' < |rows| ==> TickerOf(rows[j']) != TickerOf(rows[j])
  }

  /** The lookup holds exactly the key tickers of the baseline: empty tickers
      and `TOTALES` are skipped. */
  lemma {:induction false} LookupKeys(rows: seq<Row>, parse: Parser)
    requires LookupOf(rows, parse).Some?
    ensures forall k :: k in LookupOf(rows, parse).value <==>
              IsKey(k) && exists j :: 0 <= j < |rows| && TickerOf(rows[j]) == k
  {
    if rows != [] {
      var init, row := rows[..|rows| - 1], rows[|rows| - 1];
      LookupKeys(init, parse);
      var m0 := LookupOf(init, parse).value;
      var m := LookupOf(rows, parse).value;
      assert forall k :: k in m <==> k in m0 || (IsKey(k) && k == TickerOf(row));
      forall k ensures k in m <==> IsKey(k) && exists j :: 0 <= j < |rows| && TickerOf(rows[j]) == k {
        if IsKey(k) && (exists j :: 0 <= j < |rows| && TickerOf(rows[j]) == k) && k != TickerOf(row) {
          var j :| 0 <= j < |rows| && TickerOf(rows[j]) == k;
          assert init[j] == rows[j];
        }
        if k in m0 {
          var j :| 0 <= j < |init| && TickerOf(init[j]) == k;
          assert rows[j] == init[j];
        }
      }
    }
  }

  /** A ticker that occurs more than once in the baseline keeps the quote of
      its last row. */
  lemma {:induction false} LookupLastWins(rows: seq<Row>, parse: Parser, j: nat)
    requires LookupOf(rows, parse).Some?
    requires LastWithTicker(rows, j) && IsKey(TickerOf(rows[j]))
    ensures QuoteOf(rows[j], parse).Some?
    ensures TickerOf(rows[j]) in LookupOf(rows, parse).value
    ensures LookupOf(rows, parse).value[TickerOf(rows[j])] == QuoteOf(rows[j], parse).value
  {
    var init, row := rows[..|rows| - 1], rows[|rows| - 1];
    if j < |init| {
      assert init[j] == rows[j];
      assert TickerOf(row) != TickerOf(rows[j]);
      assert forall j' :: j < j' < |init| ==> init[j'] == rows[j'];
      LookupLastWins(init, parse, j);
    }
  }

  /** The lookup fails exactly when some key row's price or amount does not convert. */
  lemma {:induction false} LookupFails(rows: seq<Row>, parse: Parser)
    ensures LookupOf(rows, parse).None? <==>
              exists j :: 0 <= j < |rows| && IsKey(TickerOf(rows[j])) && QuoteOf(rows[j], parse).None?
  {
    if rows != [] {
      var init := rows[..|rows| - 1];
      LookupFails(init, parse);
      if exists j :: 0 <= j < |init| && IsKey(TickerOf(init[j])) && QuoteOf(init[j], parse).None? {
        var j :| 0 <= j < |init| && IsKey(TickerOf(init[j])) && QuoteOf(init[j], parse).None?;
        assert rows[j] == init[j];
      }
      if exists j :: 0 <= j < |rows| && IsKey(TickerOf(rows[j])) && QuoteOf(rows[j], parse).None? {
        var j :| 0 <= j < |rows| && IsKey(TickerOf(rows[j])) && QuoteOf(rows[j], parse).None?;
        if j < |init| { assert init[j] == rows[j]; }
      }
    }
  }

  /** The first loop of the calculation: builds `datos_ant_dict` row by row. */
  method BuildLookup(rows: seq<Row>, parse: Parser) returns (r: Option<map<Cell, Quote>>)
    ensures r == LookupOf(rows, parse)
  {
    var m: map<Cell, Quote> := map[];
    var i := 0;
    while i < |rows|
      invariant 0 <= i <= |rows|
      invariant LookupOf(rows[..i], parse) == Some(m)
    {
      var row := rows[i];
      assert rows[..i + 1][..i] == rows[..i];
      if IsKey(TickerOf(row)) {
        var q := QuoteOf(row, parse);
        if q.None? {
          LookupFails(rows[..i + 1], parse);
          assert rows[..i + 1][i] == row;
          LookupFails(rows, parse);
          return None;
        }
        m := m[TickerOf(row) := q.value];
      }
      i := i + 1;
    }
    assert rows[..i] == rows;
    r := Some(m);
  }

  // ---------------------------------------------------------------------------
  // Diffing the current rows

  /** One current row against the lookup (tenencias.py:472-490). A row whose
      ticker is a key found in the lookup gets `Resultado del dia` = current
      amount - previous amount, and `% Diario` = the price change in percent
      when the previous price is not 0; any other row is kept. None when the
      row's own price or amount does not convert. */
  function VaryRow(row: Row, lookup: map<Cell, Quote>, parse: Parser): (r: Option<Row>)
    ensures r.Some? ==> forall c :: c != PctCol && c != DayResultCol ==>
              (c in r.value <==> c in row) && (c in row ==> r.value[c] == row[c])
    ensures r.Some? && PctCol in row && DayResultCol in row ==> r.value.Keys == row.Keys
    ensures !(IsKey(TickerOf(row)) && TickerOf(row) in lookup) ==> r == Some(row)
    ensures r.None? <==> IsKey(TickerOf(row)) && TickerOf(row) in lookup && QuoteOf(row, parse).None?
  {
    var k := TickerOf(row);
    if !(IsKey(k) && k in lookup) then Some(row)
    else match QuoteOf(row, parse)
      case None => None
      case Some(cur) =>
        var prev := lookup[k];
        var withPct := if prev.price != Finite(0.0)
                       then row[PctCol := FloatCell(RoundF(PercentChange(cur.price, prev.price)))]
                       else row;
        Some(withPct[DayResultCol := FloatCell(RoundF(Minus(cur.amount, prev.amount)))])
  }

  /** All current rows varied, in order; None as soon as one of them fails. */
  function VaryRows(rows: seq<Row>, lookup: map<Cell, Quote>, parse: Parser): (r: Option<seq<Row>>)
    ensures r.Some? <==> forall i :: 0 <= i < |rows| ==> VaryRow(rows[i], lookup, parse).Some?
    ensures r.Some? ==> |r.value| == |rows|
    ensures r.Some? ==> forall i :: 0 <= i < |rows| ==> r.value[i] == VaryRow(rows[i], lookup, parse).value
  {
    if rows == [] then Some([])
    else
      var init, last := rows[..|rows| - 1], rows[|rows| - 1];
      assert forall i :: 0 <= i < |init| ==> init[i] == rows[i];
      match VaryRows(init, lookup, parse)
      case None => None
      case Some(done) =>
        match VaryRow(last, lookup, parse)
        case None => None
        case Some(x) => Some(done + [x])
  }

  /** The diff can run: there is a baseline, both tables have a `Ticker`
      column, and no conversion raises. */
  predicate Diffable(t: Table, baseline: Option<Table>, parse: Parser)
    requires Valid(t)
  {
    && baseline.Some?
    && Has(baseline.value, TickerCol) && Has(t, TickerCol)
    && LookupOf(baseline.value.rows, parse).Some?
    && VaryRows(InitVariation(t).rows, LookupOf(baseline.value.rows, parse).value, parse).Some?
  }

  /** The whole calculation: the two columns are initialised; with no baseline,
      a baseline or a current table without a `Ticker` column, or a conversion
      that raises (the `except` branch), they stay 0.0; otherwise every row is
      diffed. Only the two variation columns ever change. */
  function DailyVariation(t: Table, baseline: Option<Table>, parse: Parser): (r: Table)
    requires Valid(t)
    ensures Valid(r) && r.columns == InitVariation(t).columns && |r.rows| == |t.rows|
    ensures !Empty(t) ==> Has(r, PctCol) && Has(r, DayResultCol)
    ensures forall i, c :: 0 <= i < |t.rows| && c in t.rows[i] && c != PctCol && c != DayResultCol ==>
              c in r.rows[i] && r.rows[i][c] == t.rows[i][c]
    ensures !Diffable(t, baseline, parse) ==> r == InitVariation(t)
    ensures Diffable(t, baseline, parse) ==> forall i :: 0 <= i < |t.rows| ==>
              r.rows[i] == VaryRow(InitVariation(t).rows[i], LookupOf(baseline.value.rows, parse).value, parse).value
  {
    var t0 := InitVariation(t);
    if !Diffable(t, baseline, parse) then t0
    else
      var rows := VaryRows(t0.rows, LookupOf(baseline.value.rows, parse).value, parse).value;
      var r := Table(t0.columns, rows);
      assert Valid(r) by {
        forall i | 0 <= i < |rows| ensures Fits(rows[i], r.columns) {
          assert Fits(t0.rows[i], t0.columns);
        }
      }
      r
  }

  /** With no baseline every row's `% Diario` and `Resultado del dia` are 0.0. */
  lemma NoBaselineZero(t: Table, parse: Parser, i: nat)
    requires Valid(t) && !Empty(t) && i < |t.rows|
    ensures DailyVariation(t, None, parse).rows[i][PctCol] == Num(0.0)
    ensures DailyVariation(t, None, parse).rows[i][DayResultCol] == Num(0.0)
  {
  }

  /** A baseline without a `Ticker` column, such as the raw vendor-coded table
      the end-of-day save writes, never matches: every row stays at 0.0. */
  lemma UntickeredBaselineZero(t: Table, b: Table, parse: Parser)
    requires Valid(t) && !Has(b, TickerCol)
    ensures DailyVariation(t, Some(b), parse) == InitVariation(t)
  {
  }

  /** The value each row ends with. A row whose ticker is not a key of the
      lookup keeps 0.0 in both columns; a matched row gets the rounded amount
      difference and, when the previous price is not 0, the rounded price
      change in percent (0.0 otherwise). The current price and amount are read
      from the row itself. */
  lemma DiffRow(t: Table, b: Table, parse: Parser, i: nat)
    requires Valid(t) && i < |t.rows| && Diffable(t, Some(b), parse)
    ensures var r := DailyVariation(t, Some(b), parse).rows[i];
            var lookup := LookupOf(b.rows, parse).value;
            var k := TickerOf(t.rows[i]);
            && (!(IsKey(k) && k in lookup) ==> r[PctCol] == Num(0.0) && r[DayResultCol] == Num(0.0))
            && (IsKey(k) && k in lookup ==>
                  var cur, prev := QuoteOf(t.rows[i], parse).value, lookup[k];
                  && r[DayResultCol] == FloatCell(RoundF(Minus(cur.amount, prev.amount)))
                  && r[PctCol] == if prev.price != Finite(0.0)
                                  then FloatCell(RoundF(PercentChange(cur.price, prev.price)))
                                  else Num(0.0))
  {
    var t0 := InitVariation(t);
    assert !Empty(t);
    var row0 := t0.rows[i];
    InitRowKeepsQuote(t.rows[i], row0, parse);
    VaryRowCells(row0, LookupOf(b.rows, parse).value, parse);
  }

  /** Zeroing the variation columns keeps a row's ticker and quote. */
  lemma InitRowKeepsQuote(row: Row, row0: Row, parse: Parser)
    requires row0 == row[PctCol := Num(0.0)][DayResultCol := Num(0.0)]
    ensures TickerOf(row0) == TickerOf(row) && QuoteOf(row0, parse) == QuoteOf(row, parse)
    ensures row0[PctCol] == Num(0.0) && row0[DayResultCol] == Num(0.0)
  {
    assert Field(row0, TickerCol, Blank) == Field(row, TickerCol, Blank);
    assert Field(row0, PriceCol, Num(0.0)) == Field(row, PriceCol, Num(0.0));
    assert Field(row0, AmountCol, Num(0.0)) == Field(row, AmountCol, Num(0.0));
  }

  /** The two variation cells `VaryRow` leaves in a row that starts at 0.0. */
  lemma VaryRowCells(row: Row, lookup: map<Cell, Quote>, parse: Parser)
    requires PctCol in row && DayResultCol in row
    requires row[PctCol] == Num(0.0) && row[DayResultCol] == Num(0.0)
    requires VaryRow(row, lookup, parse).Some?
    ensures var r := VaryRow(row, lookup, parse).value;
            var k := TickerOf(row);
            && (!(IsKey(k) && k in lookup) ==> r[PctCol] == Num(0.0) && r[DayResultCol] == Num(0.0))
            && (IsKey(k) && k in lookup ==>
                  var cur, prev := QuoteOf(row, parse).value, lookup[k];
                  && r[DayResultCol] == FloatCell(RoundF(Minus(cur.amount, prev.amount)))
                  && r[PctCol] == if prev.price != Finite(0.0)
                                  then FloatCell(RoundF(PercentChange(cur.price, prev.price)))
                                  else Num(0.0))
  {
  }

  /** A one-row table holding `AAPL` at the given price and amount. */
  function AaplTable(price: real, amount: real): Table {
    Table([TickerCol, PriceCol, AmountCol], [map[TickerCol := Str("AAPL"), PriceCol := Num(price), AmountCol := Num(amount)]])
  }

  /** The worked example of an instrument in both tables: price 100 -> 110 and
      amount 1000 -> 1100 give 10.0 % and a result of 100.0. */
  lemma AaplScenario(parse: Parser)
    ensures var r := DailyVariation(AaplTable(110.0, 1100.0), Some(AaplTable(100.0, 1000.0)), parse);
            r.rows[0][PctCol] == Num(10.0) && r.rows[0][DayResultCol] == Num(100.0)
  {
    var base, cur := AaplTable(100.0, 1000.0), AaplTable(110.0, 1100.0);
    AaplLookup(parse);
    AaplDiffable(parse);
    DiffRow(cur, base, parse, 0);
    var q := QuoteOf(cur.rows[0], parse);
    assert q == Some(Quote(Finite(110.0), Finite(1100.0)));
    AaplRounding();
  }

  lemma AaplRounding()
    ensures FloatCell(RoundF(PercentChange(Finite(110.0), Finite(100.0)))) == Num(10.0)
    ensures FloatCell(RoundF(Minus(Finite(1100.0), Finite(1000.0)))) == Num(100.0)
  {
    assert Round2(10.0) == 10.0 && Round2(100.0) == 100.0;
  }

  lemma AaplLookup(parse: Parser)
    ensures LookupOf(AaplTable(100.0, 1000.0).rows, parse) == Some(map[Str("AAPL") := Quote(Finite(100.0), Finite(1000.0))])
  {
    var base := AaplTable(100.0, 1000.0);
    assert base.rows[..0] == [];
    assert QuoteOf(base.rows[0], parse) == Some(Quote(Finite(100.0), Finite(1000.0)));
  }

  lemma AaplDiffable(parse: Parser)
    requires LookupOf(AaplTable(100.0, 1000.0).rows, parse) == Some(map[Str("AAPL") := Quote(Finite(100.0), Finite(1000.0))])
    ensures Valid(AaplTable(110.0, 1100.0))
    ensures Diffable(AaplTable(110.0, 1100.0), Some(AaplTable(100.0, 1000.0)), parse)
  {
    var cur := AaplTable(110.0, 1100.0);
    var lookup := map[Str("AAPL") := Quote(Finite(100.0), Finite(1000.0))];
    AaplValid(110.0, 1100.0);
    var t0 := InitVariation(cur);
    assert |t0.rows| == 1;
    AaplRowVaries(t0.rows[0], lookup, parse);
    assert t0.rows == [t0.rows[0]];
    VaryRowsOne(t0.rows[0], lookup, parse);
  }

  lemma VaryRowsOne(row: Row, lookup: map<Cell, Quote>, parse: Parser)
    requires VaryRow(row, lookup, parse).Some?
    ensures VaryRows([row], lookup, parse).Some?
  {
  }

  lemma AaplValid(price: real, amount: real)
    ensures Valid(AaplTable(price, amount)) && !Empty(AaplTable(price, amount))
  {
  }

  lemma AaplRowVaries(row0: Row, lookup: map<Cell, Quote>, parse: Parser)
    requires row0 == AaplTable(110.0, 1100.0).rows[0][PctCol := Num(0.0)][DayResultCol := Num(0.0)]
    requires lookup == map[Str("AAPL") := Quote(Finite(100.0), Finite(1000.0))]
    ensures VaryRow(row0, lookup, parse).Some?
  {
    InitRowKeepsQuote(AaplTable(110.0, 1100.0).rows[0], row0, parse);
    assert QuoteOf(AaplTable(110.0, 1100.0).rows[0], parse) == Some(Quote(Finite(110.0), Finite(1100.0)));
  }

  // ---------------------------------------------------------------------------
  // The calculation as the source runs it

  /** Varying rows changes only the two variation columns, so the reset of the
      `except` branch gives back the initialised table whatever was done. */
  lemma ResetAfterPartialDiff(t0: Table, rows: seq<Row>)
    requires Valid(t0) && !Empty(t0) && Has(t0, PctCol) && Has(t0, DayResultCol)
    requires forall i :: 0 <= i < |t0.rows| ==> t0.rows[i][PctCol] == Num(0.0) && t0.rows[i][DayResultCol] == Num(0.0)
    requires |rows| == |t0.rows|
    requires forall i :: 0 <= i < |rows| ==> rows[i].Keys == t0.rows[i].Keys
    requires forall i, c :: 0 <= i < |rows| && c in rows[i] && c != PctCol && c != DayResultCol ==> rows[i][c] == t0.rows[i][c]
    ensures Valid(Table(t0.columns, rows))
    ensures InitVariation(Table(t0.columns, rows)) == t0
  {
    var p := Table(t0.columns, rows);
    assert Valid(p) by {
      forall i | 0 <= i < |rows| ensures Fits(rows[i], p.columns) {
        assert Fits(t0.rows[i], t0.columns);
      }
    }
    var q := InitVariation(p);
    forall i | 0 <= i < |rows| ensures q.rows[i] == t0.rows[i] {
      assert q.rows[i] == rows[i][PctCol := Num(0.0)][DayResultCol := Num(0.0)];
    }
    assert q.columns == t0.columns;
  }

  /** The second loop of the calculation, updating the rows in place. When a
      row fails, the rows updated so far are returned with `ok` false. */
  method DiffRows(rows0: seq<Row>, lookup: map<Cell, Quote>, parse: Parser) returns (ok: bool, rows: seq<Row>)
    ensures ok <==> VaryRows(rows0, lookup, parse).Some?
    ensures ok ==> rows == VaryRows(rows0, lookup, parse).value
    ensures |rows| == |rows0|
    ensures forall i :: 0 <= i < |rows| && PctCol in rows0[i] && DayResultCol in rows0[i] ==> rows[i].Keys == rows0[i].Keys
    ensures forall i, c :: 0 <= i < |rows| && c in rows[i] && c != PctCol && c != DayResultCol ==>
              c in rows0[i] && rows[i][c] == rows0[i][c]
  {
    var a := new Row[|rows0|](i requires 0 <= i < |rows0| => rows0[i]);
    var i := 0;
    while i < a.Length
      invariant 0 <= i <= a.Length == |rows0|
      invariant forall j :: 0 <= j < i ==> VaryRow(rows0[j], lookup, parse).Some?
                                           && a[j] == VaryRow(rows0[j], lookup, parse).value
      invariant forall j :: i <= j < a.Length ==> a[j] == rows0[j]
    {
      var v := VaryRow(a[i], lookup, parse);
      if v.None? {
        return false, a[..];
      }
      a[i] := v.value;
      i := i + 1;
    }
    return true, a[..];
  }

  /** `calcular_variaciones_diarias` as the source runs it: initialise, build
      the lookup, update the rows, and reset both columns if anything raises. */
  method ComputeVariation(t: Table, baseline: Option<Table>, parse: Parser) returns (r: Table)
    requires Valid(t)
    ensures r == DailyVariation(t, baseline, parse)
  {
    r := InitVariation(t);
    if baseline.None? || !Has(baseline.value, TickerCol) || !Has(r, TickerCol) {
      return;
    }
    var lookup := BuildLookup(baseline.value.rows, parse);
    if lookup.None? {
      InitVariationTwice(t);
      r := InitVariation(r);
      return;
    }
    r := DiffOrReset(r, lookup.value, parse);
  }

  /** The second loop followed by the `except` reset: the varied rows, or the
      initialised table again when a row fails. */
  method DiffOrReset(t0: Table, lookup: map<Cell, Quote>, parse: Parser) returns (r: Table)
    requires Valid(t0) && (!Empty(t0) ==> Has(t0, PctCol) && Has(t0, DayResultCol))
    requires forall i :: 0 <= i < |t0.rows| ==>
               Field(t0.rows[i], PctCol, Missing) == Num(0.0) && Field(t0.rows[i], DayResultCol, Missing) == Num(0.0)
    ensures VaryRows(t0.rows, lookup, parse).None? ==> r == t0
    ensures VaryRows(t0.rows, lookup, parse).Some? ==> r == Table(t0.columns, VaryRows(t0.rows, lookup, parse).value)
  {
    var ok, rows := DiffRows(t0.rows, lookup, parse);
    if !ok {
      assert |t0.rows| > 0 && !Empty(t0);
      forall i | 0 <= i < |rows| ensures rows[i].Keys == t0.rows[i].Keys {
        assert Fits(t0.rows[i], t0.columns);
      }
      ResetAfterPartialDiff(t0, rows);
      r := InitVariation(Table(t0.columns, rows));
      return;
    }
    r := Table(t0.columns, rows);
  }
}
