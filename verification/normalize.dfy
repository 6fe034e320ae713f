/** The normalising stages of one update of the holdings table
    (`InterfazSHDA.actualizar_datos`, tenencias.py:515-577): the end-of-day
    marker test, the vendor-code rename, numeric coercion, the `TIPO`
    classification and the dollar valuation column. */
module Normalize {
  import opened Tables

  const HoraCol := "Hora"
  const NameCol := "Nombre de la Especie"
  const TickerCol := "Ticker"
  const PriceCol := "Ultimo Precio"
  const ResultCol := "Resultado"
  const AmountCol := "Importe Actual"
  const UsdCol := "Actual en U$S"
  const TipoCol := "TIPO"
  const EspeCol := "ESPE"

  /** The sentinel name and ticker of the totals row. */
  const Totals := "TOTALES"
  /** The ticker whose price is the dollar rate. */
  const DollarTicker := "DOLARUSA"

  // ---------------------------------------------------------------------------
  // End-of-day marker

  /** `str(v).upper() == 'CIERRE'`; the text of a number or of NaN never reads so. */
  predicate IsCloseMarker(c: Cell) {
    c.Str? && Upper(c.s) == "CIERRE"
  }

  /** The raw table has a `Hora` column and some row's `Hora` is the end-of-day marker. */
  predicate HasCloseMarker(t: Table) {
    Has(t, HoraCol) && exists i :: 0 <= i < |t.rows| && IsCloseMarker(Field(t.rows[i], HoraCol, Missing))
  }

  /** The marker is read case-insensitively, and no number or missing value
      is ever a marker. */
  lemma CloseMarkerSpellings(x: real)
    ensures IsCloseMarker(Str("CIERRE")) && IsCloseMarker(Str("cierre")) && IsCloseMarker(Str("Cierre"))
    ensures !IsCloseMarker(Str("CIERRE ")) && !IsCloseMarker(Num(x)) && !IsCloseMarker(Missing)
  {
    assert Upper("cierre") == "CIERRE";
    assert Upper("Cierre") == "CIERRE";
    assert |Upper("CIERRE ")| == 7;
  }

  // ---------------------------------------------------------------------------
  // Rename

  /** The vendor codes and the names they are renamed to, in the order the
      source tests for them. `Hora` keeps its name. */
  const Renames: seq<(string, string)> := [
    ("AMPL", NameCol), ("TICK", TickerCol), ("CANT", "Cantidad"), ("Hora", HoraCol),
    ("PCIO", PriceCol), ("GTOS", ResultCol), ("CAN0", "Costo Promedio"),
    ("CAN2", "Sabe Dios"), ("CAN3", "% Var Total"), ("IMPO", AmountCol),
    ("Detalle", "Detalle de operaciones diarias")]

  predicate IsVendorCode(c: string) {
    exists k :: 0 <= k < |Renames| && Renames[k].0 == c
  }

  /** Builds the rename map pair by pair, adding a pair only when its code is
      one of the columns. */
  function RenamesPresent(pairs: seq<(string, string)>, columns: seq<string>): map<string, string> {
    if pairs == [] then map[]
    else
      var m := RenamesPresent(pairs[..|pairs| - 1], columns);
      var p := pairs[|pairs| - 1];
      if p.0 in columns then m[p.0 := p.1] else m
  }

  /** The map holds exactly the codes present, and each present code is mapped
      to the name of its last pair. */
  lemma {:induction false} RenamesPresentSpec(pairs: seq<(string, string)>, columns: seq<string>)
    ensures forall c :: c in RenamesPresent(pairs, columns) <==>
              c in columns && exists k :: 0 <= k < |pairs| && pairs[k].0 == c
    ensures forall k :: 0 <= k < |pairs| && pairs[k].0 in columns
              && (forall k' :: k < k' < |pairs| ==> pairs[k'].0 != pairs[k].0)
              ==> RenamesPresent(pairs, columns)[pairs[k].0] == pairs[k].1
  {
    if pairs != [] {
      var init := pairs[..|pairs| - 1];
      RenamesPresentSpec(init, columns);
      var m := RenamesPresent(init, columns);
      var p := pairs[|pairs| - 1];
      forall c ensures c in RenamesPresent(pairs, columns) <==>
                 c in columns && exists k :: 0 <= k < |pairs| && pairs[k].0 == c
      {
        if c in columns && (exists k :: 0 <= k < |pairs| && pairs[k].0 == c) && c != p.0 {
          var k :| 0 <= k < |pairs| && pairs[k].0 == c;
          assert init[k].0 == c;
        }
        if c in m {
          var k :| 0 <= k < |init| && init[k].0 == c;
          assert pairs[k].0 == c;
        }
      }
      forall k | 0 <= k < |pairs| && pairs[k].0 in columns
                 && (forall k' :: k < k' < |pairs| ==> pairs[k'].0 != pairs[k].0)
        ensures RenamesPresent(pairs, columns)[pairs[k].0] == pairs[k].1
      {
        if k < |init| {
          assert init[k] == pairs[k];
          assert pairs[|pairs| - 1].0 != pairs[k].0;
          assert forall k' :: k < k' < |init| ==> init[k'] == pairs[k'];
        }
      }
    }
  }

  /** No code appears twice in the rename table, so each present code gets its own pair's name. */
  lemma RenamesLastPair(columns: seq<string>)
    ensures forall k :: 0 <= k < |Renames| && Renames[k].0 in columns ==>
              Renames[k].0 in RenamesPresent(Renames, columns) &&
              RenamesPresent(Renames, columns)[Renames[k].0] == Renames[k].1
  {
    RenamesPresentSpec(Renames, columns);
    assert forall k, k' :: 0 <= k < k' < |Renames| ==> Renames[k].0 != Renames[k'].0;
    forall k | 0 <= k < |Renames| && Renames[k].0 in columns
      ensures Renames[k].0 in RenamesPresent(Renames, columns)
      ensures RenamesPresent(Renames, columns)[Renames[k].0] == Renames[k].1
    {
      assert forall k' :: k < k' < |Renames| ==> Renames[k'].0 != Renames[k].0;
    }
  }

  /** `columnas_renombrar`: exactly the vendor codes present among the columns,
      each mapped to its fixed name. */
  function RenameMap(columns: seq<string>): (m: map<string, string>)
    ensures forall c :: c in m <==> c in columns && IsVendorCode(c)
    ensures forall k :: 0 <= k < |Renames| && Renames[k].0 in columns ==>
              Renames[k].0 in m && m[Renames[k].0] == Renames[k].1
  {
    RenamesPresentSpec(Renames, columns);
    RenamesLastPair(columns);
    RenamesPresent(Renames, columns)
  }

  function NewName(m: map<string, string>, c: string): string {
    if c in m then m[c] else c
  }

  /** The column names after `df.rename(columns=columnas_renombrar)`. */
  function RenamedColumns(columns: seq<string>): (r: seq<string>)
    ensures |r| == |columns|
    ensures forall i :: 0 <= i < |columns| ==> r[i] == NewName(RenameMap(columns), columns[i])
  {
    var m := RenameMap(columns);
    seq(|columns|, i requires 0 <= i < |columns| => NewName(m, columns[i]))
  }

  /** Renaming would give two columns the same label (a vendor code next to
      its own canonical name). */
  predicate RenameCollides(t: Table) {
    !Distinct(RenamedColumns(t.columns))
  }

  lemma RenameInjective(t: Table, i: nat, c1: string, c2: string)
    requires Valid(t) && !RenameCollides(t) && i < |t.rows|
    requires c1 in t.rows[i] && c2 in t.rows[i] && c1 != c2
    ensures NewName(RenameMap(t.columns), c1) != NewName(RenameMap(t.columns), c2)
  {
    assert c1 in t.columns && c2 in t.columns;
    var j1 :| 0 <= j1 < |t.columns| && t.columns[j1] == c1;
    var j2 :| 0 <= j2 < |t.columns| && t.columns[j2] == c2;
    var rc := RenamedColumns(t.columns);
    if j1 < j2 { assert rc[j1] != rc[j2]; } else { assert rc[j2] != rc[j1]; }
  }

  function RenameRow(t: Table, i: nat): (r: Row)
    requires Valid(t) && !RenameCollides(t) && i < |t.rows|
    ensures forall c :: c in t.rows[i] ==>
              NewName(RenameMap(t.columns), c) in r && r[NewName(RenameMap(t.columns), c)] == t.rows[i][c]
    ensures forall n :: n in r ==> exists c :: c in t.rows[i] && n == NewName(RenameMap(t.columns), c)
  {
    var m := RenameMap(t.columns);
    var row := t.rows[i];
    forall c1, c2 | c1 in row && c2 in row && c1 != c2
      ensures NewName(m, c1) != NewName(m, c2)
    {
      RenameInjective(t, i, c1, c2);
    }
    map c | c in row :: NewName(m, c) := row[c]
  }

  /** `df.rename(columns=columnas_renombrar)`: only the vendor codes present are
      renamed, each to its fixed name; every other column keeps its name; and
      every column keeps its position and its values. */
  function Rename(t: Table): (r: Table)
    requires Valid(t) && !RenameCollides(t)
    ensures Valid(r)
    ensures |r.columns| == |t.columns| && |r.rows| == |t.rows|
    ensures forall j, k :: 0 <= j < |t.columns| && 0 <= k < |Renames| && t.columns[j] == Renames[k].0
              ==> r.columns[j] == Renames[k].1
    ensures forall j :: 0 <= j < |t.columns| && !IsVendorCode(t.columns[j]) ==> r.columns[j] == t.columns[j]
    ensures forall i, j :: 0 <= i < |t.rows| && 0 <= j < |t.columns|
              ==> r.columns[j] in r.rows[i] && r.rows[i][r.columns[j]] == t.rows[i][t.columns[j]]
  {
    var cols := RenamedColumns(t.columns);
    var rows := seq(|t.rows|, i requires 0 <= i < |t.rows| => RenameRow(t, i));
    forall i | 0 <= i < |rows| ensures Fits(rows[i], cols) {
      RenameRowFits(t, i);
    }
    Table(cols, rows)
  }

  lemma RenameRowFits(t: Table, i: nat)
    requires Valid(t) && !RenameCollides(t) && i < |t.rows|
    ensures Fits(RenameRow(t, i), RenamedColumns(t.columns))
  {
    forall n ensures n in RenameRow(t, i) <==> n in RenamedColumns(t.columns) {
      if n in RenameRow(t, i) { RenamedKeyIsColumn(t, i, n); }
      if n in RenamedColumns(t.columns) { RenamedColumnIsKey(t, i, n); }
    }
  }

  lemma RenamedKeyIsColumn(t: Table, i: nat, n: string)
    requires Valid(t) && !RenameCollides(t) && i < |t.rows| && n in RenameRow(t, i)
    ensures n in RenamedColumns(t.columns)
  {
    var cols := RenamedColumns(t.columns);
    var c :| c in t.rows[i] && n == NewName(RenameMap(t.columns), c);
    var j :| 0 <= j < |t.columns| && t.columns[j] == c;
    assert cols[j] == n;
  }

  lemma RenamedColumnIsKey(t: Table, i: nat, n: string)
    requires Valid(t) && !RenameCollides(t) && i < |t.rows| && n in RenamedColumns(t.columns)
    ensures n in RenameRow(t, i)
  {
    var cols := RenamedColumns(t.columns);
    var j :| 0 <= j < |cols| && cols[j] == n;
    assert t.columns[j] in t.rows[i];
  }

  // ---------------------------------------------------------------------------
  // Numeric coercion

  /** The columns converted to numbers, in the order the source converts them. */
  const NumericCols := [PriceCol, ResultCol, "Costo Promedio", "% Var Total", AmountCol]

  /** No cell of column `c` is text. */
  predicate NumericColumn(t: Table, c: string) {
    forall i :: 0 <= i < |t.rows| ==> !Field(t.rows[i], c, Missing).Str?
  }

  /** `df[c] = pd.to_numeric(df[c], errors='coerce').round(2)` when `c` is a column. */
  function CoerceColumn(t: Table, c: string, parse: Parser): Table {
    if Has(t, c) then SetColumn(t, c, row => ToNumeric(Field(row, c, Missing), parse)) else t
  }

  /** The columns of `cols` that are present, converted one after another: each
      of their cells becomes a number or a missing value, and every other cell
      and the column order stay as they were. */
  function CoerceColumns(t: Table, cols: seq<string>, parse: Parser): (r: Table)
    requires Valid(t) && Distinct(cols)
    ensures Valid(r) && r.columns == t.columns && |r.rows| == |t.rows|
    ensures forall i :: 0 <= i < |t.rows| ==> r.rows[i].Keys == t.rows[i].Keys
    ensures forall i, c :: 0 <= i < |t.rows| && c in t.rows[i] ==>
              r.rows[i][c] == if c in cols then ToNumeric(t.rows[i][c], parse) else t.rows[i][c]
  {
    if cols == [] then t
    else
      var init, last := cols[..|cols| - 1], cols[|cols| - 1];
      assert forall c :: c in cols <==> c in init || c == last;
      assert last !in init;
      CoerceColumn(CoerceColumns(t, init, parse), last, parse)
  }

  /** The loop over `columnas_numericas` (tenencias.py:554-556). */
  method CoerceNumeric(t: Table, parse: Parser) returns (r: Table)
    requires Valid(t)
    ensures r == CoerceColumns(t, NumericCols, parse)
  {
    r := t;
    for k := 0 to |NumericCols|
      invariant r == CoerceColumns(t, NumericCols[..k], parse)
    {
      var c := NumericCols[k];
      if Has(r, c) {
        r := SetColumn(r, c, row => ToNumeric(Field(row, c, Missing), parse));
      }
      assert NumericCols[..k + 1][..k] == NumericCols[..k];
    }
    assert NumericCols[..|NumericCols|] == NumericCols;
  }

  /** After coercion, every numeric column that is present holds no text. */
  lemma CoercedColumnsAreNumeric(t: Table, parse: Parser, c: string)
    requires Valid(t) && c in NumericCols
    ensures NumericColumn(CoerceColumns(t, NumericCols, parse), c)
  {
    var r := CoerceColumns(t, NumericCols, parse);
    forall i | 0 <= i < |r.rows| ensures !Field(r.rows[i], c, Missing).Str? {
      if c in r.rows[i] {
        assert r.rows[i][c] == ToNumeric(t.rows[i][c], parse);
      }
    }
  }

  // ---------------------------------------------------------------------------
  // TIPO classification

  /** A code the `tipo_activo` table knows: the text '0' .. '7'. */
  predicate IsTipoCode(c: Cell) {
    c.Str? && |c.s| == 1 && '0' <= c.s[0] <= '7'
  }

  /** The eight categories, indexed by their code. */
  const TipoCategories := ["Acciones", "Bonos", "Panel General", "ON", "Dolar USA", "Opciones", "Letras", "Cedear"]

  /** `astype(str).map(tipo_activo).fillna(original)` on one cell: code `d`
      becomes the `d`-th category, which is never itself a code; any other
      value is kept as it is. */
  function TipoName(c: Cell): (r: Cell)
    ensures IsTipoCode(c) ==> r == Str(TipoCategories[c.s[0] as int - '0' as int]) && !IsTipoCode(r)
    ensures !IsTipoCode(c) ==> r == c
  {
    if c == Str("0") then Str("Acciones")
    else if c == Str("1") then Str("Bonos")
    else if c == Str("2") then Str("Panel General")
    else if c == Str("3") then Str("ON")
    else if c == Str("4") then Str("Dolar USA")
    else if c == Str("5") then Str("Opciones")
    else if c == Str("6") then Str("Letras")
    else if c == Str("7") then Str("Cedear")
    else c
  }

  predicate IsCash(row: Row) {
    Field(row, EspeCol, Missing) == Str("Cash")
  }

  /** The final `TIPO` of a row: `Efectivo` for cash, the mapped code otherwise. */
  function ClassifiedTipo(row: Row, hasEspe: bool): Cell {
    if hasEspe && IsCash(row) then Str("Efectivo") else TipoName(Field(row, TipoCol, Missing))
  }

  /** The `TIPO` mapping and the `ESPE == 'Cash'` override (tenencias.py:559-568).
      Nothing changes without a `TIPO` column; with one, only `TIPO` changes. */
  function Classify(t: Table): (r: Table)
    requires Valid(t)
    ensures Valid(r) && r.columns == t.columns && |r.rows| == |t.rows|
    ensures !Has(t, TipoCol) ==> r == t
    ensures Has(t, TipoCol) ==> forall i :: 0 <= i < |t.rows| ==>
              r.rows[i] == t.rows[i][TipoCol := ClassifiedTipo(t.rows[i], Has(t, EspeCol))]
  {
    if !Has(t, TipoCol) then t
    else
      var mapped := SetColumn(t, TipoCol, row => TipoName(Field(row, TipoCol, Missing)));
      if Has(mapped, EspeCol) then
        SetColumn(mapped, TipoCol, row => if IsCash(row) then Str("Efectivo") else Field(row, TipoCol, Missing))
      else mapped
  }

  /** Every cash row is `Efectivo`, whatever its code; every other row's code is
      mapped, and a value that is not a code is kept. */
  lemma ClassifyRows(t: Table, i: nat)
    requires Valid(t) && Has(t, TipoCol) && i < |t.rows|
    ensures Has(t, EspeCol) && IsCash(t.rows[i]) ==> Classify(t).rows[i][TipoCol] == Str("Efectivo")
    ensures !(Has(t, EspeCol) && IsCash(t.rows[i])) && !IsTipoCode(t.rows[i][TipoCol]) ==>
              Classify(t).rows[i][TipoCol] == t.rows[i][TipoCol]
    ensures forall c :: c in t.rows[i] && c != TipoCol ==> Classify(t).rows[i][c] == t.rows[i][c]
  {
  }

  /** Classifying an already classified table changes nothing. */
  lemma ClassifyIdempotent(t: Table)
    requires Valid(t)
    ensures Classify(Classify(t)) == Classify(t)
  {
    var r := Classify(t);
    if Has(t, TipoCol) {
      var r2 := Classify(r);
      forall i | 0 <= i < |r.rows| ensures r2.rows[i] == r.rows[i] {
        var v := ClassifiedTipo(t.rows[i], Has(t, EspeCol));
        assert r.rows[i][TipoCol] == v;
        assert IsCash(r.rows[i]) == IsCash(t.rows[i]);
        assert ClassifiedTipo(r.rows[i], Has(r, EspeCol)) == v;
        assert r.rows[i][TipoCol := v] == r.rows[i];
      }
      assert r2.rows == r.rows;
    }
  }

  /** Code '4' is "Dolar USA"; the same row marked as cash is "Efectivo". */
  lemma TipoScenario()
    ensures Classify(Table([TipoCol], [map[TipoCol := Str("4")]])).rows[0][TipoCol] == Str("Dolar USA")
    ensures Classify(Table([TipoCol, EspeCol], [map[TipoCol := Str("4"), EspeCol := Str("Cash")]])).rows[0][TipoCol]
              == Str("Efectivo")
  {
  }

  // ---------------------------------------------------------------------------
  // Dollar valuation

  predicate IsDollarRow(row: Row) {
    Field(row, TickerCol, Missing) == Str(DollarTicker)
  }

  /** The position of the first `DOLARUSA` row, if any (`dolar_rows.iloc[0]`). */
  function FirstDollarRow(rows: seq<Row>): (k: Option<nat>)
    ensures k.Some? ==> k.value < |rows| && IsDollarRow(rows[k.value])
                        && forall j :: 0 <= j < k.value ==> !IsDollarRow(rows[j])
    ensures k.None? ==> forall j :: 0 <= j < |rows| ==> !IsDollarRow(rows[j])
  {
    if rows == [] then None
    else if IsDollarRow(rows[0]) then Some(0)
    else match FirstDollarRow(rows[1..])
      case None => None
      case Some(k) => Some(k + 1)
  }

  /** `(importe / precio_dolar).round(2)` for one row. A missing operand gives a
      missing value, and so does a zero rate. */
  function UsdCell(amount: Cell, rate: Cell): (r: Cell)
    requires !amount.Str? && !rate.Str?
    ensures r.Num? <==> amount.Num? && rate.Num? && rate.x != 0.0
    ensures r.Num? ==> r.x == Round2(amount.x / rate.x)
    ensures !r.Num? ==> r == Missing
  {
    if amount.Missing? || rate.Missing? || rate.x == 0.0 then Missing else Num(Round2(amount.x / rate.x))
  }

  /** The three columns the valuation needs exist and some row is the dollar. */
  predicate UsdApplies(t: Table) {
    && Has(t, TickerCol) && Has(t, PriceCol) && Has(t, AmountCol)
    && exists k :: 0 <= k < |t.rows| && IsDollarRow(t.rows[k])
  }

  /** The `Actual en U$S` column (tenencias.py:571-577): present exactly when
      it already was or the valuation applies, never zero-filled; when it
      applies, every row gets its `Importe Actual` divided by the price of the
      first dollar row, and nothing else changes. */
  function AddUsd(t: Table): (r: Table)
    requires Valid(t) && NumericColumn(t, PriceCol) && NumericColumn(t, AmountCol)
    ensures Valid(r) && |r.rows| == |t.rows|
    ensures Has(r, UsdCol) <==> Has(t, UsdCol) || UsdApplies(t)
    ensures r.columns == if Has(t, UsdCol) || !UsdApplies(t) then t.columns else t.columns + [UsdCol]
    ensures !UsdApplies(t) ==> r == t
    ensures UsdApplies(t) ==>
              forall k :: IsFirstDollarRow(t.rows, k) ==> forall i :: 0 <= i < |t.rows| ==>
                r.rows[i] == t.rows[i][UsdCol := UsdCell(t.rows[i][AmountCol], t.rows[k][PriceCol])]
  {
    if !(Has(t, TickerCol) && Has(t, PriceCol) && Has(t, AmountCol)) then t
    else match FirstDollarRow(t.rows)
      case None => t
      case Some(k) =>
        var r := SetColumn(t, UsdCol, row => UsdOf(row, t.rows[k]));
        UsdRows(t, k, r);
        r
  }

  predicate IsFirstDollarRow(rows: seq<Row>, k: int) {
    0 <= k < |rows| && IsDollarRow(rows[k]) && forall j :: 0 <= j < k ==> !IsDollarRow(rows[j])
  }

  /** One row's valuation against the dollar row `dollar`. */
  function UsdOf(row: Row, dollar: Row): Cell {
    var amount, rate := Field(row, AmountCol, Missing), Field(dollar, PriceCol, Missing);
    if !amount.Str? && !rate.Str? then UsdCell(amount, rate) else Missing
  }

  lemma UsdRows(t: Table, k: nat, r: Table)
    requires Valid(t) && NumericColumn(t, PriceCol) && NumericColumn(t, AmountCol)
    requires Has(t, PriceCol) && Has(t, AmountCol)
    requires IsFirstDollarRow(t.rows, k)
    requires r == SetColumn(t, UsdCol, row => UsdOf(row, t.rows[k]))
    ensures forall k' :: IsFirstDollarRow(t.rows, k') ==> forall i :: 0 <= i < |t.rows| ==>
              r.rows[i] == t.rows[i][UsdCol := UsdCell(t.rows[i][AmountCol], t.rows[k'][PriceCol])]
  {
    assert forall k' :: IsFirstDollarRow(t.rows, k') ==> k' == k;
    forall i | 0 <= i < |t.rows|
      ensures r.rows[i] == t.rows[i][UsdCol := UsdCell(t.rows[i][AmountCol], t.rows[k][PriceCol])]
    {
      assert AmountCol in t.rows[i] && PriceCol in t.rows[k];
      assert !Field(t.rows[i], AmountCol, Missing).Str? && !Field(t.rows[k], PriceCol, Missing).Str?;
    }
  }
}
