/** The last two stages of an update: the totals row (tenencias.py:583-611)
    and the projection onto the display columns (tenencias.py:614-622). */
module Aggregate {
  import opened Tables
  import opened Normalize
  import opened Variation

  // ---------------------------------------------------------------------------
  // Totals row

  predicate IsTotalsRow(row: Row) {
    Field(row, NameCol, Missing) == Str(Totals)
  }

  /** `df[df['Nombre de la Especie'] != 'TOTALES']`: the rows that are not a
      totals row, in order. */
  function NonTotals(rows: seq<Row>): (r: seq<Row>)
    ensures forall row :: row in r <==> row in rows && !IsTotalsRow(row)
  {
    if rows == [] then []
    else
      var init, last := rows[..|rows| - 1], rows[|rows| - 1];
      assert rows == init + [last];
      NonTotals(init) + if IsTotalsRow(last) then [] else [last]
  }

  /** The filter splits over a concatenation: every row is kept or dropped on
      its own, in order, duplicates included. */
  lemma {:induction false} NonTotalsAppend(a: seq<Row>, b: seq<Row>)
    ensures NonTotals(a + b) == NonTotals(a) + NonTotals(b)
  {
    if b == [] {
      assert a + b == a;
    } else {
      var binit, blast := b[..|b| - 1], b[|b| - 1];
      assert (a + b)[..|a + b| - 1] == a + binit;
      assert (a + b)[|a + b| - 1] == blast;
      NonTotalsAppend(a, binit);
    }
  }

  /** A single row is kept exactly when it is not a totals row. */
  lemma NonTotalsOne(row: Row)
    ensures NonTotals([row]) == if IsTotalsRow(row) then [] else [row]
  {
    assert [row][..0] == [];
  }

  /** `rows[c].sum()`: numbers add up and missing values count as nothing;
      None where a text cell makes the addition raise. */
  function Sum(rows: seq<Row>, c: string): (r: Option<real>)
    ensures r.None? <==> exists i :: 0 <= i < |rows| && Field(rows[i], c, Missing).Str?
  {
    if rows == [] then Some(0.0)
    else
      var init, last := rows[..|rows| - 1], rows[|rows| - 1];
      assert forall i :: 0 <= i < |init| ==> init[i] == rows[i];
      match Sum(init, c)
      case None => None
      case Some(s) =>
        match Field(last, c, Missing)
        case Num(x) => Some(s + x)
        case Missing => Some(s)
        case Str(_) => None
  }

  /** Summing splits over a concatenation. */
  lemma {:induction false} SumAppend(a: seq<Row>, b: seq<Row>, c: string)
    requires Sum(a, c).Some? && Sum(b, c).Some?
    ensures Sum(a + b, c) == Some(Sum(a, c).value + Sum(b, c).value)
  {
    if b != [] {
      var binit, blast := b[..|b| - 1], b[|b| - 1];
      assert (a + b)[..|a + b| - 1] == a + binit;
      assert (a + b)[|a + b| - 1] == blast;
      SumAppend(a, binit, c);
    } else {
      assert a + b == a;
    }
  }

  /** The sum over one row: its number, nothing for a missing value or an
      absent cell, and an exception for text. With `SumAppend` this fixes the
      sum of every list of rows. */
  lemma SumOne(row: Row, c: string)
    ensures Field(row, c, Missing).Num? ==> Sum([row], c) == Some(Field(row, c, Missing).x)
    ensures Field(row, c, Missing).Missing? ==> Sum([row], c) == Some(0.0)
    ensures Field(row, c, Missing).Str? ==> Sum([row], c).None?
  {
    assert [row][..0] == [];
  }

  /** The columns the totals row sums. */
  const SummedCols := [ResultCol, AmountCol, UsdCol, DayResultCol]

  /** Sets each summed column that is a column to its sum over `kept`, one
      after another; None as soon as one sum raises. */
  function SumInto(row: Row, kept: seq<Row>, columns: seq<string>, summed: seq<string>): (r: Option<Row>)
    ensures r.None? <==> exists c :: c in summed && c in columns && Sum(kept, c).None?
    ensures r.Some? ==> forall c :: c in r.value <==> c in row || (c in summed && c in columns)
    ensures r.Some? ==> forall c :: c in summed && c in columns ==> r.value[c] == Num(Sum(kept, c).value)
    ensures r.Some? ==> forall c :: c in row && c !in summed ==> r.value[c] == row[c]
  {
    if summed == [] then Some(row)
    else
      var init, c := summed[..|summed| - 1], summed[|summed| - 1];
      assert forall x :: x in summed <==> x in init || x == c;
      match SumInto(row, kept, columns, init)
      case None => None
      case Some(acc) =>
        if c !in columns then Some(acc)
        else match Sum(kept, c)
          case None => None
          case Some(s) => Some(acc[c := Num(s)])
  }

  /** `fila_totales`: blank everywhere, `TOTALES` as its name, the summed
      columns present set to their sums over the rows that are not totals
      rows, and `% Diario` blank. */
  function TotalsRowOf(t: Table): (r: Option<Row>)
    ensures r.None? <==> exists c :: c in SummedCols && Has(t, c) && Sum(NonTotals(t.rows), c).None?
  {
    var blank := (map c | c in t.columns :: Blank)[NameCol := Str(Totals)];
    match SumInto(blank, NonTotals(t.rows), t.columns, SummedCols)
    case None => None
    case Some(row) => Some(if Has(t, PctCol) then row[PctCol := Blank] else row)
  }

  /** The totals row has one cell per column: `TOTALES` in the name column,
      the sum in each summed column present, and a blank everywhere else. */
  lemma TotalsRowSpec(t: Table)
    requires Has(t, NameCol) && TotalsRowOf(t).Some?
    ensures var total := TotalsRowOf(t).value;
            && Fits(total, t.columns)
            && total[NameCol] == Str(Totals)
            && (forall c :: c in SummedCols && Has(t, c) ==> total[c] == Num(Sum(NonTotals(t.rows), c).value))
            && (forall c :: Has(t, c) && c != NameCol && c !in SummedCols ==> total[c] == Blank)
  {
    var blank := (map c | c in t.columns :: Blank)[NameCol := Str(Totals)];
    assert forall c :: c in SummedCols ==> c != NameCol && c != PctCol;
    var row := SumInto(blank, NonTotals(t.rows), t.columns, SummedCols).value;
    assert forall c :: c in row <==> c in t.columns;
  }

  /** The totals stage: without a `Nombre de la Especie` column nothing
      changes; otherwise exactly one row is appended after the unchanged rows.
      It is named `TOTALES`, each summed column present holds the sum over the
      rows that are not totals rows, and every other column, `% Diario`
      included, is blank. None when a summed column holds text. */
  function AddTotals(t: Table): (r: Option<Table>)
    requires Valid(t)
    ensures !Has(t, NameCol) ==> r == Some(t)
    ensures Has(t, NameCol) ==>
              (r.None? <==> exists c :: c in SummedCols && Has(t, c) && Sum(NonTotals(t.rows), c).None?)
    ensures r.Some? ==> Valid(r.value) && r.value.columns == t.columns
    ensures Has(t, NameCol) && r.Some? ==>
              && |r.value.rows| == |t.rows| + 1
              && r.value.rows[..|t.rows|] == t.rows
              && var total := r.value.rows[|t.rows|];
                 && total[NameCol] == Str(Totals)
                 && (forall c :: c in SummedCols && Has(t, c) ==> total[c] == Num(Sum(NonTotals(t.rows), c).value))
                 && (forall c :: Has(t, c) && c != NameCol && c !in SummedCols ==> total[c] == Blank)
  {
    if !Has(t, NameCol) then Some(t)
    else match TotalsRowOf(t)
      case None => None
      case Some(total) =>
        var r := Table(t.columns, t.rows + [total]);
        assert r.rows[..|t.rows|] == t.rows;
        TotalsRowSpec(t);
        assert Valid(r) by {
          forall i | 0 <= i < |r.rows| ensures Fits(r.rows[i], r.columns) {
            if i < |t.rows| { assert r.rows[i] == t.rows[i]; }
          }
        }
        Some(r)
  }

  /** Aggregating the output again appends a second totals row equal to the
      first: the existing totals row is excluded from every sum. */
  lemma TotalsTwice(t: Table)
    requires Valid(t) && Has(t, NameCol) && AddTotals(t).Some?
    ensures var r1 := AddTotals(t).value;
            && AddTotals(r1).Some?
            && AddTotals(r1).value.rows == r1.rows + [r1.rows[|r1.rows| - 1]]
  {
    var r1 := AddTotals(t).value;
    var total := r1.rows[|t.rows|];
    assert r1.rows == t.rows + [total];
    assert r1.rows[..|r1.rows| - 1] == t.rows;
    assert NonTotals(r1.rows) == NonTotals(t.rows);
    assert TotalsRowOf(r1) == TotalsRowOf(t);
  }

  // ---------------------------------------------------------------------------
  // Column projection

  /** `posibles_columnas`: the display columns, in display order. */
  const Candidates := [TipoCol, NameCol, TickerCol, "Cantidad", HoraCol, PriceCol, ResultCol,
                       "Costo Promedio", "Sabe Dios", "% Var Total", AmountCol, UsdCol, PctCol,
                       DayResultCol, "Detalle de operaciones diarias"]

  lemma CandidatesDistinct()
    ensures Distinct(Candidates)
  {
  }

  /** The candidates that are columns, in candidate order. */
  function Present(cands: seq<string>, columns: seq<string>): (r: seq<string>)
    ensures forall c :: c in r <==> c in cands && c in columns
  {
    if cands == [] then []
    else
      var init, last := cands[..|cands| - 1], cands[|cands| - 1];
      assert cands == init + [last];
      Present(init, columns) + if last in columns then [last] else []
  }

  /** Position of `c` in `s`. */
  function IndexOf(s: seq<string>, c: string): (k: nat)
    requires c in s
    ensures k < |s| && s[k] == c && forall j :: 0 <= j < k ==> s[j] != c
  {
    if s[0] == c then 0 else 1 + IndexOf(s[1..], c)
  }

  /** Every element of `r` is in `cands`, and `r` follows the order of
      `cands` strictly. */
  predicate InOrder(cands: seq<string>, r: seq<string>) {
    && (forall c :: c in r ==> c in cands)
    && forall i, j :: 0 <= i < j < |r| ==> IndexOf(cands, r[i]) < IndexOf(cands, r[j])
  }

  /** The projected columns follow the candidate order strictly, so none is
      repeated and their order never depends on the input's column order. */
  lemma {:induction false} PresentOrdered(cands: seq<string>, columns: seq<string>)
    requires Distinct(cands)
    ensures InOrder(cands, Present(cands, columns))
  {
    if cands != [] {
      var init, last := cands[..|cands| - 1], cands[|cands| - 1];
      assert Distinct(init);
      PresentOrdered(init, columns);
      var p := Present(init, columns);
      var r := Present(cands, columns);
      assert InOrder(init, p);
      forall c | c in init ensures IndexOf(cands, c) == IndexOf(init, c) {
        var k := IndexOf(init, c);
        assert cands[k] == c;
        assert forall j :: 0 <= j < k ==> cands[j] == init[j];
      }
      assert IndexOf(cands, last) == |cands| - 1;
      assert r == p + if last in columns then [last] else [];
      forall i, j | 0 <= i < j < |r| ensures IndexOf(cands, r[i]) < IndexOf(cands, r[j]) {
        assert r[i] == p[i] && p[i] in init;
        var a := IndexOf(init, p[i]);
        assert IndexOf(cands, r[i]) == a;
        if j < |p| {
          assert r[j] == p[j] && p[j] in init;
          assert IndexOf(cands, r[j]) == IndexOf(init, p[j]);
          assert a < IndexOf(init, p[j]);
        } else {
          assert r[j] == last;
          assert a < |init|;
        }
      }
    }
  }

  /** The candidates present are distinct. */
  lemma PresentDistinct(columns: seq<string>)
    ensures Distinct(Present(Candidates, columns))
  {
    var cols := Present(Candidates, columns);
    CandidatesDistinct();
    PresentOrdered(Candidates, columns);
    forall i, j | 0 <= i < j < |cols| ensures cols[i] != cols[j] {
      assert IndexOf(Candidates, cols[i]) < IndexOf(Candidates, cols[j]);
    }
  }

  /** The loop that builds `columnas_finales` (tenencias.py:614-619). */
  method FinalColumns(columns: seq<string>) returns (finals: seq<string>)
    ensures finals == Present(Candidates, columns)
  {
    finals := [];
    for k := 0 to |Candidates|
      invariant finals == Present(Candidates[..k], columns)
    {
      assert Candidates[..k + 1][..k] == Candidates[..k];
      if Candidates[k] in columns {
        finals := finals + [Candidates[k]];
      }
    }
    assert Candidates[..|Candidates|] == Candidates;
  }

  /** `df[columnas_finales]` when at least one candidate is present; otherwise
      the table is left as it is. */
  function Project(t: Table): (r: Table)
    requires Valid(t)
    ensures Valid(r) && |r.rows| == |t.rows|
    ensures Present(Candidates, t.columns) == [] ==> r == t
    ensures Present(Candidates, t.columns) != [] ==>
              && r.columns == Present(Candidates, t.columns)
              && forall i, c :: 0 <= i < |t.rows| && c in r.columns ==> c in r.rows[i] && r.rows[i][c] == t.rows[i][c]
  {
    var cols := Present(Candidates, t.columns);
    if cols == [] then t
    else
      PresentDistinct(t.columns);
      Select(t, cols)
  }

  /** `df[cols]`: the columns `cols`, in that order, of every row. */
  function Select(t: Table, cols: seq<string>): (r: Table)
    ensures r.columns == cols && |r.rows| == |t.rows|
    ensures forall i, c :: 0 <= i < |t.rows| ==> (c in r.rows[i] <==> c in cols && c in t.rows[i])
    ensures forall i, c :: 0 <= i < |t.rows| && c in r.rows[i] ==> c in t.rows[i] && r.rows[i][c] == t.rows[i][c]
  {
    Table(cols, seq(|t.rows|, i requires 0 <= i < |t.rows| => map c | c in cols && c in t.rows[i] :: t.rows[i][c]))
  }

  /** The output columns are exactly the candidates present in the input, in
      candidate order; every other column is dropped. */
  lemma ProjectColumns(t: Table)
    requires Valid(t) && Present(Candidates, t.columns) != []
    ensures forall c :: Has(Project(t), c) <==> c in Candidates && Has(t, c)
    ensures InOrder(Candidates, Project(t).columns)
  {
    CandidatesDistinct();
    PresentOrdered(Candidates, t.columns);
  }

  /** Projecting twice is projecting once. */
  lemma ProjectTwice(t: Table)
    requires Valid(t)
    ensures Project(Project(t)) == Project(t)
  {
    var r := Project(t);
    var cols := Present(Candidates, t.columns);
    if cols != [] {
      assert r.columns == cols;
      PresentSameMembers(Candidates, r.columns, t.columns);
      assert Present(Candidates, r.columns) == cols;
      var r2 := Project(r);
      assert r2.columns == r.columns;
      forall i | 0 <= i < |r.rows| ensures r2.rows[i] == r.rows[i] {
        assert Fits(r.rows[i], r.columns);
      }
      assert r2.rows == r.rows;
    }
  }

  /** `Present` depends only on which candidates are columns. */
  lemma {:induction false} PresentSameMembers(cands: seq<string>, a: seq<string>, b: seq<string>)
    requires forall c :: c in cands ==> (c in a <==> c in b)
    ensures Present(cands, a) == Present(cands, b)
  {
    if cands != [] {
      PresentSameMembers(cands[..|cands| - 1], a, b);
    }
  }
}
