/** One update of the holdings monitor (tenencias.py:506-630) and the window
    state that decides whether an update runs (tenencias.py:281-284, 393-417). */
module Monitor {
  import opened Tables
  import opened Normalize
  import opened Variation
  import opened Aggregate

  // ---------------------------------------------------------------------------
  // The update as a function of the fetched table

  /** What one update leaves behind: the displayed frame, the stored baseline,
      and whether the connection survived (false when the update raised). */
  datatype Outcome = Outcome(df: Table, baseline: Option<Table>, ok: bool)

  /** The baseline after the end-of-day check: the raw table as fetched,
      before any renaming, when it carries the `CIERRE` marker; otherwise the
      one stored before. */
  function Saved(raw: Table, baseline: Option<Table>): (b: Option<Table>)
    ensures HasCloseMarker(raw) ==> b == Some(raw)
    ensures !HasCloseMarker(raw) ==> b == baseline
  {
    if HasCloseMarker(raw) then Some(raw) else baseline
  }

  /** Classification only writes `TIPO`, so any other numeric column stays numeric. */
  lemma ClassifyKeepsNumeric(t: Table, c: string)
    requires Valid(t) && NumericColumn(t, c) && c != TipoCol
    ensures NumericColumn(Classify(t), c)
  {
    var r := Classify(t);
    if Has(t, TipoCol) {
      forall i | 0 <= i < |r.rows| ensures !Field(r.rows[i], c, Missing).Str? {
        assert r.rows[i] == t.rows[i][TipoCol := ClassifiedTipo(t.rows[i], Has(t, EspeCol))];
      }
    }
  }

  /** The stages before the daily variation: rename, numeric conversion, asset
      classification and the dollar valuation. */
  function Prepared(raw: Table, parse: Parser): (r: Table)
    requires Valid(raw) && !RenameCollides(raw)
    ensures Valid(r)
    ensures forall c :: Has(Rename(raw), c) ==> Has(r, c)
  {
    var coerced := CoerceColumns(Rename(raw), NumericCols, parse);
    CoercedColumnsAreNumeric(Rename(raw), parse, PriceCol);
    CoercedColumnsAreNumeric(Rename(raw), parse, AmountCol);
    ClassifyKeepsNumeric(coerced, PriceCol);
    ClassifyKeepsNumeric(coerced, AmountCol);
    AddUsd(Classify(coerced))
  }

  /** The frame after the daily variation, measured against the baseline as it
      stands after this update's end-of-day check. */
  function Varied(raw: Table, baseline: Option<Table>, parse: Parser): (r: Table)
    requires Valid(raw) && !RenameCollides(raw)
    ensures Valid(r)
    ensures forall c :: Has(Rename(raw), c) ==> Has(r, c)
  {
    var t := Prepared(raw, parse);
    var r := DailyVariation(t, Saved(raw, baseline), parse);
    assert forall c :: Has(t, c) ==> Has(InitVariation(t), c);
    r
  }

  /** One run of `actualizar_datos` on a fetched table `raw`. A rename that
      would give two columns the same name, or a summed column holding text,
      makes it raise: the frame is left at the stage reached and the
      connection is dropped. Otherwise the totals row is added and the frame
      is projected onto the display columns. */
  function Cycle(raw: Table, baseline: Option<Table>, parse: Parser): (r: Outcome)
    requires Valid(raw)
    ensures Valid(r.df)
    ensures r.baseline == Saved(raw, baseline)
    ensures RenameCollides(raw) ==> !r.ok && r.df == raw
  {
    var saved := Saved(raw, baseline);
    if RenameCollides(raw) then Outcome(raw, saved, false)
    else
      var t := Varied(raw, baseline, parse);
      match AddTotals(t)
      case None => Outcome(t, saved, false)
      case Some(totalled) => Outcome(Project(totalled), saved, true)
  }

  /** The renaming, conversion, classification and valuation steps of an
      update, run in order (tenencias.py:523-577). */
  method Prepare(raw: Table, parse: Parser) returns (t: Table)
    requires Valid(raw) && !RenameCollides(raw)
    ensures t == Prepared(raw, parse)
  {
    t := Rename(raw);
    t := CoerceNumeric(t, parse);
    CoercedColumnsAreNumeric(Rename(raw), parse, PriceCol);
    CoercedColumnsAreNumeric(Rename(raw), parse, AmountCol);
    ClassifyKeepsNumeric(t, PriceCol);
    ClassifyKeepsNumeric(t, AmountCol);
    t := Classify(t);
    t := AddUsd(t);
  }

  /** The final projection step: the display columns are collected by a loop
      and selected when there are any (tenencias.py:613-622). */
  method Display(t: Table) returns (r: Table)
    requires Valid(t)
    ensures r == Project(t)
  {
    var finals := FinalColumns(t.columns);
    r := t;
    if finals != [] {
      PresentDistinct(t.columns);
      r := Select(t, finals);
    }
  }

  // ---------------------------------------------------------------------------
  // Properties of one update

  /** The update fails exactly when the rename collides or, with a
      `Nombre de la Especie` column, some summed column holds text in a row
      that is not a totals row. */
  lemma CycleFails(raw: Table, baseline: Option<Table>, parse: Parser)
    requires Valid(raw) && !RenameCollides(raw)
    ensures var t := Varied(raw, baseline, parse);
            !Cycle(raw, baseline, parse).ok <==>
              Has(t, NameCol) && exists c :: c in SummedCols && Has(t, c) && Sum(NonTotals(t.rows), c).None?
  {
  }

  /** A successful update with a `Nombre de la Especie` column ends with
      exactly one added row, the `TOTALES` row, after the fetched rows, and
      its columns follow the display order. */
  lemma CycleEndsWithTotals(raw: Table, baseline: Option<Table>, parse: Parser)
    requires Valid(raw) && !RenameCollides(raw) && Has(Rename(raw), NameCol)
    requires Cycle(raw, baseline, parse).ok
    ensures var df := Cycle(raw, baseline, parse).df;
            && |df.rows| == |raw.rows| + 1
            && NameCol in df.rows[|raw.rows|] && df.rows[|raw.rows|][NameCol] == Str(Totals)
            && InOrder(Candidates, df.columns)
  {
    var t := Varied(raw, baseline, parse);
    assert Has(t, NameCol);
    var totalled := AddTotals(t).value;
    assert |t.rows| == |raw.rows|;
    assert Has(totalled, NameCol);
    assert NameCol in Present(Candidates, totalled.columns);
    ProjectColumns(totalled);
  }

  /** Without a `Nombre de la Especie` column no totals row is added: a
      successful update keeps one row per fetched row. */
  lemma CycleWithoutNames(raw: Table, baseline: Option<Table>, parse: Parser)
    requires Valid(raw) && !RenameCollides(raw) && !Has(Varied(raw, baseline, parse), NameCol)
    ensures Cycle(raw, baseline, parse).ok
    ensures |Cycle(raw, baseline, parse).df.rows| == |raw.rows|
  {
  }

  /** The end-of-day save stores the raw vendor-coded table. When the vendor
      calls its ticker column `TICK`, that baseline has no `Ticker` column, so
      every later update measured against it, and the saving update itself,
      gets 0.0 in both variation columns. */
  lemma RawBaselineNeverMatches(raw: Table, prev: Table, baseline: Option<Table>, parse: Parser)
    requires Valid(raw) && !RenameCollides(raw) && !Has(prev, TickerCol)
    requires Saved(raw, baseline) == Some(prev)
    ensures Varied(raw, baseline, parse) == InitVariation(Prepared(raw, parse))
  {
    UntickeredBaselineZero(Prepared(raw, parse), prev, parse);
  }

  /** In particular the update that saves the baseline measures against the
      table it has just saved. */
  lemma CloseUpdateIsZero(raw: Table, baseline: Option<Table>, parse: Parser)
    requires Valid(raw) && !RenameCollides(raw) && HasCloseMarker(raw) && !Has(raw, TickerCol)
    ensures Varied(raw, baseline, parse) == InitVariation(Prepared(raw, parse))
  {
    RawBaselineNeverMatches(raw, raw, baseline, parse);
  }

  // ---------------------------------------------------------------------------
  // The window's state

  /** The monitor window `InterfazSHDA`: `connected` is `conectado`,
      `session` says whether `hb` holds a broker session, `paused` is
      `actualizaciones_pausadas`, `df` is the displayed frame and `baseline`
      is what `anterior.json` holds (None when the file does not exist). The
      broker session itself is opaque: only its presence is kept. */
  class Interfaz {
    var connected: bool
    var session: bool
    var paused: bool
    var df: Table
    var baseline: Option<Table>

    /** Connected implies a session, and the frame is well formed. */
    ghost predicate Inv()
      reads this
    {
      (connected ==> session) && Valid(df) && (baseline.Some? ==> Valid(baseline.value))
    }

    /** The state `__init__` sets up before it first connects: no session,
        not connected, an empty frame, updates running; `stored` is what
        `anterior.json` already holds. */
    constructor(stored: Option<Table>)
      requires stored.Some? ==> Valid(stored.value)
      ensures Inv()
      ensures !connected && !session && !paused && df == Table([], []) && baseline == stored
    {
      connected := false;
      session := false;
      paused := false;
      df := Table([], []);
      baseline := stored;
    }

    /** `desconectar`: drops the connection and the session. */
    method Disconnect()
      requires Inv()
      modifies this
      ensures Inv()
      ensures !connected && !session
      ensures paused == old(paused) && df == old(df) && baseline == old(baseline)
    {
      connected := false;
      session := false;
    }

    /** `pausar_actualizaciones` */
    method Pause()
      requires Inv()
      modifies this
      ensures Inv()
      ensures paused
      ensures connected == old(connected) && session == old(session) && df == old(df) && baseline == old(baseline)
    {
      paused := true;
    }

    /** `reanudar_actualizaciones` */
    method Resume()
      requires Inv()
      modifies this
      ensures Inv()
      ensures !paused
      ensures connected == old(connected) && session == old(session) && df == old(df) && baseline == old(baseline)
    {
      paused := false;
    }

    /** `guardar_datos_anteriores`: the current frame becomes the baseline. */
    method SaveBaseline()
      modifies this
      ensures baseline == Some(old(df))
      ensures connected == old(connected) && session == old(session) && paused == old(paused) && df == old(df)
    {
      baseline := Some(df);
    }

    /** `calcular_variaciones_diarias` on the current frame and baseline. */
    method UpdateVariation(parse: Parser)
      requires Valid(df)
      modifies this
      ensures df == DailyVariation(old(df), baseline, parse)
      ensures connected == old(connected) && session == old(session) && paused == old(paused)
      ensures baseline == old(baseline)
    {
      df := ComputeVariation(df, baseline, parse);
    }

    /** `actualizar_datos`. Nothing happens while disconnected, without a
        session or paused. `feed` is what the broker's `account` call returns,
        None where it raises; then the connection is dropped and the frame is
        left as it was. Otherwise the state becomes the outcome of `Cycle`. */
    method Update(feed: Option<Table>, parse: Parser)
      requires Inv() && (feed.Some? ==> Valid(feed.value))
      modifies this
      ensures Inv()
      ensures session == old(session) && paused == old(paused)
      ensures !old(connected) || old(paused) ==>
                connected == old(connected) && df == old(df) && baseline == old(baseline)
      ensures old(connected) && !old(paused) && feed.None? ==>
                !connected && df == old(df) && baseline == old(baseline)
      ensures old(connected) && !old(paused) && feed.Some? ==>
                var o := Cycle(feed.value, old(baseline), parse);
                connected == o.ok && df == o.df && baseline == o.baseline
    {
      if !connected || !session || paused {
        return;
      }
      if feed.None? {
        connected := false;
        return;
      }
      var raw := feed.value;
      df := raw;
      if HasCloseMarker(df) {
        SaveBaseline();
      }
      if RenameCollides(df) {
        connected := false;
        return;
      }
      df := Prepare(df, parse);
      UpdateVariation(parse);
      assert df == Varied(raw, old(baseline), parse);
      var totalled := AddTotals(df);
      if totalled.None? {
        connected := false;
        return;
      }
      df := totalled.value;
      df := Display(df);
    }

    /** `conectar`. `sessionOk` says whether opening the broker session
        succeeds; when it does, the window connects and runs one update. */
    method Connect(sessionOk: bool, feed: Option<Table>, parse: Parser)
      requires Inv() && (feed.Some? ==> Valid(feed.value))
      modifies this
      ensures Inv()
      ensures paused == old(paused)
      ensures !sessionOk ==>
                !connected && session == old(session) && df == old(df) && baseline == old(baseline)
      ensures sessionOk ==> session
      ensures sessionOk && old(paused) ==> connected && df == old(df) && baseline == old(baseline)
      ensures sessionOk && !old(paused) && feed.None? ==>
                !connected && df == old(df) && baseline == old(baseline)
      ensures sessionOk && !old(paused) && feed.Some? ==>
                var o := Cycle(feed.value, old(baseline), parse);
                connected == o.ok && df == o.df && baseline == o.baseline
    {
      if !sessionOk {
        connected := false;
        return;
      }
      session := true;
      connected := true;
      Update(feed, parse);
    }
  }

}
