# Holdings monitor table pipeline

This project models the table pipeline of the `InterfazSHDA` window in
`tenencias.py`. The window polls a broker's holdings table and shows it in a
monitor, and the Dafny files prove properties of that model.

On every tick, `actualizar_datos` does the following, in order:

1. It checks the guard: the window must be connected, hold a session and not be paused.
2. It fetches the raw table.
3. If some `Hora` value reads `CIERRE`, it stores the raw table as the
   end-of-day baseline (`anterior.json`).
4. It renames the vendor column codes present (`AMPL`, `TICK`, `PCIO`,
   `IMPO`, …) to display names.
5. It converts five columns to rounded numbers.
6. It maps the asset-type codes of `TIPO`, with a cash override.
7. It values each holding in dollars against the first `DOLARUSA` row.
8. It computes the daily variation against the baseline, matching rows by `Ticker`.
9. It appends a `TOTALES` row.
10. It projects the table onto a fixed list of display columns.

Any exception drops the connection. `conectar`, `desconectar`,
`pausar_actualizaciones` and `reanudar_actualizaciones` set the state flags
that the guard tests.

Files:

- `tables.dfy` (`Tables`): cells, rows and tables (a data frame as its column list
  plus one map per row), Python floats with NaN, rounding to two decimals,
  `float()` and `pd.to_numeric` on a cell.
- `normalize.dfy` (`Normalize`): the end-of-day marker, the rename, the
  numeric coercion loop, the `TIPO` classification and the dollar column.
- `variation.dfy` (`Variation`): `calcular_variaciones_diarias`. It has a
  pure specification (`DailyVariation`) and the two loops as methods proved
  against it.
- `aggregate.dfy` (`Aggregate`): the totals row and the column projection.
  The projection's candidate loop is a method.
- `monitor.dfy` (`Monitor`): the whole update as a function (`Cycle`) and the
  window as a class. The class has the fields `conectado`, `hb`,
  `actualizaciones_pausadas`, `df` and the stored baseline. Its methods follow
  the source's statements stage by stage and are proved against `Cycle`.

Foreign code is a parameter of the model:

- Text-to-number conversion (`float(text)`, `pd.to_numeric`) is a parameter
  `parse: string -> Option<Float>`.
- The broker call `hb.account(...)` is an `Option<Table>` input, where None
  means it raised.
- Opening the session is a success flag.

The baseline is saved from the raw table, whose columns still carry vendor
codes. It is read back by the display names `Ticker`, `Ultimo Precio` and
`Importe Actual`. The model keeps this behaviour. `RawBaselineNeverMatches`
and `CloseUpdateIsZero` prove what follows from it: when the vendor's ticker
column is `TICK`, every row's variation stays 0.0.

## Model

| member | source | states |
|---|---|---|
| Normalize.HasCloseMarker | tenencias.py:516-518 | the raw table has a `Hora` column and some `Hora` cell, upper-cased, is `CIERRE` |
| Normalize.CloseMarkerSpellings | tenencias.py:517 | the spellings `CIERRE`, `cierre` and `Cierre` match, `CIERRE ` with a trailing space does not, and a number or a missing value never matches |
| Normalize.RenameMap | tenencias.py:524-546 | the rename map's keys are exactly the vendor codes present, each mapped to its fixed display name |
| Normalize.RenamesPresentSpec | tenencias.py:524-546 | the fold over the code list keeps exactly the present codes, later pairs overriding earlier ones |
| Normalize.Rename | tenencias.py:549 | codes present are renamed to their names; other columns keep their names; every column keeps its position and its values; result well formed |
| Normalize.RenameInjective | tenencias.py:549 | without a name collision, two distinct columns of a row never get the same new name |
| Normalize.RenameRowFits | tenencias.py:549 | each renamed row has exactly the renamed columns |
| Normalize.CoerceColumns | tenencias.py:552-556 | the listed columns present become numbers or missing; every other cell and the column order are unchanged |
| Normalize.CoerceNumeric | tenencias.py:552-556 | the conversion loop computes `CoerceColumns` over the five numeric columns |
| Normalize.CoercedColumnsAreNumeric | tenencias.py:552-556 | after conversion no cell of a numeric column is text |
| Tables.ToNumeric | tenencias.py:556 | `to_numeric(errors='coerce').round(2)` never yields text; numbers are rounded; missing stays missing; a text becomes the rounded number it parses to, and missing when it does not parse to a finite number |
| Tables.Round2 | tenencias.py:556 | the result is a whole number of hundredths, at most half a hundredth from the input |
| Tables.ToFloat | tenencias.py:463-477 | `float(v) if v != '' else 0`: a number is itself, missing is NaN, '' is 0, any other text is what the parser gives (None where `float` raises) |
| Normalize.TipoName | tenencias.py:560-564 | code `d` ('0'..'7') becomes the `d`-th category, which is not a code; any other value is kept |
| Normalize.Classify | tenencias.py:559-568 | nothing changes without `TIPO`; with it, only `TIPO` changes, to the cash override or the mapped code |
| Normalize.ClassifyRows | tenencias.py:564-568 | a cash row ends as `Efectivo` whatever its code; a non-code value is kept; all other cells are unchanged |
| Normalize.ClassifyIdempotent | tenencias.py:559-568 | classifying twice is classifying once |
| Normalize.TipoScenario | tenencias.py:562-568 | code '4' gives `Dolar USA`; the same row marked `Cash` gives `Efectivo` |
| Normalize.FirstDollarRow | tenencias.py:573-575 | the index found is a `DOLARUSA` row with none before it; None when no row is |
| Normalize.UsdCell | tenencias.py:577 | a number exactly when amount and rate are numbers and the rate is not 0, then the rounded quotient; missing otherwise |
| Normalize.AddUsd | tenencias.py:571-577 | `Actual en U$S` is present iff it was or `Ticker`, `Ultimo Precio`, `Importe Actual` and a `DOLARUSA` row exist; it is never zero-filled; each row gets its amount divided by the first dollar row's price; nothing else changes |
| Variation.InitVariation | tenencias.py:440-442 | a non-empty frame gets both variation columns set to 0.0 in every row and keeps every other cell; an empty one is unchanged |
| Variation.InitVariationTwice | tenencias.py:440-442 | initialising twice is initialising once (the `except` reset after the initialisation changes nothing) |
| Variation.QuoteOf | tenencias.py:463-464 | the quote is both conversions of price and amount, '' and absent reading as 0; None when either raises |
| Variation.IsKey | tenencias.py:461-474 | `ticker and ticker != 'TOTALES'`: a non-empty text other than `TOTALES`, or a non-zero number |
| Variation.LookupOf | tenencias.py:458-465 | `datos_ant_dict` built over the baseline rows in order; every key is a key ticker; None when a conversion raises (keys, last-wins and failure are the next three lemmas) |
| Variation.LookupKeys | tenencias.py:457-465 | the lookup's keys are exactly the baseline's non-empty tickers other than `TOTALES` |
| Variation.LookupLastWins | tenencias.py:459-465 | a repeated ticker keeps the quote of its last baseline row |
| Variation.LookupFails | tenencias.py:459-465 | building the lookup raises exactly when a key row's price or amount does not convert |
| Variation.BuildLookup | tenencias.py:458-465 | the loop computes `LookupOf` |
| Variation.VaryRow | tenencias.py:471-490 | only the two variation cells of a row change, and only for a key ticker in the lookup; a row raises exactly when it is matched and converting its price or amount raises |
| Variation.VaryRowCells | tenencias.py:474-490 | a matched row gets the rounded amount difference and, when the previous price is not 0, the rounded percent price change; otherwise both stay 0.0 |
| Variation.VaryRows | tenencias.py:471-490 | all rows are varied in order; the result is None iff some row fails |
| Variation.DailyVariation | tenencias.py:434-504 | the columns are initialised; with no baseline, no `Ticker` column on either side, or an exception, the result is the initialised frame; otherwise every row is varied; only the two variation columns change |
| Variation.NoBaselineZero | tenencias.py:446-448 | without `anterior.json` every row's variation is 0.0 |
| Variation.UntickeredBaselineZero | tenencias.py:457 | a baseline without a `Ticker` column leaves every row at 0.0 |
| Variation.DiffRow | tenencias.py:471-490 | each row's final `% Diario` and `Resultado del dia` as a function of its ticker, its quote and the lookup |
| Variation.AaplScenario | tenencias.py:471-490 | price 100 -> 110 and amount 1000 -> 1100 give 10.0 and 100.0 |
| Variation.ResetAfterPartialDiff | tenencias.py:497-504 | after rows were partly updated, the `except` reset gives back the initialised frame |
| Variation.DiffRows | tenencias.py:471-490 | the in-place row loop computes `VaryRows`, or stops at the failing row having changed only variation cells |
| Variation.DiffOrReset | tenencias.py:471-504 | the row loop followed by the reset returns the varied rows, or the initialised frame when a row raises |
| Variation.ComputeVariation | tenencias.py:434-504 | the method computes `DailyVariation` |
| Aggregate.NonTotals | tenencias.py:584 | the rows kept are exactly those whose name is not `TOTALES` |
| Aggregate.NonTotalsAppend | tenencias.py:584 | the filter splits over a concatenation, so every row, duplicates included, is kept or dropped on its own and order is kept |
| Aggregate.NonTotalsOne | tenencias.py:584 | one row is kept exactly when it is not a totals row |
| Aggregate.Sum | tenencias.py:590-608 | the sum is None exactly when some cell is text |
| Aggregate.SumOne | tenencias.py:590-608 | the sum over one row is its number, 0 for a missing value or an absent cell, and None for text |
| Aggregate.SumAppend | tenencias.py:591 | summing splits over a concatenation; with `SumOne` this fixes every sum |
| Aggregate.SumInto | tenencias.py:590-608 | each summed column present gets its sum, the others are unchanged; None iff one sum raises |
| Aggregate.TotalsRowOf | tenencias.py:586-608 | `fila_totales` is None exactly when a summed column present holds text in a non-totals row |
| Aggregate.TotalsRowSpec | tenencias.py:586-608 | the totals row has one cell per column: `TOTALES` as its name, the sums, and blanks elsewhere, `% Diario` included |
| Aggregate.AddTotals | tenencias.py:583-611 | nothing changes without `Nombre de la Especie`; otherwise exactly one totals row is appended after the unchanged rows; None iff a summed column holds text |
| Aggregate.TotalsTwice | tenencias.py:583-611 | aggregating the output again appends a second row equal to the first totals row |
| Aggregate.Present | tenencias.py:614-619 | the columns kept are exactly the candidates that are columns |
| Aggregate.PresentOrdered | tenencias.py:614-619 | the columns kept follow the candidate order strictly |
| Aggregate.PresentDistinct | tenencias.py:614-619 | no column is kept twice |
| Aggregate.FinalColumns | tenencias.py:614-619 | the candidate loop computes `Present` |
| Aggregate.Project | tenencias.py:621-622 | with some candidate present, the columns are those candidates in order and every cell is kept; with none, the frame is unchanged |
| Aggregate.Select | tenencias.py:622 | `df[cols]`: the columns are `cols`, one row per input row, and each row keeps exactly its cells in `cols` |
| Aggregate.ProjectColumns | tenencias.py:614-622 | a column is in the output iff it is a candidate and an input column, in candidate order |
| Aggregate.ProjectTwice | tenencias.py:614-622 | projecting twice is projecting once |
| Monitor.Saved | tenencias.py:516-520 | the baseline becomes the raw, pre-rename table exactly when it carries the `CIERRE` marker; otherwise it is unchanged |
| Monitor.Prepared | tenencias.py:523-577 | the stages before the variation keep a well-formed frame and every renamed column |
| Monitor.Varied | tenencias.py:579-580 | the variation is measured after the preparation stages and against the baseline as it stands after the end-of-day check; every renamed column survives |
| Monitor.Cycle | tenencias.py:510-630 | one update keeps the frame well formed and stores the baseline given by `Saved`; a rename collision fails |
| Monitor.CycleFails | tenencias.py:583-630 | with no rename collision, an update fails exactly when a name column exists and a summed column holds text in a non-totals row |
| Monitor.CycleEndsWithTotals | tenencias.py:583-622 | a successful update with a name column adds exactly one row, named `TOTALES`, after the fetched rows, with columns in display order |
| Monitor.CycleWithoutNames | tenencias.py:583 | without a name column an update succeeds and keeps one row per fetched row |
| Monitor.RawBaselineNeverMatches | tenencias.py:457-520 | a baseline saved from a table without a `Ticker` column gives 0.0 variation in every later update |
| Monitor.CloseUpdateIsZero | tenencias.py:516-580 | when the raw table has no `Ticker` column, the update that saves the baseline measures against what it just saved, so its variation is 0.0 |
| Monitor.Prepare | tenencias.py:549-577 | the rename, conversion, classification and valuation steps compute `Prepared` |
| Monitor.Display | tenencias.py:613-622 | the projection step computes `Project` |
| Monitor.Interfaz.constructor | tenencias.py:281-284 | not connected, no session, empty frame, not paused; the baseline is what the file held, a well-formed table |
| Monitor.Interfaz.Connect | tenencias.py:393-403 | a failed session leaves the window disconnected with everything else unchanged; a session connects it and runs one update |
| Monitor.Interfaz.Disconnect | tenencias.py:405-409 | disconnected and no session; nothing else changes |
| Monitor.Interfaz.Pause | tenencias.py:411-413 | paused; nothing else changes |
| Monitor.Interfaz.Resume | tenencias.py:415-417 | not paused; nothing else changes |
| Monitor.Interfaz.SaveBaseline | tenencias.py:419-432 | the current frame becomes the baseline |
| Monitor.Interfaz.UpdateVariation | tenencias.py:434-504 | the frame becomes `DailyVariation` of itself against the stored baseline |
| Monitor.Interfaz.Update | tenencias.py:506-630 | a disconnected, sessionless or paused window does not change; a failed fetch disconnects and leaves the frame; otherwise the frame, baseline and connection become `Cycle`'s outcome; `connected ==> session` is kept |

## Left out

- Qt widgets, the LED, the table widget and dialogs, `inicializar_ui`, `main`: presentation only.
- `parsear_operaciones` and `cargar_configuracion`: a JSON wrapper and configuration file I/O.
- The broker library: opening a session is a success flag and `account` is an optional table.
- `Monitor.Interfaz.constructor`: `__init__` ends by calling `conectar` and starting the 2-second timer. The caller invokes `Connect` and each `Update` explicitly.
- The timer, `print` and traceback logging, and refreshing the table widget (tenencias.py:625).
- JSON serialisation of `anterior.json`: saving and reading back are taken as the identity. A failed write (caught and logged by the source) is not modelled.
- Binary floating point: amounts are reals, and rounding is exact to the hundredth with ties to even. Infinities are left out. A division by a zero dollar rate gives a missing value, where pandas gives an infinity or NaN.
- `Monitor.Cycle`: a rename that would create two columns with the same name (a code and its display name both present) is modelled as a failed update that leaves the raw frame, because tables here have distinct column names. pandas keeps the duplicate labels, and the source raises only when a later statement reads the repeated name as one column, such as `pd.to_numeric` at tenencias.py:556 (`PCIO`, `GTOS`, `CAN0`, `CAN3`, `IMPO`) or the `Ticker` mask at tenencias.py:573 (`TICK`, when `Ultimo Precio` and `Importe Actual` are also columns, by the guard at tenencias.py:571); it then raises from a partly processed frame.
- `Monitor.Cycle`: known divergences: for `CANT`/`Cantidad` and `CAN2`/`Sabe Dios` no statement of tenencias.py:552-625 reads the repeated name as one column, so the source completes the update, shows both same-named columns and stays connected, where the model reports a failed update. `AMPL`/`Nombre de la Especie` (the mask and assignment at tenencias.py:584-588) and `Detalle`/`Detalle de operaciones diarias` (read by the table widget at tenencias.py:138, outside this model) may behave the same way. `TICK`/`Ticker` without both `Ultimo Precio` and `Importe Actual`: the failure at tenencias.py:472 is caught at 497, so the source completes the update and stays connected.
- `Aggregate.Sum`: a summed column holding text fails the update. pandas concatenates a column made only of text instead of raising; that case is not distinguished.
- `Normalize.TipoName`: only text codes are mapped. An integer-typed code (which `astype(str)` would turn into '4') is not modelled, because cells have no integer kind.
- `Variation.IsKey`: a missing ticker (NaN or None) is treated as falsy. Python treats a NaN float as truthy, so a NaN ticker would be looked up.
- `Tables.Parser`: one parser stands for both `float(text)` (tenencias.py:463-477) and `pd.to_numeric(errors='coerce')` (tenencias.py:556). The two need not accept the same texts (`float` accepts digit underscores such as `1_000`), and no proved property depends on their agreeing.
- `Tables.Upper`: upper-casing covers ASCII letters only.
- Non-default row indexes and duplicate column labels of pandas frames.

Aggregating an already totalled frame appends a second totals row equal to
the first: the old row is left out of the sums but kept (`Aggregate.TotalsTwice`).
