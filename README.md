# Kinetic plate-reader slopes, modelled in Dafny

`spec_dashboard` reads a plate reader's kinetic export and finds, for one well, the stretch
of readings where the absorbance changes fastest. Its core is in `modules/spec.py` and has
two parts:

- `parse_xml` builds one flat table from the export. It makes one row per read of each
  well, holding the read, the well's name and id, the read's time and the temperature at
  that index. One temperature series is shared by every well, and the wells appear in
  document order.
- `get_best_slope`:
  1. keeps the rows of one well inside an inclusive time window;
  2. cuts them into consecutive chunks of `span` rows and stops at the first short chunk;
  3. fits a least-squares line of reads against time to each full chunk;
  4. reports the chunk with the steepest slope in milli-absorbance per minute.

The project has four modules:

- `Wrappers` (`wrappers.dfy`): `Option` and `Result`.
- `KineticTable` (`kinetic_table.dfy`): the export after lexing and the table built from it.
  - `Parse` is the specification function.
  - `ParseXml` is the well-by-well loop. It is proved equal to `Parse`.
  - The lemmas give the row count, where each row comes from, the shared temperature and
    every error case.
- `Regression` (`regression.dfy`): ordinary least squares over exact reals (slope,
  intercept, R²). It proves:
  - the fitted line minimises the residual sum of squares;
  - R² lies in [0, 1];
  - data lying exactly on a line gives back that line.
- `SlopeSelector` (`slope_selector.dfy`): the window filter, the chunking, the per-chunk
  fit, the selection, and the method `GetBestSlope`.
  - `GetBestSlope` has the same loop and early exit as the source.
  - It is proved equal to `Best(FittedChunks(Window(...), span))`.
  - The lemmas about that expression state the chunk count, the discarded remainder, the
    empty result, steepness, and the window bounds of the selected interval.

Inputs and modelling choices:

- The parser's input is the lexed document, `ExportDoc`. A missing attribute or child
  element is `None`. The tokens are already numbers.
- Errors are reported in the order the source meets them:
  1. the temperature series is missing;
  2. then, well by well: the `name` attribute, the `wellid` attribute, the `rawdata`
     element, the `timedata` element, a time column whose length differs from the reads,
     and a temperature series whose length differs from the reads;
  3. finally, no wells at all, since concatenating no frames raises.

  The one exception is a well with an empty `rawdata`, a non-empty `timedata` and a
  temperature series of a different length. The code fails on the temperature column
  (line 46), and the model's error names the time column (see `KineticTable.WellFrame`
  under "## Left out").
- The query in line 61 mixes `&` and `and`. In a pandas query both are the boolean
  conjunction, so a row is kept when `start <= time_s <= end` and the well name matches.
- `range(0, n, span)` raises for a span of 0 and is empty for a negative span. So
  `GetBestSlope` returns `Err(ZeroSpan)` for 0 and no row for a negative span.

Three behaviours of the code and how the model treats them:

- Ties are not broken by a stable sort: `sort_values` uses pandas' default sort kind, which
  is not stable. `Best` picks the earliest steepest chunk as a modelling decision.
  `SortedHeadIsBest` shows that whatever row a descending sort puts first is exactly as
  steep as the chosen one.
- The wells' rows come in document order, one block per well. The model keeps this order.
- A temperature series whose length differs from a well's reads is rejected, and the model
  rejects it too.

## Model

| member | source | states |
|---|---|---|
| KineticTable.Parse | modules/spec.py:19-54 | the specification of `parse_xml`: a missing temperature series is the first error, then the first failing well's error, then `NoWells` for an export without wells; otherwise the wells' frames concatenated. `ParseXml` is proved equal to it, and `ParseOkIff`, `LengthMismatchFails`, `ParseRowCount`, `ParseRowAt` and `SharedTemperature` state its behaviour |
| KineticTable.ParseXml | modules/spec.py:19-54 | the loop that builds one frame per well and concatenates them returns exactly `Parse(doc)`: the same table, or the same first error |
| KineticTable.WellFrame | modules/spec.py:37-46 | a well's frame is built iff the well has both attributes and both child elements and its time column and the shared temperatures have one value per read; the frame then has one row per read |
| KineticTable.Frames | modules/spec.py:35-51 | the well loop followed by `pd.concat`: the frames of all wells in document order, or the error of the first well whose frame cannot be built. `FramesStopAt`, `FramesOkIff`, `FramesFirstError`, `FramesCount`, `FramesRowAt` and `FramesRowOrigin` state its behaviour |
| KineticTable.FramesStopAt | modules/spec.py:35-46 | when every earlier well built its frame, the first well that fails decides the result; later wells play no part |
| KineticTable.FramesOkIff | modules/spec.py:35-46 | building all frames succeeds iff every well is complete |
| KineticTable.FramesFirstError | modules/spec.py:35-46 | a failure is the error of some well j whose predecessors are all complete |
| KineticTable.FramesCount | modules/spec.py:42-51 | the concatenated frames hold exactly the sum over wells of their read counts |
| KineticTable.OffsetMonotone | modules/spec.py:51 | the blocks of rows of different wells follow one another without overlapping, in well order |
| KineticTable.FramesRowAt | modules/spec.py:37-51 | row `Offset(j) + i` is the i-th read of well j, with that well's name and id, its i-th time and the i-th temperature |
| KineticTable.FramesRowOrigin | modules/spec.py:51 | every row lies in the block of exactly one well: some well's block holds it, and any well whose block holds it is that well |
| KineticTable.ParseOkIff | modules/spec.py:30-51 | parsing succeeds iff the temperature series is present, there is at least one well and every well is complete |
| KineticTable.LengthMismatchFails | modules/spec.py:45-46 | a well whose time column or shared temperature series differs in length from its reads makes the whole parse fail |
| KineticTable.ParseRowCount | modules/spec.py:35-51 | a parsed table has exactly the total number of reads of all wells |
| KineticTable.ParseRowAt | modules/spec.py:37-46 | each row of a parsed table carries its well's name and id unchanged, and the read, time and temperature at that well's index |
| KineticTable.SharedTemperature | modules/spec.py:46 | reads of different wells at the same index carry the same temperature |
| Regression.Slope | modules/spec.py:74-77 | the slope `coef_` of the least-squares fit: the centred cross sum over the centred square sum of x, and 0 when x does not vary. `FitIsLeastSquares`, `FitOnLine` and `DistinctValuesSpread` state its behaviour |
| Regression.Intercept | modules/spec.py:74-79 | the intercept `intercept_`: the line with the fitted slope through the point of means. `FitIsLeastSquares` and `FitOnLine` state its behaviour |
| Regression.RSquared | modules/spec.py:78 | `score`, the coefficient of determination 1 - SS_res / SS_tot of the fitted line, undetermined when y does not vary. `FitR2InUnitInterval` and `FitOnLine` state its behaviour |
| Regression.Fit | modules/spec.py:74-79 | `lr.fit` followed by reading `coef_`, `intercept_` and `score`: slope, intercept and R² of one set of points. `FitIsLeastSquares`, `FitR2InUnitInterval` and `FitOnLine` state its behaviour |
| Regression.FitIsLeastSquares | modules/spec.py:72-74 | no line has a smaller residual sum of squares than the fitted slope and intercept |
| Regression.FitR2InUnitInterval | modules/spec.py:78 | a defined R² lies between 0 and 1 |
| Regression.FitOnLine | modules/spec.py:72-79 | points exactly on `y = a·x + b0` with spread-out x give slope a, intercept b0, and R² 1 unless the line is flat |
| Regression.DistinctValuesSpread | modules/spec.py:72-74 | two different x values give a non-zero spread about the mean, so the slope is determined |
| SlopeSelector.GetBestSlope | modules/spec.py:57-88 | span 0 is the only error; a negative span selects nothing; otherwise the loop with its early break returns the steepest of the fits of the full chunks of the window, `Best(FittedChunks(Window(...), span))` |
| SlopeSelector.Window | modules/spec.py:61 | a row is in the window iff it is in the table, belongs to the well and has `start <= time_s <= end` |
| SlopeSelector.WindowConcat | modules/spec.py:61 | filtering keeps table order: the window of a concatenation is the concatenation of the windows |
| SlopeSelector.Chunks | modules/spec.py:62 | the comprehension over `range(0, n, span)`: consecutive slices of span rows from row 0, the last one possibly shorter. `ChunkCount` and `ChunkAt` give their number and position |
| SlopeSelector.ChunkCount | modules/spec.py:62 | n rows give ceil(n / span) chunks |
| SlopeSelector.ChunkAt | modules/spec.py:62 | chunk k starts at row k·span and runs to row k·span + span or to the end of the rows |
| SlopeSelector.FittedChunks | modules/spec.py:62-70 | as many chunks are fitted as span fits into the window's row count (integer division) |
| SlopeSelector.RemainderNeverFitted | modules/spec.py:62-70 | the rows left over after the last whole span (the row count modulo span) are never fitted: dropping them leaves the fits unchanged |
| SlopeSelector.NoneIffShortWindow | modules/spec.py:69-70 | nothing is selected iff the window holds fewer than span rows; it is an empty result, not an error |
| SlopeSelector.Best | modules/spec.py:84-88 | at most one row is selected; none iff there are no fits; the selected row is one of the fits and no fit is steeper in absolute value |
| SlopeSelector.BestIsEarliest | modules/spec.py:85-88 | among equally steep fits the earliest is selected: every earlier fit is strictly less steep |
| SlopeSelector.SortedHeadIsBest | modules/spec.py:84-88 | the head of any ordering of the fits by descending absolute slope is one of the fits and exactly as steep as the selected one |
| SlopeSelector.KnownSlopesExample | modules/spec.py:84-88 | of fits with slopes 1, -5 and 3, the one with slope -5 is selected |
| SlopeSelector.SelectedIsSteepest | modules/spec.py:69-88 | the selected row is the fit of one full chunk of the window, and it is at least as steep as the fit of every full chunk |
| SlopeSelector.SelectedInWindow | modules/spec.py:61-81 | the selected interval starts and ends inside the requested time window |
| SlopeSelector.ChunkFit | modules/spec.py:72-81 | the record of one chunk: first and last time, the fitted slope converted to mAbs/min, R² and the unconverted intercept. `ChunkFitEnds`, `ChunkFitLeastSquares`, `ChunkFitR2InUnitInterval`, `ChunkFitOnLine` and `UnitConversionExample` state its behaviour |
| SlopeSelector.ChunkFitLeastSquares | modules/spec.py:72-79 | a chunk's reported slope, converted back to absorbance per second, and its intercept form a least-squares line of reads against time |
| SlopeSelector.ChunkFitR2InUnitInterval | modules/spec.py:78 | a chunk's defined R² lies between 0 and 1 |
| SlopeSelector.ChunkFitOnLine | modules/spec.py:72-81 | reads exactly on `a·t + b0` over two distinct times give slope a·60·1000, intercept b0 unconverted, and R² 1 unless flat |
| SlopeSelector.UnitConversionExample | modules/spec.py:77 | a rise of 0.001 absorbance per second is reported as 60 mAbs/min |

## Left out

- XML lexing (`BeautifulSoup`, `find`, `find_all`, attribute access, `.text.split()`, lines
  23, 30, 33 and 39-40) is a foreign library. The model starts from the lexed document.
- Numeric coercion with `pd.to_numeric(errors='ignore')` (line 52) is pandas' float
  parsing. Tokens are modelled as exact reals, and the well id stays a string.
- Floating point and the internals of sklearn's `LinearRegression` are out of scope. The fit
  is exact ordinary least squares over `real`.
- `Regression.Slope`: when all times in a chunk are equal, the slope is 0 and the intercept
  is the mean read. This is the minimum-norm solution a least-squares solver returns; sklearn
  itself is not modelled.
- `Regression.RSquared`: the R² of a chunk whose reads are all equal depends on the library
  version. It is left undetermined (`None`).
- `SlopeSelector.Best`: on equal absolute slopes the source's unstable sort may put any of
  the steepest chunks first. The model picks the earliest as a modelling decision, and
  `SortedHeadIsBest` relates the two.
- `KineticTable.WellFrame`: pandas lets the first list with elements that is assigned to an
  empty frame set the frame's length, and fills the columns assigned earlier with missing
  values. The model does not follow this rule. It reports a length mismatch in two cases
  where the code raises no exception:
  - an empty `rawdata` with a non-empty `timedata` that is as long as the temperature
    series. Line 45 grows the frame to one row per time, and line 46 then fits;
  - an empty `rawdata` and an empty `timedata` with a non-empty temperature series. Here
    line 46 grows the frame to one row per temperature, with missing reads, times, names and
    ids.

  When `rawdata` is empty and `timedata` is non-empty but differs in length from the
  temperature series, line 46 raises and the model also fails. The model's error names
  `time_s`, though, where the code fails on `temp`.
- `KineticTable.ParseOkIff` is stated over `WellComplete`, so it inherits both cases: it
  reports an export holding such a well as failing, where the code returns a table.
- `KineticTable.FramesOkIff` is stated over `WellComplete`, so it inherits both cases: it
  counts such a well as a failure, where the code builds its frame.
- `KineticTable.LengthMismatchFails` inherits both cases: it claims that the parse fails for
  such a well, where pandas accepts it.
- The output row has no well column. `main.py` adds it, and `main.py` is not part of this
  model: the web UI, file upload and decoding, charts, table formatting and the driver loop.
- `parse_txt` (lines 91-93) is an empty stub with no behaviour.
- The regression object reused across chunks (line 64) keeps no state that affects a later
  fit. Each chunk is fitted by a pure function.
