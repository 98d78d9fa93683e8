# Forecast post-processing model

This project models the post-processing in a small forecasting dashboard.
A forecasting model has already been fitted to the observed revenue series
`df` (columns `ds`, `y`). It has produced the prediction frame `forecast`,
one row per in-sample date plus one row per horizon day, with columns `ds`,
`yhat`, `yhat_lower`, `yhat_upper` and the model's component columns. The
dashboard then does three things with that frame:

1. It splits it at the latest observed date `df['ds'].max()`. Rows dated on
   or before that date form the `historical` segment. Rows dated after it
   form the `future_forecast` segment.
2. It builds the shaded confidence band from the future segment. The x data
   is the future dates followed by the same dates reversed. The y data is the
   upper bounds followed by the lower bounds reversed.
3. It builds the forecast table and the CSV download. Both keep the four
   forecast columns of the last `forecast_days` rows. The table also renames
   the columns to `Date`, `Predicted Revenue`, `Lower Bound`, `Upper Bound`.

Dates are integer day ordinals. Revenue values are a type parameter `V`,
because nothing here computes with them. The modules are:

- `ForecastRows` (`forecast_rows.dfy`): the observed and predicted rows, the
  latest observed date, and the column lists.
- `Selection` (`selection.dfy`): selection of rows by a boolean mask, as
  `frame[mask]` does it. It has a reference description: the ascending
  positions where the mask is true.
- `SegmentSplit` (`segments.dfy`): the historical/future split.
- `ConfidenceBand` (`confidence_band.dfy`): the band envelope.
- `ForecastTable` (`forecast_table.dfy`): `tail`, the column projection, the
  rename, and how the tail relates to the future segment.

Three behaviours of the code worth stating explicitly:

- The CSV is written from the frame before the rename (POC.py:114). Its
  header is therefore `ds,yhat,yhat_lower,yhat_upper`, not the renamed labels.
  `ForecastTable.ExportColumns` is that header.
- `tail(forecast_days)` never fails. It keeps the last
  `min(forecast_days, len(forecast))` rows. There is no error for a limit of zero
  or a limit larger than the frame.
- The split does not require the frame to be sorted. The statement that the
  historical rows followed by the future rows give back the frame is proved
  only for frames in ascending date order (`SplitOfSortedReassembles`).

## Model

| member | source | states |
|---|---|---|
| ForecastRows.LatestObserved | POC.py:57-58 | the boundary is an observed date, and no observed date is later |
| Selection.Select | POC.py:57-58 | mask selection keeps at most as many rows as it was given, and every kept row satisfies the mask |
| Selection.TruePositions | POC.py:57-58 | the mask's true positions are in range and ascending; a position is listed exactly when the mask holds there |
| Selection.SelectIsGather | POC.py:57-58 | mask selection equals the rows at the mask's true positions, in ascending order |
| Selection.SelectAppend | POC.py:57-58 | selecting from a concatenation selects from each part and concatenates the results |
| Selection.SelectAll | POC.py:57-58 | a mask true on every row keeps the frame unchanged |
| Selection.SelectNone | POC.py:57-58 | a mask false on every row keeps nothing |
| Selection.SelectComplementLengths | POC.py:57-58 | a mask and its negation select row counts that add up to the frame's length |
| Selection.SelectComplementMultiset | POC.py:57-58 | a mask and its negation split the frame's rows as a multiset |
| Selection.SelectMembership | POC.py:57-58 | a row is selected if and only if it is in the frame and the mask holds of it |
| Selection.PositionsPartition | POC.py:57-58 | each position is a true position of exactly one of a mask and its negation |
| Selection.SelectPrefixSplit | POC.py:57-58 | if the mask holds on a prefix and fails after it, selected rows followed by rejected rows give back the frame |
| SegmentSplit.HistoricalIsMaskSelection | POC.py:57 | `Historical`, as `Split(..).historical`: is exactly the rows at the ascending positions with `ds <= max(df.ds)`, in their original order |
| SegmentSplit.FutureIsMaskSelection | POC.py:58 | `FutureForecast`, as `Split(..).future`: is exactly the rows at the ascending positions with `ds > max(df.ds)`, in their original order |
| SegmentSplit.SplitIsPartition | POC.py:57-58 | `Split`: the segment lengths add up to the frame's length; the multisets add up to the frame's; each position is in exactly one segment; every row is in some segment and none is in both |
| SegmentSplit.SplitRespectsBoundary | POC.py:57-58 | every historical row is dated no later than some observation; every future row is dated after every observation |
| SegmentSplit.SplitOfSortedReassembles | POC.py:57-58 | for a frame in ascending date order, `historical ++ future_forecast` is the frame |
| ConfidenceBand.Reversed | POC.py:80-81 | `[::-1]` keeps the length and puts element `len(s)-1-k` at position `k` |
| ConfidenceBand.EnvelopeTrace | POC.py:80-81 | `EnvelopeOf`: x and y have length `2n`; `x[i]` and `x[2n-1-i]` are the i-th future date; `y[i]` is its upper bound and `y[2n-1-i]` its lower bound |
| ConfidenceBand.EnvelopeCloses | POC.py:80-81 | for a non-empty future, `x[n-1] == x[n]` and `x[2n-1] == x[0]` |
| ConfidenceBand.ReversedTwice | POC.py:80-81 | reversing twice gives back the list |
| ConfidenceBand.EnvelopeRecoversBand | POC.py:80-81 | the future dates, the upper bounds and the lower bounds can all be read back from the envelope |
| ConfidenceBand.BandLiesAfterObservations | POC.py:80-81 | every x of the band drawn from the future segment is later than every observed date |
| ForecastTable.TableHeader | POC.py:103-110 | renaming the projected header gives `Date, Predicted Revenue, Lower Bound, Upper Bound` |
| ForecastTable.Tail | POC.py:103 | `tail(n)` has `min(n, len(s))` rows, and they are the last rows of `s` in order |
| ForecastTable.RenameIsLossless | POC.py:103-110 | `ToTableRecord` and `FromTableRecord` undo each other, so the rename neither merges nor drops values |
| ForecastTable.RenameKeepsCells | POC.py:104-109 | `ToTableRecord`: for every CSV column, the value under that label is the value under its renamed label (`ds` to `Date`, `yhat` to `Predicted Revenue`, `yhat_lower` to `Lower Bound`, `yhat_upper` to `Upper Bound`) |
| ForecastTable.CsvRowsAreLastRows | POC.py:114 | `CsvRows` (via `ProjectAll` and `Tail`): the CSV has `min(forecast_days, len(forecast))` rows: the last rows of the forecast, in order, reduced to the four columns |
| ForecastTable.TableMatchesCsv | POC.py:103-114 | `TableRows`: the table and the CSV have the same length; each table record is the CSV row at the same position renamed; record k holds the `ds`, `yhat`, `yhat_lower` and `yhat_upper` of forecast row `len(forecast) - m + k` as `Date`, `Predicted Revenue`, `Lower Bound` and `Upper Bound`, with `m = min(forecast_days, len(forecast))` |
| ForecastTable.ProjectThenTail | POC.py:114 | projecting the columns and then taking the tail gives the same rows as the other order |
| ForecastTable.TailOfAppend | POC.py:103 | the last `len(b)` rows of `a ++ b` are `b` |
| ForecastTable.HorizonTailIsFuture | POC.py:103 | if the forecast is in-sample rows on or before the boundary followed by exactly `forecast_days` rows after it, then the tail is the future segment, the rest is the historical segment, and the CSV rows are the projected future segment |
| ForecastTable.DailyHorizonTailIsFuture | POC.py:50 | if the in-sample rows carry observed dates and the horizon rows are dated on the `forecast_days` days after the latest observation, the tail is the future segment; it has `forecast_days` rows, from the day after the latest observation to `forecast_days` days after it |

## Left out

- Fetching from the warehouse (POC.py:9-27): network I/O and credentials. The observed frame is an input.
- The dashboard widgets, charts, spinner, table display, download button and result caching (POC.py:30-43, 98, 101-102, 115): presentation and framework state. `forecast_days` is a `nat`; the slider's range of 30 to 365 is not needed by any statement here.
- Date parsing with `pd.to_datetime` (POC.py:42): dates are already-parsed day ordinals.
- Fitting and prediction (POC.py:46-51): a third-party statistical algorithm on floating point. The prediction frame is an input. The horizon lemmas take the shape that `make_future_dataframe(periods=forecast_days)` produces as an explicit precondition.
- Plot styling and layout (POC.py:60-96), apart from the x/y data of the band.
- CSV text formatting of the numbers (POC.py:114): float formatting. Only the selected rows, their columns and the header labels are modelled.
- ForecastRows.LatestObserved: requires a non-empty observed frame. With an empty frame, fitting at POC.py:47 raises before the split at line 57 runs.
- ForecastTable.Tail: takes a `nat`. The negative counts that pandas also accepts cannot come from the slider.
- Series validation, de-duplication and error kinds such as an empty series, too little data, a fit failure or an invalid limit: the dashboard code has none of them.
