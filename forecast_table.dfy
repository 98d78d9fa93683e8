/**
 The forecast table shown on screen and the CSV download: both take the four
 forecast columns and keep the last `forecastDays` rows; the table also
 renames the columns.
 */
module ForecastTable {
  import opened ForecastRows
  import opened Selection
  import opened SegmentSplit

  /** A row of `forecast[['ds', 'yhat', 'yhat_lower', 'yhat_upper']]`, as written to the CSV. */
  datatype ExportRow<V> = ExportRow(ds: int, yhat: V, yhatLower: V, yhatUpper: V)

  /** A row of the on-screen table, after the columns are renamed. */
  datatype TableRecord<V> = TableRecord(date: int, predictedRevenue: V, lowerBound: V, upperBound: V)

  /** The projected columns, in order: the CSV header. */
  const ExportColumns: seq<string> := ["ds", "yhat", "yhat_lower", "yhat_upper"]

  /** The rename applied to the on-screen table. */
  const TableRenames: map<string, string> :=
    map["ds" := "Date", "yhat" := "Predicted Revenue", "yhat_lower" := "Lower Bound", "yhat_upper" := "Upper Bound"]

  /** A column label after renaming; labels the rename does not mention stay as they are. */
  function RenameColumn(column: string): string
  {
    if column in TableRenames then TableRenames[column] else column
  }

  /** The on-screen table's header is the CSV header renamed, column by column. */
  lemma TableHeader()
    ensures seq(|ExportColumns|, i requires 0 <= i < |ExportColumns| => RenameColumn(ExportColumns[i]))
            == TableColumns
  {
  }

  function Min(a: int, b: int): int
  {
    if a <= b then a else b
  }

  /** `tail(n)`: the last `n` rows, or all of them when there are fewer. */
  function Tail<T>(s: seq<T>, n: nat): (t: seq<T>)
    ensures |t| == Min(n, |s|)
    ensures forall k :: 0 <= k < |t| ==> t[k] == s[|s| - |t| + k]
  {
    if n >= |s| then s else s[|s| - n..]
  }

  /** Keeps the four forecast columns of a prediction row. */
  function Project<V>(r: ForecastRow<V>): ExportRow<V>
  {
    ExportRow(r.ds, r.yhat, r.yhatLower, r.yhatUpper)
  }

  function ProjectAll<V>(rows: seq<ForecastRow<V>>): seq<ExportRow<V>>
  {
    seq(|rows|, i requires 0 <= i < |rows| => Project(rows[i]))
  }

  /** Renames the columns of one row: `ds` to `Date`, `yhat` to `Predicted Revenue`, and so on. */
  function ToTableRecord<V>(e: ExportRow<V>): TableRecord<V>
  {
    TableRecord(e.ds, e.yhat, e.yhatLower, e.yhatUpper)
  }

  /** The rename read backwards. */
  function FromTableRecord<V>(t: TableRecord<V>): ExportRow<V>
  {
    ExportRow(t.date, t.predictedRevenue, t.lowerBound, t.upperBound)
  }

  /** The rows of the downloadable CSV. */
  function CsvRows<V>(forecast: seq<ForecastRow<V>>, forecastDays: nat): seq<ExportRow<V>>
  {
    Tail(ProjectAll(forecast), forecastDays)
  }

  /** The rows of the on-screen forecast table. */
  function TableRows<V>(forecast: seq<ForecastRow<V>>, forecastDays: nat): seq<TableRecord<V>>
  {
    var rows := Tail(ProjectAll(forecast), forecastDays);
    seq(|rows|, i requires 0 <= i < |rows| => ToTableRecord(rows[i]))
  }

  /** The rename can be undone: it neither merges nor drops values. */
  lemma RenameIsLossless<V>(e: ExportRow<V>, t: TableRecord<V>)
    ensures FromTableRecord(ToTableRecord(e)) == e
    ensures ToTableRecord(FromTableRecord(t)) == t
  {
  }

  /** The content of one cell: the date column, or one of the value columns. */
  datatype Cell<V> = DateCell(date: int) | ValueCell(value: V)

  /** The cell of a CSV row under one of its column labels. */
  function ExportCell<V>(e: ExportRow<V>, column: string): Cell<V>
    requires column in ExportColumns
  {
    if column == "ds" then DateCell(e.ds)
    else if column == "yhat" then ValueCell(e.yhat)
    else if column == "yhat_lower" then ValueCell(e.yhatLower)
    else ValueCell(e.yhatUpper)
  }

  /** The on-screen header. */
  const TableColumns: seq<string> := ["Date", "Predicted Revenue", "Lower Bound", "Upper Bound"]

  /** The cell of a table record under one of its column labels. */
  function TableCell<V>(t: TableRecord<V>, column: string): Cell<V>
    requires column in TableColumns
  {
    if column == "Date" then DateCell(t.date)
    else if column == "Predicted Revenue" then ValueCell(t.predictedRevenue)
    else if column == "Lower Bound" then ValueCell(t.lowerBound)
    else ValueCell(t.upperBound)
  }

  /**
   Each value of a CSV row sits, in the table record, under the renamed
   label of its column: `ds` under `Date`, `yhat` under `Predicted Revenue`,
   `yhat_lower` under `Lower Bound`, `yhat_upper` under `Upper Bound`.
   */
  lemma RenameKeepsCells<V>(e: ExportRow<V>)
    ensures forall column :: column in ExportColumns ==>
              RenameColumn(column) in TableColumns
              && TableCell(ToTableRecord(e), RenameColumn(column)) == ExportCell(e, column)
  {
  }

  /**
   The CSV holds the last `Min(forecastDays, |forecast|)` rows of the
   forecast, in order, reduced to the four forecast columns.
   */
  lemma CsvRowsAreLastRows<V>(forecast: seq<ForecastRow<V>>, forecastDays: nat)
    ensures var m := Min(forecastDays, |forecast|);
            && |CsvRows(forecast, forecastDays)| == m
            && forall k :: 0 <= k < m ==> CsvRows(forecast, forecastDays)[k] == Project(forecast[|forecast| - m + k])
  {
  }

  /**
   The table and the CSV select the same rows: row for row, the table record
   is the CSV row with its columns renamed.
   */
  lemma TableMatchesCsv<V>(forecast: seq<ForecastRow<V>>, forecastDays: nat)
    ensures var table, csv := TableRows(forecast, forecastDays), CsvRows(forecast, forecastDays);
            && |table| == |csv| == Min(forecastDays, |forecast|)
            && forall k :: 0 <= k < |table| ==>
                 table[k] == ToTableRecord(csv[k]) && FromTableRecord(table[k]) == csv[k]
    ensures var table, m := TableRows(forecast, forecastDays), Min(forecastDays, |forecast|);
            forall k :: 0 <= k < m ==>
              var r := forecast[|forecast| - m + k];
              && table[k].date == r.ds
              && table[k].predictedRevenue == r.yhat
              && table[k].lowerBound == r.yhatLower
              && table[k].upperBound == r.yhatUpper
  {
  }

  /**
   When the forecast is the in-sample rows followed by exactly `forecastDays`
   horizon rows, the in-sample ones dated on or before the boundary and the
   horizon ones after it, then the tail is the future segment and the rest is
   the historical segment.
   */
  lemma {:induction false} HorizonTailIsFuture<V>(
      inSample: seq<ForecastRow<V>>, horizon: seq<ForecastRow<V>>, boundary: int, forecastDays: nat)
    requires |horizon| == forecastDays
    requires forall k :: 0 <= k < |inSample| ==> inSample[k].ds <= boundary
    requires forall k :: 0 <= k < |horizon| ==> horizon[k].ds > boundary
    ensures Tail(inSample + horizon, forecastDays) == FutureForecast(inSample + horizon, boundary) == horizon
    ensures Historical(inSample + horizon, boundary) == inSample
    ensures CsvRows(inSample + horizon, forecastDays) == ProjectAll(FutureForecast(inSample + horizon, boundary))
  {
    var p, q := OnOrBefore<V>(boundary), After<V>(boundary);
    SelectAppend(inSample, horizon, p);
    SelectAppend(inSample, horizon, q);
    SelectAll(inSample, p);
    SelectNone(horizon, p);
    SelectNone(inSample, q);
    SelectAll(horizon, q);
    assert Historical(inSample + horizon, boundary) == inSample + [];
    assert FutureForecast(inSample + horizon, boundary) == [] + horizon;
    TailOfAppend(inSample, horizon, forecastDays);
    ProjectThenTail(inSample + horizon, forecastDays);
  }

  /** The last `|b|` rows of `a + b` are `b`. */
  lemma TailOfAppend<T>(a: seq<T>, b: seq<T>, n: nat)
    requires |b| == n
    ensures Tail(a + b, n) == b
  {
  }

  /** Projecting the columns and then taking the tail is the same as the other way round. */
  lemma ProjectThenTail<V>(rows: seq<ForecastRow<V>>, n: nat)
    ensures Tail(ProjectAll(rows), n) == ProjectAll(Tail(rows, n))
  {
  }

  /** Daily horizon dates: the `periods` days after `last`. */
  function DailyHorizon(last: int, periods: nat): seq<int>
  {
    seq(periods, i requires 0 <= i < periods => last + 1 + i)
  }

  /**
   With the in-sample rows echoing observed dates and the horizon rows dated
   on the `forecastDays` days after the latest observation, the table's tail
   is the future segment: exactly `forecastDays` rows from the day after the
   latest observation to `forecastDays` days after it.
   */
  lemma DailyHorizonTailIsFuture<V>(
      observed: seq<Observation<V>>, inSample: seq<ForecastRow<V>>, horizon: seq<ForecastRow<V>>, forecastDays: nat)
    requires |observed| > 0
    requires forall k :: 0 <= k < |inSample| ==>
               exists i :: 0 <= i < |observed| && inSample[k].ds == observed[i].ds
    requires Dates(horizon) == DailyHorizon(LatestObserved(observed), forecastDays)
    ensures var future := Split(inSample + horizon, observed).future;
            && Tail(inSample + horizon, forecastDays) == future
            && |future| == forecastDays
            && (forecastDays > 0 ==>
                  future[0].ds == LatestObserved(observed) + 1
                  && future[forecastDays - 1].ds == LatestObserved(observed) + forecastDays)
  {
    var b := LatestObserved(observed);
    assert |horizon| == |Dates(horizon)|;
    forall k | 0 <= k < |horizon| ensures horizon[k].ds > b {
      assert Dates(horizon)[k] == horizon[k].ds;
    }
    HorizonTailIsFuture(inSample, horizon, b, forecastDays);
    if forecastDays > 0 {
      assert Dates(horizon)[0] == horizon[0].ds;
      assert Dates(horizon)[forecastDays - 1] == horizon[forecastDays - 1].ds;
    }
  }
}
