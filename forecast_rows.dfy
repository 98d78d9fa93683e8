/**
 The rows the post-processing reads. Dates are day ordinals (already parsed);
 the revenue values are left abstract as the type parameter `V`, because the
 post-processing only moves them around and never computes with them.
 */
module ForecastRows {

  /** One row of the observed frame `df`: columns `ds` and `y`. */
  datatype Observation<V> = Observation(ds: int, y: V)

  /**
   One row of the prediction frame returned by the forecasting model:
   the columns `ds`, `yhat`, `yhat_lower`, `yhat_upper`, and the remaining
   columns (trend and seasonal terms with their bounds) in column order.
   */
  datatype ForecastRow<V> = ForecastRow(ds: int, yhat: V, yhatLower: V, yhatUpper: V, components: seq<V>)

  /** `df['ds'].max()`: the latest observed date. */
  function LatestObserved<V>(observed: seq<Observation<V>>): (m: int)
    requires |observed| > 0
    ensures exists i :: 0 <= i < |observed| && observed[i].ds == m
    ensures forall i :: 0 <= i < |observed| ==> observed[i].ds <= m
  {
    if |observed| == 1 then observed[0].ds
    else
      var rest := LatestObserved(observed[1..]);
      assert forall i :: 1 <= i < |observed| ==> observed[i] == observed[1..][i - 1];
      if observed[0].ds >= rest then observed[0].ds else rest
  }

  /** True when the rows are in ascending date order (ties allowed). */
  predicate SortedByDate<V>(rows: seq<ForecastRow<V>>)
  {
    forall i, j :: 0 <= i < j < |rows| ==> rows[i].ds <= rows[j].ds
  }

  /** The `ds` column as a list. */
  function Dates<V>(rows: seq<ForecastRow<V>>): seq<int>
  {
    seq(|rows|, i requires 0 <= i < |rows| => rows[i].ds)
  }

  /** The `yhat_upper` column as a list. */
  function Uppers<V>(rows: seq<ForecastRow<V>>): seq<V>
  {
    seq(|rows|, i requires 0 <= i < |rows| => rows[i].yhatUpper)
  }

  /** The `yhat_lower` column as a list. */
  function Lowers<V>(rows: seq<ForecastRow<V>>): seq<V>
  {
    seq(|rows|, i requires 0 <= i < |rows| => rows[i].yhatLower)
  }
}
