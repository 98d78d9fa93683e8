/**
 The split of the prediction frame into the in-sample part (`historical`)
 and the horizon part (`future_forecast`) at the latest observed date.
 */
module SegmentSplit {
  import opened ForecastRows
  import opened Selection

  /** The mask `forecast['ds'] <= boundary`. */
  function OnOrBefore<V>(boundary: int): ForecastRow<V> -> bool
  {
    (r: ForecastRow<V>) => r.ds <= boundary
  }

  /** The mask `forecast['ds'] > boundary`. */
  function After<V>(boundary: int): ForecastRow<V> -> bool
  {
    (r: ForecastRow<V>) => r.ds > boundary
  }

  /** The rows dated on or before `boundary`. */
  function Historical<V>(forecast: seq<ForecastRow<V>>, boundary: int): seq<ForecastRow<V>>
  {
    Select(forecast, OnOrBefore(boundary))
  }

  /** The rows dated after `boundary`. */
  function FutureForecast<V>(forecast: seq<ForecastRow<V>>, boundary: int): seq<ForecastRow<V>>
  {
    Select(forecast, After(boundary))
  }

  datatype Segments<V> = Segments(historical: seq<ForecastRow<V>>, future: seq<ForecastRow<V>>)

  /** Both segments, cut at the latest date of the observed frame. */
  function Split<V>(forecast: seq<ForecastRow<V>>, observed: seq<Observation<V>>): Segments<V>
    requires |observed| > 0
  {
    var boundary := LatestObserved(observed);
    Segments(Historical(forecast, boundary), FutureForecast(forecast, boundary))
  }

  /**
   The historical segment holds exactly the rows dated on or before the
   latest observation, taken at ascending positions, so in their original
   order.
   */
  lemma HistoricalIsMaskSelection<V>(forecast: seq<ForecastRow<V>>, observed: seq<Observation<V>>)
    requires |observed| > 0
    ensures var b := LatestObserved(observed);
            var past := TruePositions(forecast, OnOrBefore(b));
            && (forall i :: 0 <= i < |forecast| ==> (i in past <==> forecast[i].ds <= b))
            && (forall j, k :: 0 <= j < k < |past| ==> past[j] < past[k])
            && Split(forecast, observed).historical == Gather(forecast, past)
  {
  }

  /**
   The future segment holds exactly the rows dated after the latest
   observation, taken at ascending positions, so in their original order.
   */
  lemma FutureIsMaskSelection<V>(forecast: seq<ForecastRow<V>>, observed: seq<Observation<V>>)
    requires |observed| > 0
    ensures var b := LatestObserved(observed);
            var later := TruePositions(forecast, After(b));
            && (forall i :: 0 <= i < |forecast| ==> (i in later <==> forecast[i].ds > b))
            && (forall j, k :: 0 <= j < k < |later| ==> later[j] < later[k])
            && Split(forecast, observed).future == Gather(forecast, later)
  {
  }

  /**
   Every row is in exactly one segment: by position, by value, and by count.
   */
  lemma SplitIsPartition<V>(forecast: seq<ForecastRow<V>>, observed: seq<Observation<V>>)
    requires |observed| > 0
    ensures var s := Split(forecast, observed);
            |s.historical| + |s.future| == |forecast|
    ensures var s := Split(forecast, observed);
            multiset(s.historical) + multiset(s.future) == multiset(forecast)
    ensures var b := LatestObserved(observed);
            forall i :: 0 <= i < |forecast| ==>
              (i in TruePositions(forecast, OnOrBefore(b)) <==> i !in TruePositions(forecast, After(b)))
    ensures var s := Split(forecast, observed);
            forall x :: x in forecast <==> (x in s.historical || x in s.future)
    ensures var s := Split(forecast, observed);
            forall x :: !(x in s.historical && x in s.future)
  {
    var b := LatestObserved(observed);
    var p, q := OnOrBefore<V>(b), After<V>(b);
    assert forall x :: q(x) == !p(x);
    SelectComplementLengths(forecast, p, q);
    SelectComplementMultiset(forecast, p, q);
    forall i | 0 <= i < |forecast|
      ensures i in TruePositions(forecast, p) <==> i !in TruePositions(forecast, q)
    {
      PositionsPartition(forecast, p, q, i);
    }
    forall x
      ensures x in forecast <==> (x in Select(forecast, p) || x in Select(forecast, q))
      ensures !(x in Select(forecast, p) && x in Select(forecast, q))
    {
      SelectMembership(forecast, p, x);
      SelectMembership(forecast, q, x);
    }
  }

  /**
   The historical rows are dated no later than the latest observation; the
   future rows are dated after every observation.
   */
  lemma SplitRespectsBoundary<V>(forecast: seq<ForecastRow<V>>, observed: seq<Observation<V>>)
    requires |observed| > 0
    ensures var s := Split(forecast, observed);
            forall k :: 0 <= k < |s.historical| ==>
              exists i :: 0 <= i < |observed| && s.historical[k].ds <= observed[i].ds
    ensures var s := Split(forecast, observed);
            forall k, i :: 0 <= k < |s.future| && 0 <= i < |observed| ==>
              observed[i].ds < s.future[k].ds
  {
  }

  /**
   On a frame in ascending date order, the historical segment followed by
   the future segment is the whole frame.
   */
  lemma SplitOfSortedReassembles<V>(forecast: seq<ForecastRow<V>>, observed: seq<Observation<V>>)
    requires |observed| > 0
    requires SortedByDate(forecast)
    ensures var s := Split(forecast, observed);
            s.historical + s.future == forecast
  {
    var b := LatestObserved(observed);
    var p, q := OnOrBefore<V>(b), After<V>(b);
    assert forall x :: q(x) == !p(x);
    forall i, j | 0 <= i < j < |forecast| && p(forecast[j]) ensures p(forecast[i]) {
      assert forecast[i].ds <= forecast[j].ds;
    }
    SelectPrefixSplit(forecast, p, q);
  }
}
