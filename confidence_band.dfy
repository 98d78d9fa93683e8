/**
 The closed polygon shaded as the confidence interval: the future dates
 forward then backward, against the upper bounds forward then the lower
 bounds backward.
 */
module ConfidenceBand {
  import opened ForecastRows
  import opened SegmentSplit

  /** `list(s)[::-1]`: the elements of `s` last to first. */
  function Reversed<T>(s: seq<T>): (r: seq<T>)
    ensures |r| == |s|
    ensures forall k :: 0 <= k < |s| ==> r[k] == s[|s| - 1 - k]
    decreases |s|
  {
    if |s| == 0 then [] else [s[|s| - 1]] + Reversed(s[..|s| - 1])
  }

  /** The x and y data of the shaded trace. */
  datatype Envelope<V> = Envelope(x: seq<int>, y: seq<V>)

  /** The envelope of the band over the rows `future`. */
  function EnvelopeOf<V>(future: seq<ForecastRow<V>>): Envelope<V>
  {
    Envelope(Dates(future) + Reversed(Dates(future)), Uppers(future) + Reversed(Lowers(future)))
  }

  /**
   Both coordinate lists have two entries per row; the first half walks the
   upper bound forward in time, the second half walks the lower bound back.
   */
  lemma EnvelopeTrace<V>(future: seq<ForecastRow<V>>)
    ensures var e, n := EnvelopeOf(future), |future|;
            |e.x| == 2 * n && |e.y| == 2 * n
    ensures var e, n := EnvelopeOf(future), |future|;
            forall i :: 0 <= i < n ==>
              && e.x[i] == future[i].ds && e.y[i] == future[i].yhatUpper
              && e.x[2 * n - 1 - i] == future[i].ds && e.y[2 * n - 1 - i] == future[i].yhatLower
  {
  }

  /**
   The trace is a closed loop: it turns around at the last date and ends on
   the date where it started.
   */
  lemma EnvelopeCloses<V>(future: seq<ForecastRow<V>>)
    requires |future| > 0
    ensures var e, n := EnvelopeOf(future), |future|;
            e.x[n - 1] == e.x[n] && e.x[2 * n - 1] == e.x[0]
  {
  }

  /** Reversing twice gives back the original list. */
  lemma ReversedTwice<T>(s: seq<T>)
    ensures Reversed(Reversed(s)) == s
  {
  }

  /**
   The envelope loses nothing: the future dates, upper bounds and lower
   bounds can be read back from it.
   */
  lemma EnvelopeRecoversBand<V>(future: seq<ForecastRow<V>>)
    ensures var e, n := EnvelopeOf(future), |future|;
            && |e.x| == 2 * n && |e.y| == 2 * n
            && e.x[..n] == Dates(future)
            && e.y[..n] == Uppers(future)
            && Reversed(e.y[n..]) == Lowers(future)
  {
  }

  /**
   The band drawn from the future segment lies strictly after every
   observed date.
   */
  lemma BandLiesAfterObservations<V>(forecast: seq<ForecastRow<V>>, observed: seq<Observation<V>>)
    requires |observed| > 0
    ensures var e := EnvelopeOf(Split(forecast, observed).future);
            forall k, i :: 0 <= k < |e.x| && 0 <= i < |observed| ==> observed[i].ds < e.x[k]
  {
  }
}
