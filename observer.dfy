/** One iteration of the firmware's endless main loop: sample a window, take
    the filter's median, classify it, and feed the colour to the debounce.

    The median filter and the decision-tree classifier are modules whose code
    is not part of this model; they enter as the functions `median` and
    `predict`, about which nothing is assumed. */
module Observer {
  import opened Debounce
  import opened Sampling

  method Iterate(d: Debouncer, start: real, ticks: seq<Tick>,
                 median: seq<real> -> real, predict: real -> Rgb)
    returns (closed: bool, led: Option<Rgb>)
    requires d.Valid()
    modifies d
    ensures d.Valid()
    ensures var k := FirstLate(ticks, start + ReadingTotalTime);
      && (closed <==> k < |ticks|)
      && (closed ==>
            var c := predict(median(Currents(ticks[..k + 1])));
            d.Trace == old(d.Trace) + [c] && led == Displays(d.Trace)[|d.Trace| - 1])
    ensures !closed ==> d.Trace == old(d.Trace) && led == None
  {
    var samples, sleeps;
    samples, sleeps, closed := SampleWindow(start, ticks);
    if !closed {
      led := None;
      return;
    }
    var targetCurrent := median(samples);
    var c := predict(targetCurrent);
    var show := d.Step(c);
    led := if show then Some(c) else None;
  }
}
