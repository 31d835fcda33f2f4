/** The oversampling window of `read_target_current_filtered`.

    The clock (`time.monotonic`) and the current sensor are not called: their
    values come in as data. `start` is the clock reading taken when the window
    opens, and each `Tick` holds what one pass of the sampling loop observes:
    the clock before the sensor is read, the current it returns and the clock
    right after the sample was added to the filter. */
module Sampling {

  /** Nominal time between two sensor readings, in seconds. */
  const ReadingDeltaTime: real := 0.015
  /** Length of one sampling window, in seconds. */
  const ReadingTotalTime: real := 0.200

  datatype Tick = Tick(before: real, current: real, after: real)

  /** The time to sleep before the next reading when the last reading took
      `elapsed` seconds: `delta - elapsed`, replaced by `delta` when that is
      negative or larger than `delta`. */
  function ClampSleep(delta: real, elapsed: real): (t: real)
    ensures 0.0 <= delta ==> 0.0 <= t <= delta
    ensures 0.0 <= elapsed <= delta ==> t == delta - elapsed
    ensures elapsed > delta ==> t == delta
    ensures elapsed < 0.0 ==> t == delta
  {
    var t := delta - elapsed;
    if t > delta || t < 0.0 then delta else t
  }

  /** The sensor readings of `ticks`, in order. */
  function Currents(ticks: seq<Tick>): (s: seq<real>)
    ensures |s| == |ticks|
    ensures forall j :: 0 <= j < |ticks| ==> s[j] == ticks[j].current
  {
    if ticks == [] then [] else [ticks[0].current] + Currents(ticks[1..])
  }

  /** Index of the first tick whose closing clock reading is strictly past
      `deadline`, or `|ticks|` when there is none. */
  function FirstLate(ticks: seq<Tick>, deadline: real): (k: nat)
    ensures k <= |ticks|
    ensures forall j :: 0 <= j < k ==> ticks[j].after <= deadline
    ensures k < |ticks| ==> ticks[k].after > deadline
  {
    if ticks == [] then 0
    else if ticks[0].after > deadline then 0
    else 1 + FirstLate(ticks[1..], deadline)
  }

  /** The sampling loop. Each pass reads the sensor and adds the reading to the
      filter's buffer before it looks at the clock; the loop ends at the first
      clock reading strictly past `start + ReadingTotalTime`, otherwise it
      sleeps for the clamped remainder of `ReadingDeltaTime`.

      `samples` is what was added to the filter, `sleeps` the durations passed
      to `time.sleep`. `closed` is false when the ticks ran out before the
      deadline passed, a case the firmware's unbounded clock never reaches. */
  method SampleWindow(start: real, ticks: seq<Tick>)
    returns (samples: seq<real>, sleeps: seq<real>, closed: bool)
    ensures var k := FirstLate(ticks, start + ReadingTotalTime);
      && (closed <==> k < |ticks|)
      && |samples| == (if closed then k + 1 else |ticks|)
      && |sleeps| == k
    ensures closed ==> |samples| >= 1 && ticks[|samples| - 1].after > start + ReadingTotalTime
    ensures forall j :: 0 <= j < |samples| - 1 ==> ticks[j].after <= start + ReadingTotalTime
    ensures samples == Currents(ticks[..|samples|])
    ensures forall j :: 0 <= j < |sleeps| ==>
      sleeps[j] == ClampSleep(ReadingDeltaTime, ticks[j].after - ticks[j].before)
    ensures forall j :: 0 <= j < |sleeps| ==> 0.0 <= sleeps[j] <= ReadingDeltaTime
  {
    var deadline := start + ReadingTotalTime;
    ghost var k := FirstLate(ticks, deadline);
    samples, sleeps, closed := [], [], false;
    var i := 0;
    while i < |ticks|
      invariant 0 <= i <= k
      invariant |samples| == i && |sleeps| == i
      invariant forall j :: 0 <= j < i ==> samples[j] == ticks[j].current
      invariant forall j :: 0 <= j < i ==>
        sleeps[j] == ClampSleep(ReadingDeltaTime, ticks[j].after - ticks[j].before)
    {
      samples := samples + [ticks[i].current];
      if ticks[i].after > deadline {
        closed := true;
        return;
      }
      var timeToSleep := ClampSleep(ReadingDeltaTime, ticks[i].after - ticks[i].before);
      sleeps := sleeps + [timeToSleep];
      i := i + 1;
    }
  }
}
