/** The colour debounce of the observer's main loop.

    State is the pair (previous colour, equal counter), starting at ((0,0,0), 0).
    Each iteration takes one classified colour: a repeat of the previous colour
    bumps the counter (it stops at 2), a different colour replaces the previous
    one and resets the counter to 0. Whenever the counter is 2 or more after the
    update, the LED is set to the classified colour (and a line is logged).

    The pure part (Next, Run, Displays) is the specification; the class
    Debouncer is the module-level state the firmware updates in place. */
module Debounce {

  datatype Option<T> = None | Some(value: T)

  /** A classified colour, one integer per channel (red, green, blue). */
  datatype Rgb = Rgb(r: int, g: int, b: int)

  /** The colour the LED shows at start-up and the initial previous colour. */
  const Off := Rgb(0, 0, 0)

  /** The counter value at which a colour is considered stable. */
  const Confirmed: nat := 2

  datatype State = State(previous: Rgb, equalCounter: nat)

  const Initial := State(Off, 0)

  /** One debounce update on a classified colour `c`. */
  function Next(s: State, c: Rgb): State
  {
    if c == s.previous then
      if s.equalCounter < Confirmed then State(s.previous, s.equalCounter + 1) else s
    else
      State(c, 0)
  }

  /** What the iteration sends to the LED once the state has been updated. */
  function Output(s: State, c: Rgb): Option<Rgb>
  {
    if s.equalCounter >= Confirmed then Some(c) else None
  }

  /** The state after the classifications `cs`, starting from `Initial`. */
  function Run(cs: seq<Rgb>): State
  {
    if cs == [] then Initial else Next(Run(cs[..|cs| - 1]), cs[|cs| - 1])
  }

  /** What each iteration of the classifications `cs` sends to the LED. */
  function Displays(cs: seq<Rgb>): (d: seq<Option<Rgb>>)
    ensures |d| == |cs|
  {
    if cs == [] then [] else Displays(cs[..|cs| - 1]) + [Output(Run(cs), cs[|cs| - 1])]
  }

  lemma {:induction false} DisplaysAt(cs: seq<Rgb>, n: nat)
    requires n < |cs|
    ensures Displays(cs)[n] == Output(Run(cs[..n + 1]), cs[n])
  {
    if n + 1 < |cs| {
      var init := cs[..|cs| - 1];
      DisplaysAt(init, n);
      assert init[..n + 1] == cs[..n + 1];
    } else {
      assert cs[..n + 1] == cs;
    }
  }

  /** The counter never leaves 0..2 on any trace from the initial state. */
  lemma {:induction false} RunCounterBound(cs: seq<Rgb>)
    ensures Run(cs).equalCounter <= Confirmed
  {
    if cs != [] {
      RunCounterBound(cs[..|cs| - 1]);
    }
  }

  // ---------------------------------------------------------------------
  // Reference definition: the length of the run of equal colours at the end
  // of the trace, with the initial previous colour counted in front of it.

  /** Length of the longest suffix of `xs` whose elements all equal the last one. */
  function RunLen(xs: seq<Rgb>): (n: nat)
    requires |xs| > 0
    ensures 1 <= n <= |xs|
    ensures forall k :: |xs| - n <= k < |xs| ==> xs[k] == xs[|xs| - 1]
    ensures n < |xs| ==> xs[|xs| - n - 1] != xs[|xs| - 1]
  {
    if |xs| == 1 || xs[|xs| - 2] != xs[|xs| - 1] then 1
    else RunLen(xs[..|xs| - 1]) + 1
  }

  /** The debounce state after `cs` is determined by the trailing run of
      `[Off] + cs`: the previous colour is its last element and the counter is
      the run length minus one, capped at 2. */
  lemma {:induction false} RunIsTrailingRun(cs: seq<Rgb>)
    ensures var ext := [Off] + cs;
      Run(cs) == State(ext[|ext| - 1], if RunLen(ext) - 1 < Confirmed then RunLen(ext) - 1 else Confirmed)
  {
    if cs != [] {
      var init := cs[..|cs| - 1];
      RunIsTrailingRun(init);
      var ext := [Off] + cs;
      assert ext[..|ext| - 1] == [Off] + init;
    }
  }

  lemma {:induction false} TrailingRunOfThree(xs: seq<Rgb>)
    requires |xs| > 0
    ensures RunLen(xs) >= 3 <==>
      |xs| >= 3 && xs[|xs| - 3] == xs[|xs| - 1] && xs[|xs| - 2] == xs[|xs| - 1]
  {
  }

  /** Iteration `n` sets the LED exactly when the trailing run of
      `[Off] + cs[..n + 1]` has at least three elements. */
  lemma {:induction false} ShownIffRunOfThree(cs: seq<Rgb>, n: nat)
    requires n < |cs|
    ensures var ext := [Off] + cs[..n + 1];
      Displays(cs)[n] == (if RunLen(ext) >= 3 then Some(cs[n]) else None)
  {
    DisplaysAt(cs, n);
    RunIsTrailingRun(cs[..n + 1]);
  }

  /** A colour other than (0,0,0) is shown only on its third consecutive
      classification, and from then on every time it repeats. */
  lemma {:induction false} ShownNonOff(cs: seq<Rgb>, n: nat)
    requires n < |cs| && cs[n] != Off
    ensures Displays(cs)[n] != None <==> n >= 2 && cs[n - 2] == cs[n] && cs[n - 1] == cs[n]
    ensures Displays(cs)[n] != None ==> Displays(cs)[n] == Some(cs[n])
  {
    ShownIffRunOfThree(cs, n);
    var ext := [Off] + cs[..n + 1];
    TrailingRunOfThree(ext);
    assert ext[0] == Off && forall k :: 1 <= k < |ext| ==> ext[k] == cs[k - 1];
  }

  /** (0,0,0) counts the initial previous colour as one classification: at the
      start of the trace it is shown after two, later after three. */
  lemma {:induction false} ShownOff(cs: seq<Rgb>, n: nat)
    requires n < |cs| && cs[n] == Off
    ensures Displays(cs)[n] != None <==>
      n >= 1 && cs[n - 1] == Off && (n == 1 || cs[n - 2] == Off)
    ensures Displays(cs)[n] != None ==> Displays(cs)[n] == Some(Off)
  {
    ShownIffRunOfThree(cs, n);
    var ext := [Off] + cs[..n + 1];
    TrailingRunOfThree(ext);
    assert ext[0] == Off && forall k :: 1 <= k < |ext| ==> ext[k] == cs[k - 1];
  }

  /** Whatever the colour, iteration `n` sets the LED only if the previous
      iteration classified the same colour. */
  lemma {:induction false} ShownNeedsRepeat(cs: seq<Rgb>, n: nat)
    requires n < |cs| && Displays(cs)[n] != None
    ensures n >= 1 && cs[n - 1] == cs[n]
  {
    if cs[n] == Off { ShownOff(cs, n); } else { ShownNonOff(cs, n); }
  }

  /** A change of colour restarts the run: neither the iteration that sees the
      new colour nor the one after it sets the LED. The colour before
      iteration `i` is `([Off] + cs)[i]`, so a first classification other than
      (0,0,0) is a change too. In particular a single outlier B in A, B, A, ...
      is never shown, and A is shown again only on the third A after it. */
  lemma {:induction false} ChangeRestartsRun(cs: seq<Rgb>, i: nat)
    requires i < |cs| && ([Off] + cs)[i] != cs[i]
    ensures Displays(cs)[i] == None
    ensures i + 1 < |cs| ==> Displays(cs)[i + 1] == None
  {
    if i > 0 {
      assert ([Off] + cs)[i] == cs[i - 1];
    }
    if Displays(cs)[i] != None {
      ShownNeedsRepeat(cs, i);
    }
    if i + 1 < |cs| && Displays(cs)[i + 1] != None {
      if cs[i + 1] == Off { ShownOff(cs, i + 1); } else { ShownNonOff(cs, i + 1); }
    }
  }

  /** Once the LED is set, every further identical classification sets it
      again: there is no suppression of repeated output. */
  lemma {:induction false} RepeatIsShownAgain(cs: seq<Rgb>, n: nat)
    requires n + 1 < |cs| && Displays(cs)[n] != None && cs[n + 1] == cs[n]
    ensures Displays(cs)[n + 1] == Some(cs[n])
  {
    ShownNeedsRepeat(cs, n);
    if cs[n] == Off {
      ShownOff(cs, n);
      ShownOff(cs, n + 1);
    } else {
      ShownNonOff(cs, n);
      ShownNonOff(cs, n + 1);
    }
  }

  /** A, B, A, A, A with A != B: B is never shown and A only on the last step. */
  lemma {:induction false} FlickerIsSuppressed(a: Rgb, b: Rgb)
    requires a != b
    ensures Displays([a, b, a, a, a]) == [None, None, None, None, Some(a)]
  {
    var cs := [a, b, a, a, a];
    var d := Displays(cs);
    ChangeRestartsRun(cs, 1);
    ChangeRestartsRun(cs, 2);
    assert d[0] == None by {
      if d[0] != None { ShownNeedsRepeat(cs, 0); }
    }
    if a == Off { ShownOff(cs, 4); } else { ShownNonOff(cs, 4); }
  }

  /** A, A, B, B, B with A != B and A != (0,0,0): the first colour is never
      shown, since two agreeing classifications do not reach the counter
      value 2, and B is shown once, on its third classification. */
  lemma {:induction false} SustainedChangeShownOnce(a: Rgb, b: Rgb)
    requires a != b && a != Off
    ensures Displays([a, a, b, b, b]) == [None, None, None, None, Some(b)]
  {
    var cs := [a, a, b, b, b];
    var d := Displays(cs);
    ShownNonOff(cs, 0);
    ShownNonOff(cs, 1);
    ChangeRestartsRun(cs, 2);
    if b == Off { ShownOff(cs, 4); } else { ShownNonOff(cs, 4); }
  }

  /** Off, Off, B, B, B with B != (0,0,0): (0,0,0) is shown on the second
      iteration, because the initial previous colour counts as the first, and
      B once, on its third classification. */
  lemma {:induction false} SustainedChangeFromOff(b: Rgb)
    requires b != Off
    ensures Displays([Off, Off, b, b, b]) == [None, Some(Off), None, None, Some(b)]
  {
    var cs := [Off, Off, b, b, b];
    var d := Displays(cs);
    ShownOff(cs, 0);
    ShownOff(cs, 1);
    ChangeRestartsRun(cs, 2);
    ShownNonOff(cs, 4);
  }

  /** The module-level debounce state of the firmware's main loop. */
  class Debouncer {
    var previous: Rgb
    var equalCounter: nat
    /** The classifications fed to `Step` so far. */
    ghost var Trace: seq<Rgb>

    ghost predicate Valid()
      reads this
    {
      State(previous, equalCounter) == Run(Trace)
    }

    constructor ()
      ensures Valid() && Trace == []
      ensures previous == Off && equalCounter == 0
    {
      previous := Off;
      equalCounter := 0;
      Trace := [];
    }

    /** One iteration of the debounce on the classified colour `c`; `show`
        says whether the LED is set to `c` (and the line logged). */
    method Step(c: Rgb) returns (show: bool)
      requires Valid()
      modifies this
      ensures Valid() && Trace == old(Trace) + [c]
      ensures c == old(previous) ==> (previous == old(previous) &&
        equalCounter == (if old(equalCounter) < Confirmed then old(equalCounter) + 1 else old(equalCounter)))
      ensures c != old(previous) ==> previous == c && equalCounter == 0
      ensures equalCounter <= Confirmed
      ensures show <==> equalCounter >= Confirmed
      ensures show ==> previous == c
      ensures Displays(Trace)[|Trace| - 1] == (if show then Some(c) else None)
    {
      if c == previous {
        if equalCounter < Confirmed {
          equalCounter := equalCounter + 1;
        }
      } else {
        previous := c;
        equalCounter := 0;
      }
      Trace := Trace + [c];
      assert Trace[..|Trace| - 1] == old(Trace);
      RunCounterBound(Trace);
      show := equalCounter >= Confirmed;
    }
  }

  /** The main loop over a finite prefix of classifications, from start-up:
      what each iteration sends to the LED. */
  method RunClassifications(cs: seq<Rgb>) returns (leds: seq<Option<Rgb>>)
    ensures leds == Displays(cs)
  {
    var d := new Debouncer();
    leds := [];
    var i := 0;
    while i < |cs|
      invariant 0 <= i <= |cs|
      invariant d.Valid() && d.Trace == cs[..i]
      invariant leds == Displays(cs[..i])
    {
      var show := d.Step(cs[i]);
      assert cs[..i + 1] == cs[..i] + [cs[i]];
      leds := leds + [if show then Some(cs[i]) else None];
      i := i + 1;
    }
    assert cs[..i] == cs;
  }
}
