# Observer firmware: debounce, sleep clamp and sampling window

This project models the decision logic of the observer board's firmware
(`02_observer_firmware/main.py`). The board watches the current drawn by a
target board and shows on its RGB LED a colour that a classifier derives from
that current. Three pieces of sequential logic are modelled and proved:

- **Colour debounce** (module `Debounce`). The module-level pair
  `previous_rgb_list` / `rgb_equal_counter` becomes the class
  `Debounce.Debouncer`, with fields `previous` and `equalCounter` and a ghost
  `Trace` of the colours fed to it so far. Its invariant ties the fields to
  `Run(Trace)`, which folds the one-step function `Next` over the trace from
  `((0,0,0), 0)`. `Displays(cs)` says what each iteration sends to the LED.
  `RunLen` is an independent reference definition: the length of the run of
  equal colours at the end of `[(0,0,0)] + cs`. `RunIsTrailingRun` proves that
  the debounce state is determined by that run. The display lemmas are derived
  from it.
- **Inter-sample sleep clamp** (`Sampling.ClampSleep`), over `real`.
- **Sampling window** (`Sampling.SampleWindow`). The loop of
  `read_target_current_filtered` is written as a method. It consumes an injected
  start time and a sequence of `Tick`s. Each tick holds the clock before the
  reading, the reading, and the clock after the reading was added to the filter.
- **One main-loop iteration** (`Observer.Iterate`): a window, then the median,
  then the classifier, then the debounce.

An idealised debounce would keep a separate committed colour and commit a new
colour after two agreeing classifications. The code does not do that, and the
model follows the code:

- The code keeps no separate "committed" colour. It sets the LED on every
  iteration in which the counter is at least 2, including repeats of an
  already shown colour.
- A colour other than (0,0,0) is shown only on its third consecutive
  classification, not its second. So `A, A, B, B, B` with `A` not (0,0,0)
  produces one LED update, not two (`SustainedChangeShownOnce`).
  With A equal to (0,0,0) it produces two, the first on the second
  classification (`SustainedChangeFromOff`).
- (0,0,0) is shown after two classifications at the start, because the initial
  previous colour counts as one.

## Model

| member | source | states |
|---|---|---|
| Debounce.Debouncer.constructor | 02_observer_firmware/main.py:137-138 | The debounce starts with previous colour (0,0,0), counter 0 and an empty history. |
| Debounce.Debouncer.Step | 02_observer_firmware/main.py:147-156 | A repeat of the previous colour keeps it and raises the counter by one unless it is already 2. A different colour becomes the previous colour and resets the counter to 0, whatever the old counter was. The counter stays within 0..2. The LED is set exactly when the updated counter is at least 2, and then to the classified colour, which equals the previous colour. The new state is the fold of the whole history. |
| Debounce.RunClassifications | 02_observer_firmware/main.py:137-156 | Running the main loop from start-up over a finite sequence of classifications sends to the LED exactly `Displays` of that sequence. |
| Debounce.RunCounterBound | 02_observer_firmware/main.py:138-152 | On every trace from the initial state the counter is at most 2. |
| Debounce.DisplaysAt | 02_observer_firmware/main.py:139-156 | Iteration n sends to the LED what the state after the first n+1 classifications dictates, and the colour it sends is the n-th classification. |
| Debounce.RunIsTrailingRun | 02_observer_firmware/main.py:137-152 | After any trace, the previous colour is its last colour (or (0,0,0) if it is empty). The counter is the length of the trailing run of equal colours in `[(0,0,0)] + trace`, minus one, capped at 2. |
| Debounce.ShownIffRunOfThree | 02_observer_firmware/main.py:147-156 | Iteration n sets the LED if and only if that trailing run has at least three elements. |
| Debounce.ShownNonOff | 02_observer_firmware/main.py:137-155 | A colour other than (0,0,0) is shown at iteration n if and only if iterations n-2, n-1 and n all classified it. |
| Debounce.ShownOff | 02_observer_firmware/main.py:137-155 | (0,0,0) is shown at iteration n if and only if iteration n-1 also classified it and either n is 1 or iteration n-2 classified it too. So at start-up two classifications suffice. |
| Debounce.ShownNeedsRepeat | 02_observer_firmware/main.py:147-155 | No iteration sets the LED unless the previous iteration classified the same colour. |
| Debounce.ChangeRestartsRun | 02_observer_firmware/main.py:150-155 | After a change of colour, neither that iteration nor the next one sets the LED. This includes a first classification other than the initial (0,0,0). A single outlier is never shown, and it restarts the run of the colour around it. |
| Debounce.RepeatIsShownAgain | 02_observer_firmware/main.py:148-155 | Once an iteration sets the LED, an identical next classification sets it again. Repeated output is not suppressed. |
| Debounce.FlickerIsSuppressed | 02_observer_firmware/main.py:137-155 | For A != B, the sequence A, B, A, A, A sets the LED only on the last iteration, to A. |
| Debounce.SustainedChangeShownOnce | 02_observer_firmware/main.py:137-155 | For A != B and A not (0,0,0), the sequence A, A, B, B, B never shows A and shows B once, on its third classification. |
| Debounce.SustainedChangeFromOff | 02_observer_firmware/main.py:137-155 | For B not (0,0,0), the sequence (0,0,0), (0,0,0), B, B, B shows (0,0,0) on the second iteration and B on the fifth, and nothing else. |
| Sampling.ClampSleep | 02_observer_firmware/main.py:109-115 | The sleep is `delta - elapsed` when elapsed lies in [0, delta]. It is `delta` when elapsed exceeds delta or is negative. It always lies in [0, delta] for a non-negative delta. |
| Sampling.FirstLate | 02_observer_firmware/main.py:104-106 | Gives the index of the first tick whose clock reading is strictly past the deadline. Every earlier tick is at or before the deadline. |
| Sampling.SampleWindow | 02_observer_firmware/main.py:96-117 | The window adds a sample before it tests the deadline. It closes exactly at the first clock reading strictly past `start + 0.200`. When it closes, it has added exactly one more sample than the index of that reading, so at least one. The samples are the readings in order. Every sleep is the clamped remainder of 0.015 s for its tick. |
| Observer.Iterate | 02_observer_firmware/main.py:119-156 | A closed window feeds the classified median of its samples to the debounce, and the LED receives what `Displays` prescribes for the extended history. A window that has not closed changes nothing. |

## Left out

- Hardware and power set-up (`main.py` lines 1-83): radio, supervisor, I2C, INA260, UART, NeoPixel and USB. These are fixed I/O calls with no decisions.
- `list_i2c_devices_addresses`: it is bus I/O, and the firmware never calls it.
- `read_target_current`: the sensor transaction and its scaling are I/O. Each reading is an input value carried in a `Tick`.
- `filter.FilterMedian` and `decision_tree_custom.predict`: their code is not part of this model. They are the uninterpreted function parameters `median` and `predict` of `Observer.Iterate`.
- Observer.Iterate: assumes that the median covers only the current window's samples. Whether `get_end_stats` clears the module-level filter's buffer is decided by the filter module, which is not modelled.
- `time.monotonic` and `time.sleep`: clock values are inputs. The sleeps are returned, but not related to later clock values.
- Window duration: the model relates no sleep to later clock readings, so it states no upper bound on how long a window lasts. It proves only that the window closes at a clock reading past `start + 0.200`. The source bounds the overrun only by one clamped sleep (at most 0.015 s) plus the latency of the last reading, and that latency can be arbitrarily long.
- Sampling.SampleWindow: the injected ticks are finite, so the method can run out of them before the deadline passes. It then reports `closed == false`. The firmware's clock always advances, so it never reaches that case.
- Floating-point arithmetic: times and currents are `real`, so rounding in `delta - elapsed` and in the deadline comparison is not modelled.
- Channel width: colour channels are unbounded integers, since the classifier's output range is not visible. Equality of triples is all the debounce uses.
- The diagnostic print line and its six-decimal formatting. The unused variables `r`, `g`, `b`, `rx_new_rgb_values`, `tx_new_rgb_values` and `command`.
- The endless `while True` loop: the model covers one iteration (`Observer.Iterate`) and finite prefixes of the classification stream (`Debounce.RunClassifications`, `Debounce.Displays`).
