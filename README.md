# Overheat alarm of the MLX90640 thermal camera, in Dafny

The repository polls a 32 x 24 infrared sensor and raises an overheat alarm in two stages.

1. A **spatial hotspot filter** (`get_max_temp_filtered`) reduces each frame to a reading.
2. A **temporal hysteresis** in the main loop accumulates the time spent overheated. It holds the accumulated time during a grace period after the last high reading, resets once that period has passed, and confirms the alarm once the accumulated time reaches the required duration.

The pipeline exists in two versions, and both are modelled:

- `monitoring.py`, the current version. A pixel counts only if it is above the threshold and has at least two warm neighbours. The reading is `(max, hot count, average)`.
- `code_V1.py`, the earlier version. It takes a running maximum over the pixels that have at least one warm neighbour, and it does not compare the pixel itself with the threshold.

Modules:

- `Grid` (grid.dfy) holds the frame geometry: row-major index, the four neighbour offsets, and the count of warm in-grid neighbours.
- `Stats` (stats.dfy) holds the running maximum, sum and mean.
- `Hysteresis` (hysteresis.dfy) holds the state both versions share:
  - `AlarmState`: `overheat_accumulator`, `last_high_temp_time`, `alarm_active`;
  - `MonitorState`: that state plus `last_check_time`;
  - `Poll`: one clock reading and one acquired frame, or `None` for a `ValueError`;
  - the invariant `Consistent`.
- `MonitoringDetector` and `MonitoringAlarm` model monitoring.py. `V1Detector` and `V1Alarm` model code_V1.py.

Each detector is a method with the source's nested row/column loops. It is proved equal to a specification function (`Filtered`), and lemmas state what that function means.

Each main loop is a class `Monitor` with the four module-level variables as fields. Its `Tick(now, frame)` method is proved equal to the pure function `TickSpec`:

- `TickSpec` measures `dt` and advances `last_check_time`;
- it then skips the pass on a failed acquisition;
- otherwise it applies `Step`, the alarm update.

`Run` folds `TickSpec` over a sequence of polls. The lemmas about `Run` state the properties that span several ticks.

The clock (`time.monotonic`) and the frame source (`mlx.getFrame`) are parameters of `Tick`. What a tick prints is returned as an `Event`, carrying the values the message shows; `Quiet` means nothing is printed. Temperatures and times are exact `real`s.

Where the two files differ, or the code does something easy to overlook, the model follows each file as written:

- monitoring.py prints the reset message unconditionally (monitoring.py:93). code_V1.py prints it only when the accumulator was positive (code_V1.py:92-93). `MonitoringAlarm.Step` always emits `Reset`; `V1Alarm.Step` gates it.
- Both detectors compute the warm level as `threshold - 5.0` themselves. The constant `NEIGHBOR_THRESHOLD` (monitoring.py:9) is never used.
- An overheated tick adds `dt`, which is 0 when two clock readings coincide, so the accumulator grows by exactly `dt` and not necessarily strictly.

`Tick` requires `now >= lastCheckTime`, which is the guarantee of a monotonic clock. Under it, the class keeps `Consistent`:

- the accumulator is at least 0;
- an active alarm has accumulated at least the required duration;
- with no last-high time, the accumulator is 0 and the alarm is off.

## Model

| member | source | states |
|---|---|---|
| Grid.IndexCoordinates | monitoring.py:35-38 | the row-major position `y*32+x` of an in-grid pixel gives back `x` and `y` by `% 32` and `/ 32` |
| Grid.WarmCount | monitoring.py:43-49 | counting over the first k neighbour offsets never yields more than k warm neighbours |
| Grid.WarmNeighborsUnfold | monitoring.py:44-49 | the warm-neighbour count is the sum of the four per-offset tests (right, left, down, up), each skipped when outside the grid |
| Grid.WarmNeighborsIsWarmSetSize | monitoring.py:43-49 | the warm-neighbour count equals the number of in-grid up/down/left/right neighbours whose value exceeds the warm level: the offset walk neither misses nor repeats one |
| Grid.WarmPartsSize | monitoring.py:44-49 | the four offsets name four distinct neighbours, so the per-offset tests add up to the size of their union |
| Grid.WarmSetWithinParts | monitoring.py:44-47 | every in-grid direct neighbour is reached by one of the four offsets |
| Grid.PartsWithinWarmSet | monitoring.py:44-49 | each neighbour an offset test counts is an in-grid direct neighbour above the warm level |
| Grid.WarmNeighborsPositiveIff | code_V1.py:46-53 | at least one warm neighbour is counted iff some in-grid up/down/left/right neighbour exceeds the warm level; out-of-grid neighbours are absent, not defaulted |
| Grid.CountWarmNeighbors | monitoring.py:43-49 | the `hot_neighbors` loop returns the number of in-grid four-neighbours warmer than `threshold - 5.0`, at most 4 |
| Stats.RunningMaxIsMaximum | monitoring.py:31-54 | the `if val > max_detected` running maximum started at -100.0 is max(-100.0, max of the values): it bounds the start and every value and equals the start or one of the values |
| Stats.SumBounds | monitoring.py:58 | a non-empty sum of values strictly above `lo` and at most `hi` lies strictly above `n*lo` and at most at `n*hi` |
| Stats.MeanBetween | monitoring.py:58 | the mean of values strictly above `lo` and at most `hi` lies strictly above `lo` and at most at `hi` |
| Stats.CardinalityStep | monitoring.py:55 | appending one more position to a set of earlier positions adds exactly one element, so the list length tracks the number of qualifying pixels |
| Hysteresis.MonotoneLast | monitoring.py:64-66 | on a clock that never goes back, the last reading of a run is not before its start |
| MonitoringDetector.IsHotspot | monitoring.py:41-52 | the qualification test: the pixel exceeds the threshold and at least two in-grid four-neighbours exceed `threshold - 5.0`; characterised by `HotspotIffTwoWarmNeighbours`, `IsolatedPixelIsNotHotspot`, `CornerNeedsBothNeighbours` and `TwoByTwoBlockQualifies` |
| MonitoringDetector.Filtered | monitoring.py:30-60 | the returned triple: running maximum from -100.0 over the hot list, its length, and its mean or -100.0 when empty; characterised by `GetMaxTempFiltered`'s contract, `HotValuesAreHotspots` and `HotCountIsNumberOfHotspots` |
| MonitoringDetector.HotValues | monitoring.py:32-55 | the hot list over the first n pixels has at most n entries |
| MonitoringDetector.HotValuesAreHotspots | monitoring.py:41-55 | a value is in `hot_pixels_list` iff it is the value of a pixel that exceeds the threshold and has at least two warm in-grid neighbours (both directions) |
| MonitoringDetector.HotValuesAboveThreshold | monitoring.py:41 | every collected value exceeds the threshold |
| MonitoringDetector.HotCountIsNumberOfHotspots | monitoring.py:55-59 | `hot_count` equals the cardinality of the set of qualifying pixel positions |
| MonitoringDetector.GetMaxTempFiltered | monitoring.py:30-60 | the nested scan returns `(max_detected, hot_count, avg_hot)` equal to the specification reading. `hot_count` is the number of qualifying pixels, in 0..768. `max_detected` is at least -100.0, at least every qualifying value, and either -100.0 or a qualifying value. With no hotspot, max and average are -100.0. Otherwise `threshold < avg_hot <= max_detected` |
| MonitoringDetector.HotspotIffTwoWarmNeighbours | monitoring.py:41-52 | a pixel is a hotspot iff it exceeds the threshold and at least two of its in-grid up/down/left/right neighbours exceed `threshold - 5.0` |
| MonitoringDetector.IsolatedPixelIsNotHotspot | monitoring.py:43-52 | a pixel whose in-grid neighbours are all at most `threshold - 5.0` is never counted, however hot |
| MonitoringDetector.CornerNeedsBothNeighbours | monitoring.py:44-52 | a corner pixel qualifies iff it exceeds the threshold and both of its two in-grid neighbours are warm |
| MonitoringDetector.WarmCornerMakesHotspot | monitoring.py:41-52 | a pixel above the threshold with one warm horizontal and one warm vertical neighbour qualifies |
| MonitoringDetector.TwoByTwoBlockQualifies | monitoring.py:41-52 | every pixel of a 2 x 2 block above the threshold qualifies |
| MonitoringAlarm.Step | monitoring.py:76-100 | the alarm update of a pass with a frame: accumulate, confirm or report progress when overheated; otherwise no-op, reset past the grace period, or hold; characterised by `OverheatedTickAccumulates`, `ConfirmedOnlyOnSwitch`, `QuietTick` and `StepKeepsConsistent` |
| MonitoringAlarm.TickSpec | monitoring.py:64-72 | `dt` from the previous clock reading, `last_check_time` advanced, then either the `continue` of a failed acquisition or `Step` on the detector's reading; characterised by `FailedAcquisitionSkipsTick`, `OutageDoesNotInflateDt` and `Monitor.Tick` |
| MonitoringAlarm.Run | monitoring.py:63-100 | a run prints one event per pass and ends with `last_check_time` at the last clock reading |
| MonitoringAlarm.OverheatedTickAccumulates | monitoring.py:76-85 | a tick with `max_temp >= 20` and at least one hot pixel adds exactly `dt` and sets the last-high time to `now`. The alarm is then on iff it already was or the accumulator reached 30 s. It prints Confirmed iff the alarm was off and 30 s is reached, Accumulating iff the alarm was off and 30 s is not reached, and nothing iff the alarm was already on |
| MonitoringAlarm.ConfirmedOnlyOnSwitch | monitoring.py:81-83 | ALARM CONFIRMED is printed iff `alarm_active` switches false to true, and that switch happens only with the accumulator at or above 30 s |
| MonitoringAlarm.QuietTick | monitoring.py:87-100 | a tick without overheat changes nothing when there is no last-high time. More than 5 s after the last high, it resets to `(0.0, None, False)` and always prints the reset message with the elapsed time. Otherwise it changes nothing and prints the holding message |
| MonitoringAlarm.StepKeepsConsistent | monitoring.py:76-97 | with `dt >= 0`, accumulator ≥ 0, `alarm_active ⇒ accumulator ≥ 30`, and "no last-high time ⇒ nothing accumulated, no alarm" are preserved |
| MonitoringAlarm.FailedAcquisitionSkipsTick | monitoring.py:64-70 | a `ValueError` pass leaves the alarm state unchanged, prints nothing, and still sets `last_check_time` to `now` |
| MonitoringAlarm.OverheatedIffHotspot | monitoring.py:72-76 | with threshold 20 and at least one hot pixel required, a frame's reading qualifies iff the frame holds at least one hotspot pixel |
| MonitoringAlarm.RunKeepsConsistent | monitoring.py:63-100 | on a monotonic clock every run keeps the alarm state consistent |
| MonitoringAlarm.AlarmedUntilReset | monitoring.py:81-97 | once the alarm is active, no confirmation is printed in a run before a reset message is printed |
| MonitoringAlarm.ConfirmedOncePerEpisode | monitoring.py:81-97 | between any two ALARM CONFIRMED messages of a run a reset message is printed: at most one confirmation per overheat episode |
| MonitoringAlarm.SustainedOverheatAccumulates | monitoring.py:64-82 | over passes that all qualify, on a monotonic clock, the accumulator grows by exactly the elapsed clock time and the last-high time is the last reading. The alarm ends up on iff it was on or the accumulator reached 30 s |
| MonitoringAlarm.GraceHoldsState | monitoring.py:98-100 | passes that fail or do not qualify, each at most 5 s after the last high, leave the alarm state unchanged and print only holding messages or nothing |
| MonitoringAlarm.IdleStaysQuiet | monitoring.py:87-97 | after a reset, passes without overheat change nothing and print nothing, so the reset message appears once |
| MonitoringAlarm.OutageFreezesState | monitoring.py:64-70 | a run of failed acquisitions leaves the alarm state unchanged and prints nothing |
| MonitoringAlarm.OutageDoesNotInflateDt | monitoring.py:64-78 | after an outage, the next qualifying pass adds only the time since the last failed attempt, not the whole outage |
| MonitoringAlarm.RunAppend | monitoring.py:63 | running two poll sequences one after the other equals running their concatenation |
| MonitoringAlarm.Monitor.constructor | monitoring.py:16-19 | start state: accumulator 0.0, no last-high time, alarm off, `last_check_time` the first clock reading |
| MonitoringAlarm.Monitor.Tick | monitoring.py:63-100 | one pass of the loop updates the four variables and returns the printed message exactly as `TickSpec` says, and keeps the state consistent |
| V1Detector.Supported | code_V1.py:42-56 | the neighbour test: at least one in-grid four-neighbour exceeds `threshold - 5.0`, with no test of the pixel itself; characterised by `Grid.WarmNeighborsPositiveIff` and `HasWarmNeighbor` |
| V1Detector.Filtered | code_V1.py:29-59 | the returned value: running maximum from -100.0 over the supported pixels' values; characterised by `FilteredIsMaximum`, `UniformWarmFrame` and `GetMaxTempFiltered` |
| V1Detector.SupportedValues | code_V1.py:33-57 | the supported values over the first n pixels have at most n entries |
| V1Detector.SupportedValuesAreSupported | code_V1.py:39-57 | a value is among the candidates iff it is the value of a pixel with at least one warm in-grid neighbour |
| V1Detector.FilteredIsMaximum | code_V1.py:30-59 | the result is max(-100.0, largest value of a pixel with a warm neighbour): at least -100.0, at least each such value, and -100.0 or one of them |
| V1Detector.RunningMaxStep | code_V1.py:39-57 | only a pixel with a warm neighbour is folded into the running maximum (as `Max` of the previous maximum and its value); pixels without one leave it unchanged |
| V1Detector.VisitPixel | code_V1.py:39-57 | in scan order a pixel replaces the maximum iff it exceeds it and has a warm neighbour |
| V1Detector.HasWarmNeighbor | code_V1.py:42-53 | the `is_valid` loop with its early `break` is true iff at least one in-grid neighbour is warm |
| V1Detector.GetMaxTempFiltered | code_V1.py:29-59 | the nested scan returns `Filtered`: at least -100.0, at least every pixel with a warm neighbour, and either -100.0 or the value of such a pixel |
| V1Detector.UniformWarmFrame | code_V1.py:56 | on a uniform frame of temperature `c > threshold - 5.0` (and above -100) the result is `c`, even below the threshold, because the self-threshold test is disabled |
| V1Alarm.Step | code_V1.py:74-99 | the V1 alarm update: qualify on the maximum alone, accumulate and confirm; otherwise no-op, reset (printed only with a positive accumulator) or hold; characterised by `OverheatedTickAccumulates`, `ConfirmedOnlyOnSwitch`, `QuietTick`, `SilentResetOnlyWhenIdle` and `StepKeepsConsistent` |
| V1Alarm.TickSpec | code_V1.py:62-70 | `dt` and `last_check_time` bookkeeping, then the `continue` of a failed acquisition or `Step` on the detector's result; characterised by `FailedAcquisitionSkipsTick` and `Monitor.Tick` |
| V1Alarm.Run | code_V1.py:61-99 | a run prints one event per pass and ends with `last_check_time` at the last clock reading |
| V1Alarm.OverheatedTickAccumulates | code_V1.py:74-83 | a tick qualifies on `max_temp >= 20` alone. It adds exactly `dt` and sets the last-high time to `now`. The alarm is then on iff it was on or 30 s is reached. Confirmed, Accumulating and nothing are printed as in monitoring.py |
| V1Alarm.ConfirmedOnlyOnSwitch | code_V1.py:79-81 | the confirmation is printed iff the alarm switches on, which happens only at or above 30 s |
| V1Alarm.QuietTick | code_V1.py:85-99 | a tick without overheat changes nothing when there is no last-high time. More than 5 s after the last high, it resets to `(0.0, None, False)` and prints the reset message iff the accumulator was positive. Otherwise it changes nothing and prints the holding message |
| V1Alarm.SilentResetOnlyWhenIdle | code_V1.py:90-96 | in a consistent state a reset that prints nothing had nothing accumulated and no alarm, and the reset of an active alarm is always printed |
| V1Alarm.StepKeepsConsistent | code_V1.py:74-96 | with `dt >= 0` the consistency invariant is preserved |
| V1Alarm.FailedAcquisitionSkipsTick | code_V1.py:62-68 | a `ValueError` pass leaves the alarm state unchanged, prints nothing, and advances `last_check_time` |
| V1Alarm.OverheatedIffSupportedHotPixel | code_V1.py:70-74 | a frame qualifies iff some pixel at or above 20 has a warm neighbour |
| V1Alarm.RunKeepsConsistent | code_V1.py:61-99 | on a monotonic clock every run keeps the alarm state consistent |
| V1Alarm.AlarmedUntilReset | code_V1.py:79-96 | from a consistent active state on a monotonic clock, no confirmation is printed before a reset message; the gated reset never hides the end of an alarm episode |
| V1Alarm.ConfirmedOncePerEpisode | code_V1.py:79-96 | between any two confirmations of a run from a consistent state on a monotonic clock, a reset message is printed |
| V1Alarm.GraceHoldsState | code_V1.py:97-99 | passes that fail or do not qualify, each at most 5 s after the last high, leave the alarm state unchanged and print only holding messages or nothing |
| V1Alarm.Monitor.constructor | code_V1.py:15-18 | start state: accumulator 0.0, no last-high time, alarm off, `last_check_time` the first clock reading |
| V1Alarm.Monitor.Tick | code_V1.py:61-99 | one pass of the loop updates the four variables and returns the printed message exactly as `TickSpec` says, and keeps the state consistent |

## Left out

- Sensor and bus setup, `mlx.getFrame`, `mlx.refresh_rate`, `time.monotonic` and `time.sleep` (monitoring.py:1-4, 20-28, 64, 67-68, 102; code_V1.py:1-4, 19-27, 62, 65-66, 101) are hardware I/O and the clock. The frame, or its failure, and `now` are inputs of `Tick`.
- A failed `getFrame` may leave the frame buffer partly overwritten. Every later successful call overwrites the whole buffer, so the model passes no frame at all for a failed pass.
- The status line, the temperature dump and the ASCII-art grid (monitoring.py:104-131, code_V1.py:103-130) are console output only. So are the frame average `avg_temp` (monitoring.py:73, code_V1.py:71), which feeds only that line, and `status`, which is always "NORMAL".
- Events carry the printed values, but the message texts and their `.1f` rounding are not modelled.
- `PRINT_TEMPERATURES`, `PRINT_ASCIIART`, `DISTANCE_MODE` and `NEIGHBOR_THRESHOLD` are configuration constants that the modelled code never reads.
- image.py, imageV2.py, image_VFINAL.py, image_numpy.py and image_conv.py are not part of this model. They hold pygame rendering, colour palettes, smoothing filters and contrast mapping, all floating-point visualisation over external libraries.
- Floating-point rounding is left out: times and temperatures are exact reals. This covers the accumulator additions and the mean `sum(...) / len(...)`. The bound `threshold < avg_hot <= max_detected` (`GetMaxTempFiltered`, `Stats.MeanBetween`) is an exact-arithmetic property; in IEEE doubles a rounded mean of equal values can exceed their maximum by one unit in the last place.
- No ceiling on `dt` is added, as there is none in the source. A long gap between passes is credited in full.
