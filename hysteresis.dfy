/** The alarm state both versions keep in module-level variables, and the poll inputs
    that drive it. */
module Hysteresis {
  import opened Wrappers
  import opened Grid

  /** `overheat_accumulator`, `last_high_temp_time` and `alarm_active`. */
  datatype AlarmState = AlarmState(accumulator: real, lastHighTime: Option<real>, alarmActive: bool)

  /** The values the program starts with and returns to on a reset. */
  const Initial: AlarmState := AlarmState(0.0, None, false)

  /** The alarm state together with `last_check_time`. */
  datatype MonitorState = MonitorState(alarm: AlarmState, lastCheckTime: real)

  /** One poll of the main loop: the clock reading and the acquired frame, or None when
      the acquisition raised ValueError. */
  datatype Poll = Poll(now: real, frame: Option<seq<real>>)

  /** The accumulator is non-negative, an active alarm has accumulated the required
      duration, and without a last-high time nothing has been accumulated. */
  predicate Consistent(s: AlarmState, required: real) {
    && s.accumulator >= 0.0
    && (s.alarmActive ==> s.accumulator >= required)
    && (s.lastHighTime.None? ==> s.accumulator == 0.0 && !s.alarmActive)
  }

  /** Every acquired frame has the sensor's size. */
  predicate WellSized(polls: seq<Poll>) {
    forall i :: 0 <= i < |polls| ==> (polls[i].frame.Some? ==> |polls[i].frame.value| == FrameSize)
  }

  /** The clock readings never decrease, starting from `start`. */
  predicate Monotone(start: real, polls: seq<Poll>)
    decreases |polls|
  {
    polls == [] || (start <= polls[0].now && Monotone(polls[0].now, polls[1..]))
  }

  /** No poll acquires a frame. */
  predicate AllFailed(polls: seq<Poll>) {
    forall i :: 0 <= i < |polls| ==> polls[i].frame.None?
  }

  /** The last clock reading of a monotone run is not earlier than its start. */
  lemma {:induction false} MonotoneLast(start: real, polls: seq<Poll>)
    requires polls != [] && Monotone(start, polls)
    ensures start <= polls[|polls| - 1].now
    decreases |polls|
  {
    if |polls| > 1 {
      MonotoneLast(polls[0].now, polls[1..]);
    }
  }
}
