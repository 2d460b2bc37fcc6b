/** The temporal hysteresis of code_V1.py's main loop. It differs from monitoring.py in
    qualifying on the maximum alone and in printing the reset message only when something
    had been accumulated. */
module V1Alarm {
  import opened Wrappers
  import opened Grid
  import opened Hysteresis
  import Stats
  import D = V1Detector

  const AlarmThreshold: real := 20.0
  const RequiredDuration: real := 30.0
  const GracePeriod: real := 5.0

  /** The message a tick prints, with the values it prints; Quiet when it prints none. */
  datatype Event =
    | Confirmed(maxTemp: real)
    | Accumulating(accumulator: real)
    | Holding(accumulator: real)
    | Reset
    | Quiet

  predicate Overheated(maxTemp: real) {
    maxTemp >= AlarmThreshold
  }

  /** The alarm update of one tick with a successfully acquired frame. */
  function Step(s: AlarmState, maxTemp: real, now: real, dt: real): (AlarmState, Event) {
    if Overheated(maxTemp) then
      var acc := s.accumulator + dt;
      if acc >= RequiredDuration && !s.alarmActive then
        (AlarmState(acc, Some(now), true), Confirmed(maxTemp))
      else if !s.alarmActive then
        (AlarmState(acc, Some(now), false), Accumulating(acc))
      else
        (AlarmState(acc, Some(now), true), Quiet)
    else
      match s.lastHighTime
      case None => (s, Quiet)
      case Some(t) =>
        if now - t > GracePeriod then (Initial, if s.accumulator > 0.0 then Reset else Quiet)
        else (s, Holding(s.accumulator))
  }

  /** One pass of the main loop: `dt` is measured and `last_check_time` advanced before the
      acquisition; a failed acquisition skips the rest of the pass. */
  function TickSpec(m: MonitorState, p: Poll): (MonitorState, Event)
    requires p.frame.Some? ==> |p.frame.value| == FrameSize
  {
    var dt := p.now - m.lastCheckTime;
    match p.frame
    case None => (MonitorState(m.alarm, p.now), Quiet)
    case Some(frame) =>
      var (a, e) := Step(m.alarm, D.Filtered(frame, AlarmThreshold), p.now, dt);
      (MonitorState(a, p.now), e)
  }

  /** The final state and the printed events of a sequence of passes. */
  function Run(m: MonitorState, polls: seq<Poll>): (r: (MonitorState, seq<Event>))
    requires WellSized(polls)
    ensures |r.1| == |polls|
    ensures polls != [] ==> r.0.lastCheckTime == polls[|polls| - 1].now
    decreases |polls|
  {
    if polls == [] then (m, [])
    else
      var (m1, e) := TickSpec(m, polls[0]);
      var (mf, es) := Run(m1, polls[1..]);
      (mf, [e] + es)
  }

  /** Every pass either fails to acquire or reads no overheat; those that read a frame are
      no later than the grace period after `t`. */
  predicate WithinGrace(polls: seq<Poll>, t: real)
    requires WellSized(polls)
  {
    forall i :: 0 <= i < |polls| ==>
      polls[i].frame.Some? ==> !Overheated(D.Filtered(polls[i].frame.value, AlarmThreshold)) && polls[i].now - t <= GracePeriod
  }

  // ---------------------------------------------------------------------------
  // One tick

  /** An overheated tick adds exactly `dt`, records `now`, raises the alarm once the
      required duration is reached, and prints accordingly. */
  lemma OverheatedTickAccumulates(s: AlarmState, maxTemp: real, now: real, dt: real)
    requires Overheated(maxTemp)
    ensures var (ns, ev) := Step(s, maxTemp, now, dt);
      && ns.accumulator == s.accumulator + dt
      && ns.lastHighTime == Some(now)
      && ns.alarmActive == (s.alarmActive || ns.accumulator >= RequiredDuration)
      && (ev.Confirmed? <==> !s.alarmActive && ns.accumulator >= RequiredDuration)
      && (ev.Accumulating? <==> !s.alarmActive && ns.accumulator < RequiredDuration)
      && (ev.Quiet? <==> s.alarmActive)
  {
  }

  /** The alarm is confirmed exactly when the flag switches from false to true, which
      happens only once the accumulator has reached the required duration. */
  lemma ConfirmedOnlyOnSwitch(s: AlarmState, maxTemp: real, now: real, dt: real)
    ensures var (ns, ev) := Step(s, maxTemp, now, dt);
      && (ev.Confirmed? <==> !s.alarmActive && ns.alarmActive)
      && (!s.alarmActive && ns.alarmActive ==> ns.accumulator >= RequiredDuration)
  {
  }

  /** A tick without overheat: nothing changes before any overheat; past the grace period
      the state resets and the reset message is printed iff the accumulator was positive;
      within it nothing changes. */
  lemma QuietTick(s: AlarmState, maxTemp: real, now: real, dt: real)
    requires !Overheated(maxTemp)
    ensures var (ns, ev) := Step(s, maxTemp, now, dt);
      && (s.lastHighTime.None? ==> ns == s && ev == Quiet)
      && (s.lastHighTime.Some? && now - s.lastHighTime.value > GracePeriod ==>
            ns == Initial && (ev == Reset <==> s.accumulator > 0.0) && (ev != Reset ==> ev == Quiet))
      && (s.lastHighTime.Some? && now - s.lastHighTime.value <= GracePeriod ==>
            ns == s && ev == Holding(s.accumulator))
  {
  }

  /** In a consistent state a reset that prints nothing leaves every field but the
      last-high time as it was, and a reset of an active alarm is always printed. */
  lemma SilentResetOnlyWhenIdle(s: AlarmState, maxTemp: real, now: real, dt: real)
    requires Consistent(s, RequiredDuration)
    requires !Overheated(maxTemp) && s.lastHighTime.Some? && now - s.lastHighTime.value > GracePeriod
    ensures Step(s, maxTemp, now, dt).1 == Quiet ==> s.accumulator == 0.0 && !s.alarmActive
    ensures s.alarmActive ==> Step(s, maxTemp, now, dt).1 == Reset
  {
  }

  /** With a non-negative `dt` every tick keeps the alarm state consistent. */
  lemma StepKeepsConsistent(s: AlarmState, maxTemp: real, now: real, dt: real)
    requires Consistent(s, RequiredDuration) && dt >= 0.0
    ensures Consistent(Step(s, maxTemp, now, dt).0, RequiredDuration)
  {
  }

  /** A failed acquisition leaves the alarm state alone but still advances `last_check_time`. */
  lemma FailedAcquisitionSkipsTick(m: MonitorState, p: Poll)
    requires p.frame.None?
    ensures TickSpec(m, p) == (MonitorState(m.alarm, p.now), Quiet)
  {
  }

  /** A frame is overheated iff some pixel at or above the alarm threshold has a warm
      neighbour: the pixel's own temperature is compared only through the maximum. */
  lemma OverheatedIffSupportedHotPixel(frame: seq<real>)
    requires |frame| == FrameSize
    ensures Overheated(D.Filtered(frame, AlarmThreshold)) <==>
      exists i :: 0 <= i < FrameSize && D.Supported(frame, AlarmThreshold, i) && frame[i] >= AlarmThreshold
  {
    var vs := D.SupportedValues(frame, AlarmThreshold, FrameSize);
    D.SupportedValuesAreSupported(frame, AlarmThreshold, FrameSize);
    Stats.RunningMaxIsMaximum(D.Sentinel, vs);
    if exists i :: 0 <= i < FrameSize && D.Supported(frame, AlarmThreshold, i) && frame[i] >= AlarmThreshold {
      var i :| 0 <= i < FrameSize && D.Supported(frame, AlarmThreshold, i) && frame[i] >= AlarmThreshold;
      assert frame[i] in vs;
    }
  }

  // ---------------------------------------------------------------------------
  // Sequences of ticks

  /** A clock that never goes back keeps the alarm state consistent over any run. */
  lemma {:induction false} RunKeepsConsistent(m: MonitorState, polls: seq<Poll>)
    requires WellSized(polls) && Consistent(m.alarm, RequiredDuration) && Monotone(m.lastCheckTime, polls)
    ensures Consistent(Run(m, polls).0.alarm, RequiredDuration)
    decreases |polls|
  {
    if polls != [] {
      var m1 := TickSpec(m, polls[0]).0;
      if polls[0].frame.Some? {
        StepKeepsConsistent(m.alarm, D.Filtered(polls[0].frame.value, AlarmThreshold), polls[0].now, polls[0].now - m.lastCheckTime);
      }
      RunKeepsConsistent(m1, polls[1..]);
    }
  }

  /** While the alarm is active no confirmation is printed before a reset is printed; this
      needs the accumulator of an active alarm to be positive, so that its reset is not the
      silent kind. */
  lemma {:induction false} AlarmedUntilReset(m: MonitorState, polls: seq<Poll>)
    requires WellSized(polls) && m.alarm.alarmActive
    requires Consistent(m.alarm, RequiredDuration) && Monotone(m.lastCheckTime, polls)
    ensures forall j :: 0 <= j < |polls| && Run(m, polls).1[j].Confirmed? ==>
      exists k :: 0 <= k < j && Run(m, polls).1[k].Reset?
    decreases |polls|
  {
    if polls != [] {
      var (m1, e) := TickSpec(m, polls[0]);
      var es := Run(m, polls).1;
      var rest := Run(m1, polls[1..]).1;
      assert es == [e] + rest;
      if e.Reset? {
        forall j | 0 < j < |es| && es[j].Confirmed? ensures exists k :: 0 <= k < j && es[k].Reset? {
          assert es[0].Reset?;
        }
      } else {
        if polls[0].frame.Some? {
          StepKeepsConsistent(m.alarm, D.Filtered(polls[0].frame.value, AlarmThreshold), polls[0].now, polls[0].now - m.lastCheckTime);
        }
        assert m1.alarm.alarmActive && !e.Confirmed?;
        AlarmedUntilReset(m1, polls[1..]);
        forall j | 0 < j < |es| && es[j].Confirmed? ensures exists k :: 0 <= k < j && es[k].Reset? {
          assert rest[j - 1].Confirmed?;
          var k :| 0 <= k < j - 1 && rest[k].Reset?;
          assert es[k + 1] == rest[k];
        }
      }
    }
  }

  /** Between any two confirmations of a run from a consistent state on a monotone clock a
      reset message is printed: the alarm is confirmed at most once per overheat episode. */
  lemma {:induction false} ConfirmedOncePerEpisode(m: MonitorState, polls: seq<Poll>)
    requires WellSized(polls) && Consistent(m.alarm, RequiredDuration) && Monotone(m.lastCheckTime, polls)
    ensures forall i, j :: 0 <= i < j < |polls| && Run(m, polls).1[i].Confirmed? && Run(m, polls).1[j].Confirmed? ==>
      exists k :: i < k < j && Run(m, polls).1[k].Reset?
    decreases |polls|
  {
    if polls != [] {
      var (m1, e) := TickSpec(m, polls[0]);
      var es := Run(m, polls).1;
      var rest := Run(m1, polls[1..]).1;
      assert es == [e] + rest;
      if polls[0].frame.Some? {
        StepKeepsConsistent(m.alarm, D.Filtered(polls[0].frame.value, AlarmThreshold), polls[0].now, polls[0].now - m.lastCheckTime);
      }
      ConfirmedOncePerEpisode(m1, polls[1..]);
      if e.Confirmed? {
        AlarmedUntilReset(m1, polls[1..]);
      }
      forall i, j | 0 <= i < j < |es| && es[i].Confirmed? && es[j].Confirmed? ensures exists k :: i < k < j && es[k].Reset? {
        assert rest[j - 1].Confirmed?;
        if i == 0 {
          var k :| 0 <= k < j - 1 && rest[k].Reset?;
          assert es[k + 1] == rest[k];
        } else {
          assert rest[i - 1].Confirmed?;
          var k :| i - 1 < k < j - 1 && rest[k].Reset?;
          assert es[k + 1] == rest[k];
        }
      }
    }
  }

  /** Dips shorter than the grace period after the last high reading change nothing: the
      accumulator is held and only hold messages (or nothing) are printed. */
  lemma {:induction false} GraceHoldsState(m: MonitorState, polls: seq<Poll>, t: real)
    requires WellSized(polls) && m.alarm.lastHighTime == Some(t) && WithinGrace(polls, t)
    ensures Run(m, polls).0.alarm == m.alarm
    ensures forall j :: 0 <= j < |polls| ==> Run(m, polls).1[j].Holding? || Run(m, polls).1[j].Quiet?
    decreases |polls|
  {
    if polls != [] {
      var (m1, e) := TickSpec(m, polls[0]);
      var tail := polls[1..];
      assert WithinGrace(tail, t) by {
        assert forall i :: 0 <= i < |tail| ==> tail[i] == polls[i + 1];
      }
      GraceHoldsState(m1, tail, t);
      assert Run(m, polls).1 == [e] + Run(m1, tail).1;
    }
  }

  // ---------------------------------------------------------------------------
  // The main loop's module-level state

  class Monitor {
    var accumulator: real
    var lastHighTime: Option<real>
    var alarmActive: bool
    var lastCheckTime: real

    function State(): MonitorState
      reads this
    {
      MonitorState(AlarmState(accumulator, lastHighTime, alarmActive), lastCheckTime)
    }

    ghost predicate Valid()
      reads this
    {
      Consistent(State().alarm, RequiredDuration)
    }

    /** The module-level initialisation, with `start` the first clock reading. */
    constructor (start: real)
      ensures Valid()
      ensures State() == MonitorState(Initial, start)
    {
      accumulator := 0.0;
      lastHighTime := None;
      alarmActive := false;
      lastCheckTime := start;
    }

    /** One pass of `while True`, with the clock reading and the acquired frame (None for a
        ValueError) as inputs; returns the message printed. */
    method Tick(now: real, frame: Option<seq<real>>) returns (ev: Event)
      requires Valid()
      requires lastCheckTime <= now
      requires frame.Some? ==> |frame.value| == FrameSize
      modifies this
      ensures Valid()
      ensures (State(), ev) == TickSpec(old(State()), Poll(now, frame))
    {
      var dt := now - lastCheckTime;
      lastCheckTime := now;
      if frame.None? {
        return Quiet;
      }
      var maxTemp := D.GetMaxTempFiltered(frame.value, AlarmThreshold);

      if maxTemp >= AlarmThreshold {
        accumulator := accumulator + dt;
        lastHighTime := Some(now);
        if accumulator >= RequiredDuration && !alarmActive {
          alarmActive := true;
          ev := Confirmed(maxTemp);
        } else if !alarmActive {
          ev := Accumulating(accumulator);
        } else {
          ev := Quiet;
        }
      } else {
        ev := Quiet;
        if lastHighTime.Some? {
          if now - lastHighTime.value > GracePeriod {
            if accumulator > 0.0 {
              ev := Reset;
            }
            accumulator := 0.0;
            lastHighTime := None;
            alarmActive := false;
          } else {
            ev := Holding(accumulator);
          }
        }
      }
    }
  }
}
