/** The temporal hysteresis of monitoring.py's main loop: accumulate while overheated, hold
    during a grace period, reset once it has passed. */
module MonitoringAlarm {
  import opened Wrappers
  import opened Grid
  import opened Hysteresis
  import Stats
  import D = MonitoringDetector

  const AlarmThreshold: real := 20.0
  const RequiredDuration: real := 30.0
  const GracePeriod: real := 5.0
  const MinHotPixels: nat := 1

  /** The message a tick prints, with the values it prints; Quiet when it prints none. */
  datatype Event =
    | Confirmed(maxTemp: real, hotCount: nat)
    | Accumulating(accumulator: real, hotCount: nat, maxTemp: real, avgHot: real)
    | Holding(accumulator: real, sinceHigh: real)
    | Reset(sinceHigh: real)
    | Quiet

  /** The tick's reading shows a sustained-overheat candidate. */
  predicate Overheated(r: D.Reading) {
    r.maxTemp >= AlarmThreshold && r.hotCount >= MinHotPixels
  }

  /** The alarm update of one tick with a successfully acquired frame. */
  function Step(s: AlarmState, r: D.Reading, now: real, dt: real): (AlarmState, Event) {
    if Overheated(r) then
      var acc := s.accumulator + dt;
      if acc >= RequiredDuration && !s.alarmActive then
        (AlarmState(acc, Some(now), true), Confirmed(r.maxTemp, r.hotCount))
      else if !s.alarmActive then
        (AlarmState(acc, Some(now), false), Accumulating(acc, r.hotCount, r.maxTemp, r.avgHot))
      else
        (AlarmState(acc, Some(now), true), Quiet)
    else
      match s.lastHighTime
      case None => (s, Quiet)
      case Some(t) =>
        var sinceHigh := now - t;
        if sinceHigh > GracePeriod then (Initial, Reset(sinceHigh))
        else (s, Holding(s.accumulator, sinceHigh))
  }

  /** One pass of the main loop: `dt` is measured and `last_check_time` advanced before the
      acquisition; a failed acquisition skips the rest of the pass. */
  function TickSpec(m: MonitorState, p: Poll): (MonitorState, Event)
    requires p.frame.Some? ==> |p.frame.value| == FrameSize
  {
    var dt := p.now - m.lastCheckTime;
    match p.frame
    case None => (MonitorState(m.alarm, p.now), Quiet)
    case Some(frame) =>
      var (a, e) := Step(m.alarm, D.Filtered(frame, AlarmThreshold), p.now, dt);
      (MonitorState(a, p.now), e)
  }

  /** The final state and the printed events of a sequence of passes. */
  function Run(m: MonitorState, polls: seq<Poll>): (r: (MonitorState, seq<Event>))
    requires WellSized(polls)
    ensures |r.1| == |polls|
    ensures polls != [] ==> r.0.lastCheckTime == polls[|polls| - 1].now
    decreases |polls|
  {
    if polls == [] then (m, [])
    else
      var (m1, e) := TickSpec(m, polls[0]);
      var (mf, es) := Run(m1, polls[1..]);
      (mf, [e] + es)
  }

  /** Every pass acquires a frame whose reading is overheated. */
  predicate AllOverheated(polls: seq<Poll>)
    requires WellSized(polls)
  {
    forall i :: 0 <= i < |polls| ==> polls[i].frame.Some? && Overheated(D.Filtered(polls[i].frame.value, AlarmThreshold))
  }

  /** Every pass either fails to acquire or reads no overheat; those that read a frame are
      no later than the grace period after `t`. */
  predicate WithinGrace(polls: seq<Poll>, t: real)
    requires WellSized(polls)
  {
    forall i :: 0 <= i < |polls| ==>
      polls[i].frame.Some? ==> !Overheated(D.Filtered(polls[i].frame.value, AlarmThreshold)) && polls[i].now - t <= GracePeriod
  }

  /** Every pass either fails to acquire or reads no overheat. */
  predicate NeverOverheated(polls: seq<Poll>)
    requires WellSized(polls)
  {
    forall i :: 0 <= i < |polls| ==>
      polls[i].frame.Some? ==> !Overheated(D.Filtered(polls[i].frame.value, AlarmThreshold))
  }

  // ---------------------------------------------------------------------------
  // One tick

  /** An overheated tick adds exactly `dt`, records `now`, raises the alarm once the
      required duration is reached, and prints accordingly. */
  lemma OverheatedTickAccumulates(s: AlarmState, r: D.Reading, now: real, dt: real)
    requires Overheated(r)
    ensures var (ns, ev) := Step(s, r, now, dt);
      && ns.accumulator == s.accumulator + dt
      && ns.lastHighTime == Some(now)
      && ns.alarmActive == (s.alarmActive || ns.accumulator >= RequiredDuration)
      && (ev.Confirmed? <==> !s.alarmActive && ns.accumulator >= RequiredDuration)
      && (ev.Accumulating? <==> !s.alarmActive && ns.accumulator < RequiredDuration)
      && (ev.Quiet? <==> s.alarmActive)
  {
  }

  /** ALARM CONFIRMED is printed exactly when the flag switches from false to true, which
      happens only once the accumulator has reached the required duration. */
  lemma ConfirmedOnlyOnSwitch(s: AlarmState, r: D.Reading, now: real, dt: real)
    ensures var (ns, ev) := Step(s, r, now, dt);
      && (ev.Confirmed? <==> !s.alarmActive && ns.alarmActive)
      && (!s.alarmActive && ns.alarmActive ==> ns.accumulator >= RequiredDuration)
  {
  }

  /** A tick without overheat: nothing changes before any overheat, the state resets once
      the grace period has passed, and otherwise it is held. */
  lemma QuietTick(s: AlarmState, r: D.Reading, now: real, dt: real)
    requires !Overheated(r)
    ensures var (ns, ev) := Step(s, r, now, dt);
      && (s.lastHighTime.None? ==> ns == s && ev == Quiet)
      && (s.lastHighTime.Some? && now - s.lastHighTime.value > GracePeriod ==>
            ns == Initial && ev == Reset(now - s.lastHighTime.value))
      && (s.lastHighTime.Some? && now - s.lastHighTime.value <= GracePeriod ==>
            ns == s && ev == Holding(s.accumulator, now - s.lastHighTime.value))
  {
  }

  /** With a non-negative `dt` every tick keeps the alarm state consistent. */
  lemma StepKeepsConsistent(s: AlarmState, r: D.Reading, now: real, dt: real)
    requires Consistent(s, RequiredDuration) && dt >= 0.0
    ensures Consistent(Step(s, r, now, dt).0, RequiredDuration)
  {
  }

  /** A failed acquisition leaves the alarm state alone but still advances `last_check_time`. */
  lemma FailedAcquisitionSkipsTick(m: MonitorState, p: Poll)
    requires p.frame.None?
    ensures TickSpec(m, p) == (MonitorState(m.alarm, p.now), Quiet)
  {
  }

  /** With the configured threshold a reading is overheated iff the frame holds a hotspot pixel. */
  lemma OverheatedIffHotspot(frame: seq<real>)
    requires |frame| == FrameSize
    ensures Overheated(D.Filtered(frame, AlarmThreshold)) <==>
      exists i :: 0 <= i < FrameSize && D.IsHotspot(frame, AlarmThreshold, i)
  {
    var hot := D.HotValues(frame, AlarmThreshold, FrameSize);
    D.HotValuesAreHotspots(frame, AlarmThreshold, FrameSize);
    D.HotCountIsNumberOfHotspots(frame, AlarmThreshold, FrameSize);
    Stats.RunningMaxIsMaximum(D.Sentinel, hot);
    if exists i :: 0 <= i < FrameSize && D.IsHotspot(frame, AlarmThreshold, i) {
      var i :| 0 <= i < FrameSize && D.IsHotspot(frame, AlarmThreshold, i);
      assert frame[i] in hot;
    }
    if Overheated(D.Filtered(frame, AlarmThreshold)) {
      assert hot[0] in hot;
    }
  }

  // ---------------------------------------------------------------------------
  // Sequences of ticks

  /** A clock that never goes back keeps the alarm state consistent over any run. */
  lemma {:induction false} RunKeepsConsistent(m: MonitorState, polls: seq<Poll>)
    requires WellSized(polls) && Consistent(m.alarm, RequiredDuration) && Monotone(m.lastCheckTime, polls)
    ensures Consistent(Run(m, polls).0.alarm, RequiredDuration)
    decreases |polls|
  {
    if polls != [] {
      var m1 := TickSpec(m, polls[0]).0;
      if polls[0].frame.Some? {
        StepKeepsConsistent(m.alarm, D.Filtered(polls[0].frame.value, AlarmThreshold), polls[0].now, polls[0].now - m.lastCheckTime);
      }
      RunKeepsConsistent(m1, polls[1..]);
    }
  }

  /** While the alarm is active no ALARM CONFIRMED is printed before a reset is printed. */
  lemma {:induction false} AlarmedUntilReset(m: MonitorState, polls: seq<Poll>)
    requires WellSized(polls) && m.alarm.alarmActive
    ensures forall j :: 0 <= j < |polls| && Run(m, polls).1[j].Confirmed? ==>
      exists k :: 0 <= k < j && Run(m, polls).1[k].Reset?
    decreases |polls|
  {
    if polls != [] {
      var (m1, e) := TickSpec(m, polls[0]);
      var es := Run(m, polls).1;
      var rest := Run(m1, polls[1..]).1;
      assert es == [e] + rest;
      if e.Reset? {
        forall j | 0 < j < |es| && es[j].Confirmed? ensures exists k :: 0 <= k < j && es[k].Reset? {
          assert es[0].Reset?;
        }
      } else {
        assert m1.alarm.alarmActive && !e.Confirmed?;
        AlarmedUntilReset(m1, polls[1..]);
        forall j | 0 < j < |es| && es[j].Confirmed? ensures exists k :: 0 <= k < j && es[k].Reset? {
          assert rest[j - 1].Confirmed?;
          var k :| 0 <= k < j - 1 && rest[k].Reset?;
          assert es[k + 1] == rest[k];
        }
      }
    }
  }

  /** Between any two ALARM CONFIRMED messages of a run a reset message is printed: the
      alarm is confirmed at most once per overheat episode. */
  lemma {:induction false} ConfirmedOncePerEpisode(m: MonitorState, polls: seq<Poll>)
    requires WellSized(polls)
    ensures forall i, j :: 0 <= i < j < |polls| && Run(m, polls).1[i].Confirmed? && Run(m, polls).1[j].Confirmed? ==>
      exists k :: i < k < j && Run(m, polls).1[k].Reset?
    decreases |polls|
  {
    if polls != [] {
      var (m1, e) := TickSpec(m, polls[0]);
      var es := Run(m, polls).1;
      var rest := Run(m1, polls[1..]).1;
      assert es == [e] + rest;
      ConfirmedOncePerEpisode(m1, polls[1..]);
      if e.Confirmed? {
        AlarmedUntilReset(m1, polls[1..]);
      }
      forall i, j | 0 <= i < j < |es| && es[i].Confirmed? && es[j].Confirmed? ensures exists k :: i < k < j && es[k].Reset? {
        assert rest[j - 1].Confirmed?;
        if i == 0 {
          var k :| 0 <= k < j - 1 && rest[k].Reset?;
          assert es[k + 1] == rest[k];
        } else {
          assert rest[i - 1].Confirmed?;
          var k :| i - 1 < k < j - 1 && rest[k].Reset?;
          assert es[k + 1] == rest[k];
        }
      }
    }
  }

  /** While every pass is overheated the accumulator grows by exactly the elapsed clock time,
      the last-high time is the latest reading, and the alarm is active iff it already was
      or the accumulator has reached the required duration. */
  lemma {:induction false} SustainedOverheatAccumulates(m: MonitorState, polls: seq<Poll>)
    requires WellSized(polls) && polls != [] && AllOverheated(polls) && Monotone(m.lastCheckTime, polls)
    ensures var last := polls[|polls| - 1].now;
            var a := Run(m, polls).0.alarm;
      && a.accumulator == m.alarm.accumulator + (last - m.lastCheckTime)
      && a.lastHighTime == Some(last)
      && a.alarmActive == (m.alarm.alarmActive || a.accumulator >= RequiredDuration)
    decreases |polls|
  {
    var m1 := TickSpec(m, polls[0]).0;
    OverheatedTickAccumulates(m.alarm, D.Filtered(polls[0].frame.value, AlarmThreshold), polls[0].now, polls[0].now - m.lastCheckTime);
    if |polls| > 1 {
      var tail := polls[1..];
      assert AllOverheated(tail) by {
        forall i | 0 <= i < |tail| ensures tail[i].frame.Some? && Overheated(D.Filtered(tail[i].frame.value, AlarmThreshold)) {
          assert tail[i] == polls[i + 1];
        }
      }
      SustainedOverheatAccumulates(m1, tail);
      MonotoneLast(polls[0].now, tail);
    }
  }

  /** Dips shorter than the grace period after the last high reading change nothing: the
      accumulator is held and only hold messages (or nothing) are printed. */
  lemma {:induction false} GraceHoldsState(m: MonitorState, polls: seq<Poll>, t: real)
    requires WellSized(polls) && m.alarm.lastHighTime == Some(t) && WithinGrace(polls, t)
    ensures Run(m, polls).0.alarm == m.alarm
    ensures forall j :: 0 <= j < |polls| ==> Run(m, polls).1[j].Holding? || Run(m, polls).1[j].Quiet?
    decreases |polls|
  {
    if polls != [] {
      var (m1, e) := TickSpec(m, polls[0]);
      var tail := polls[1..];
      assert WithinGrace(tail, t) by {
        assert forall i :: 0 <= i < |tail| ==> tail[i] == polls[i + 1];
      }
      GraceHoldsState(m1, tail, t);
      assert Run(m, polls).1 == [e] + Run(m1, tail).1;
    }
  }

  /** After a reset (no last-high time) passes without overheat change nothing and print
      nothing, so the reset message is printed once. */
  lemma {:induction false} IdleStaysQuiet(m: MonitorState, polls: seq<Poll>)
    requires WellSized(polls) && m.alarm.lastHighTime.None? && NeverOverheated(polls)
    ensures Run(m, polls).0.alarm == m.alarm
    ensures forall j :: 0 <= j < |polls| ==> Run(m, polls).1[j] == Quiet
    decreases |polls|
  {
    if polls != [] {
      var (m1, e) := TickSpec(m, polls[0]);
      var tail := polls[1..];
      assert NeverOverheated(tail) by {
        assert forall i :: 0 <= i < |tail| ==> tail[i] == polls[i + 1];
      }
      IdleStaysQuiet(m1, tail);
      assert Run(m, polls).1 == [e] + Run(m1, tail).1;
    }
  }

  /** An acquisition outage freezes the alarm state and only moves `last_check_time`. */
  lemma {:induction false} OutageFreezesState(m: MonitorState, polls: seq<Poll>)
    requires WellSized(polls) && AllFailed(polls)
    ensures Run(m, polls).0.alarm == m.alarm
    ensures forall j :: 0 <= j < |polls| ==> Run(m, polls).1[j] == Quiet
    decreases |polls|
  {
    if polls != [] {
      var (m1, e) := TickSpec(m, polls[0]);
      var tail := polls[1..];
      assert AllFailed(tail) by {
        assert forall i :: 0 <= i < |tail| ==> tail[i] == polls[i + 1];
      }
      OutageFreezesState(m1, tail);
      assert Run(m, polls).1 == [e] + Run(m1, tail).1;
    }
  }

  /** After an outage the next overheated pass is charged only the time since the last
      failed attempt, not the whole outage. */
  lemma OutageDoesNotInflateDt(m: MonitorState, outage: seq<Poll>, p: Poll)
    requires WellSized(outage) && outage != [] && AllFailed(outage)
    requires p.frame.Some? && |p.frame.value| == FrameSize && Overheated(D.Filtered(p.frame.value, AlarmThreshold))
    ensures WellSized(outage + [p])
    ensures Run(m, outage + [p]).0.alarm.accumulator == m.alarm.accumulator + (p.now - outage[|outage| - 1].now)
  {
    OutageFreezesState(m, outage);
    RunAppend(m, outage, [p]);
  }

  /** Running two sequences of passes one after another is running their concatenation. */
  lemma {:induction false} RunAppend(m: MonitorState, a: seq<Poll>, b: seq<Poll>)
    requires WellSized(a) && WellSized(b)
    ensures WellSized(a + b)
    ensures Run(m, a + b) == (Run(Run(m, a).0, b).0, Run(m, a).1 + Run(Run(m, a).0, b).1)
    decreases |a|
  {
    if a != [] {
      var (m1, e) := TickSpec(m, a[0]);
      var ab := a + b;
      assert ab[0] == a[0];
      assert ab[1..] == a[1..] + b;
      RunAppend(m1, a[1..], b);
      var mid := Run(m1, a[1..]).0;
      assert Run(m, a) == (mid, [e] + Run(m1, a[1..]).1);
      assert Run(m, ab) == (Run(m1, ab[1..]).0, [e] + Run(m1, ab[1..]).1);
      assert Run(m1, ab[1..]) == (Run(mid, b).0, Run(m1, a[1..]).1 + Run(mid, b).1);
      assert [e] + (Run(m1, a[1..]).1 + Run(mid, b).1) == ([e] + Run(m1, a[1..]).1) + Run(mid, b).1;
    } else {
      assert a + b == b;
      assert Run(m, a) == (m, []);
      assert [] + Run(m, b).1 == Run(m, b).1;
    }
  }

  // ---------------------------------------------------------------------------
  // The main loop's module-level state

  class Monitor {
    var accumulator: real
    var lastHighTime: Option<real>
    var alarmActive: bool
    var lastCheckTime: real

    function State(): MonitorState
      reads this
    {
      MonitorState(AlarmState(accumulator, lastHighTime, alarmActive), lastCheckTime)
    }

    ghost predicate Valid()
      reads this
    {
      Consistent(State().alarm, RequiredDuration)
    }

    /** The module-level initialisation, with `start` the first clock reading. */
    constructor (start: real)
      ensures Valid()
      ensures State() == MonitorState(Initial, start)
    {
      accumulator := 0.0;
      lastHighTime := None;
      alarmActive := false;
      lastCheckTime := start;
    }

    /** One pass of `while True`, with the clock reading and the acquired frame (None for a
        ValueError) as inputs; returns the message printed. */
    method Tick(now: real, frame: Option<seq<real>>) returns (ev: Event)
      requires Valid()
      requires lastCheckTime <= now
      requires frame.Some? ==> |frame.value| == FrameSize
      modifies this
      ensures Valid()
      ensures (State(), ev) == TickSpec(old(State()), Poll(now, frame))
    {
      var dt := now - lastCheckTime;
      lastCheckTime := now;
      if frame.None? {
        return Quiet;
      }
      var maxTemp, hotPixelsCount, avgHotTemp := D.GetMaxTempFiltered(frame.value, AlarmThreshold);

      if maxTemp >= AlarmThreshold && hotPixelsCount >= MinHotPixels {
        accumulator := accumulator + dt;
        lastHighTime := Some(now);
        if accumulator >= RequiredDuration && !alarmActive {
          alarmActive := true;
          ev := Confirmed(maxTemp, hotPixelsCount);
        } else if !alarmActive {
          ev := Accumulating(accumulator, hotPixelsCount, maxTemp, avgHotTemp);
        } else {
          ev := Quiet;
        }
      } else {
        if lastHighTime.Some? {
          var sinceHigh := now - lastHighTime.value;
          if sinceHigh > GracePeriod {
            ev := Reset(sinceHigh);
            accumulator := 0.0;
            lastHighTime := None;
            alarmActive := false;
          } else {
            ev := Holding(accumulator, sinceHigh);
          }
        } else {
          ev := Quiet;
        }
      }
    }
  }
}
