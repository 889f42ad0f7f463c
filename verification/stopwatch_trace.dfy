/**
 Sequences of user actions and animation frames applied to the stopwatch,
 with the clock readings in non-decreasing order. The properties here hold
 of every such trace: lap labels stay sequential, laps stay in
 chronological order, nothing decreases without a reset, and the
 wall-clock-delta engine shows exactly the sum of its running intervals.
 */
module StopwatchTrace {
  import opened Stopwatch

  /** What can happen to the stopwatch: the start/stop toggle (space bar or
      button) and an animation frame, each at a clock reading, and the lap
      and reset actions. */
  datatype Event = StartStop(now: nat) | Frame(now: nat) | LapPressed | ResetPressed

  /** The latest clock reading once `e` has happened. */
  function ClockAfter(e: Event, clock: nat): nat {
    match e
    case StartStop(now) => now
    case Frame(now) => now
    case LapPressed => clock
    case ResetPressed => clock
  }

  predicate NotBefore(e: Event, clock: nat) {
    (e.StartStop? || e.Frame?) ==> clock <= e.now
  }

  /** The clock readings of `evs` never go back, starting from `clock`. */
  predicate InOrder(evs: seq<Event>, clock: nat)
    decreases |evs|
  {
    |evs| == 0 || (NotBefore(evs[0], clock) && InOrder(evs[1..], ClockAfter(evs[0], clock)))
  }

  /** A running timer's start point plus its elapsed time is the clock
      reading of its last start or frame, so never later than `clock`. */
  predicate Inv(t: Timer, clock: nat) {
    t.running ==> t.origin + t.elapsed <= clock
  }

  function Step(t: Timer, e: Event): Timer
    requires e.Frame? && t.running ==> t.origin <= e.now
  {
    match e
    case StartStop(now) => Toggle(t, now)
    case Frame(now) => Tick(t, now)
    case LapPressed => AddLap(t)
    case ResetPressed => Reset(t)
  }

  lemma StepInv(t: Timer, e: Event, clock: nat)
    requires Inv(t, clock) && NotBefore(e, clock)
    ensures e.Frame? && t.running ==> t.origin <= e.now
    ensures Inv(Step(t, e), ClockAfter(e, clock))
  {
  }

  /** The timer after the whole trace. Sequential lap labels survive it. */
  function Run(t: Timer, evs: seq<Event>, clock: nat): (r: Timer)
    requires Inv(t, clock) && InOrder(evs, clock)
    ensures LabelsSequential(t.laps) ==> LabelsSequential(r.laps)
    decreases |evs|
  {
    if |evs| == 0 then t
    else
      StepInv(t, evs[0], clock);
      Run(Step(t, evs[0]), evs[1..], ClockAfter(evs[0], clock))
  }

  /** Labels are sequential in every state reachable from the initial one. */
  lemma ReachableLabelsSequential(evs: seq<Event>, clock: nat)
    requires InOrder(evs, clock)
    ensures LabelsSequential(Run(Initial, evs, clock).laps)
  {
  }

  /** Laps are in chronological order and none is later than the elapsed time. */
  predicate Chronological(t: Timer) {
    && (forall i, j :: 0 <= i < j < |t.laps| ==> t.laps[i].time <= t.laps[j].time)
    && (forall i :: 0 <= i < |t.laps| ==> t.laps[i].time <= t.elapsed)
  }

  lemma StepChronological(t: Timer, e: Event, clock: nat)
    requires Inv(t, clock) && NotBefore(e, clock) && Chronological(t)
    ensures e.Frame? && t.running ==> t.origin <= e.now
    ensures Chronological(Step(t, e))
  {
    if e.LapPressed? {
      var r := AddLap(t);
      forall i | 0 <= i < |r.laps|
        ensures r.laps[i].time <= r.elapsed
      {
        if i < |t.laps| {
          assert r.laps[i] == t.laps[i];
        }
      }
    }
  }

  /** Under a clock that never goes back, every trace keeps the laps in
      chronological order. */
  lemma {:induction false} RunChronological(t: Timer, evs: seq<Event>, clock: nat)
    requires Inv(t, clock) && InOrder(evs, clock) && Chronological(t)
    ensures Chronological(Run(t, evs, clock))
    decreases |evs|
  {
    if |evs| > 0 {
      StepInv(t, evs[0], clock);
      StepChronological(t, evs[0], clock);
      RunChronological(Step(t, evs[0]), evs[1..], ClockAfter(evs[0], clock));
    }
  }

  predicate NoReset(evs: seq<Event>) {
    forall i :: 0 <= i < |evs| ==> !evs[i].ResetPressed?
  }

  /** Without a reset, elapsed time never decreases and recorded laps are
      never altered or removed. */
  lemma {:induction false} RunWithoutReset(t: Timer, evs: seq<Event>, clock: nat)
    requires Inv(t, clock) && InOrder(evs, clock) && NoReset(evs)
    ensures Run(t, evs, clock).elapsed >= t.elapsed
    ensures |Run(t, evs, clock).laps| >= |t.laps|
    ensures Run(t, evs, clock).laps[..|t.laps|] == t.laps
    decreases |evs|
  {
    if |evs| > 0 {
      StepInv(t, evs[0], clock);
      var u := Step(t, evs[0]);
      assert NoReset(evs[1..]) by {
        forall i | 0 <= i < |evs[1..]|
          ensures !evs[1..][i].ResetPressed?
        {
          assert evs[1..][i] == evs[i + 1];
        }
      }
      RunWithoutReset(u, evs[1..], ClockAfter(evs[0], clock));
      var r := Run(u, evs[1..], ClockAfter(evs[0], clock));
      assert u.laps[..|t.laps|] == t.laps;
      assert r.laps[..|t.laps|] == r.laps[..|u.laps|][..|t.laps|];
    }
  }

  /** Reference bookkeeping by intervals. `banked` is the sum of the finished
      running intervals; an interval counts from its start to the last frame
      drawn in it (`from` and `last`), because stopping does not draw one. */
  datatype Tally = Tally(running: bool, banked: int, from: int, last: int)

  const NoTime: Tally := Tally(false, 0, 0, 0)

  /** The time the interval bookkeeping says is on the display. */
  function Shown(y: Tally): int {
    y.banked + (if y.running then y.last - y.from else 0)
  }

  function TallyStep(y: Tally, e: Event): Tally {
    match e
    case StartStop(now) =>
      if y.running then Tally(false, y.banked + (y.last - y.from), y.from, y.last)
      else Tally(true, y.banked, now, now)
    case Frame(now) => if y.running then y.(last := now) else y
    case LapPressed => y
    case ResetPressed => NoTime
  }

  function TallyRun(y: Tally, evs: seq<Event>): Tally
    decreases |evs|
  {
    if |evs| == 0 then y else TallyRun(TallyStep(y, evs[0]), evs[1..])
  }

  /** The timer and the bookkeeping describe the same stopwatch. */
  predicate Agrees(t: Timer, y: Tally) {
    && t.running == y.running
    && t.elapsed == Shown(y)
    && (t.running ==> t.origin == y.from - y.banked)
  }

  lemma StepAgrees(t: Timer, y: Tally, e: Event, clock: nat)
    requires Inv(t, clock) && NotBefore(e, clock) && Agrees(t, y)
    ensures e.Frame? && t.running ==> t.origin <= e.now
    ensures Agrees(Step(t, e), TallyStep(y, e))
  {
  }

  lemma {:induction false} RunAgrees(t: Timer, y: Tally, evs: seq<Event>, clock: nat)
    requires Inv(t, clock) && InOrder(evs, clock) && Agrees(t, y)
    ensures Agrees(Run(t, evs, clock), TallyRun(y, evs))
    decreases |evs|
  {
    if |evs| > 0 {
      StepInv(t, evs[0], clock);
      StepAgrees(t, y, evs[0], clock);
      RunAgrees(Step(t, evs[0]), TallyStep(y, evs[0]), evs[1..], ClockAfter(evs[0], clock));
    }
  }

  /** From the initial state, the elapsed time after any trace is the sum of
      the running intervals since the last reset, each measured from its
      start to its last frame. */
  lemma ElapsedIsSumOfIntervals(evs: seq<Event>, clock: nat)
    requires InOrder(evs, clock)
    ensures Run(Initial, evs, clock).elapsed == Shown(TallyRun(NoTime, evs))
  {
    RunAgrees(Initial, NoTime, evs, clock);
  }
}
