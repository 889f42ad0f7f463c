/**
 The stopwatch engine of the client: a running flag, the elapsed
 milliseconds and the recorded laps, driven by the start/stop toggle, the
 lap and reset actions and the animation-frame tick. The wall clock is an
 explicit `now` argument. Elapsed time is always a wall-clock delta from a
 start point (`now - elapsed` at the moment the timer starts), never a sum
 of per-frame increments.
 */
module Stopwatch {
  import opened Decimal

  /** A lap is a cumulative snapshot of the elapsed time, not a split; `name`
      is the source's `label` field (`label` is a Dafny keyword). */
  datatype Lap = Lap(time: nat, name: string)

  /** `origin` is the start point the running frame loop measures from; it
      is only consulted while `running` holds. */
  datatype Timer = Timer(running: bool, origin: int, elapsed: nat, laps: seq<Lap>)

  /** The state the client starts in, and the one reset returns to. */
  const Initial: Timer := Timer(false, 0, 0, [])

  /** The label of the n-th lap, counting from 1: `Lap n`. */
  function LapLabel(n: nat): string {
    "Lap " + ToDecimal(n)
  }

  /** Every lap is labelled with its 1-based position. */
  predicate LabelsSequential(laps: seq<Lap>) {
    forall i :: 0 <= i < |laps| ==> laps[i].name == LapLabel(i + 1)
  }

  /** The start/stop toggle. Starting records the start point `now - elapsed`
      so that later frames measure from there; stopping just clears the flag,
      so the elapsed time stays at the value the last frame wrote. */
  function Toggle(t: Timer, now: nat): (r: Timer)
    ensures r.running == !t.running
    ensures r.elapsed == t.elapsed && r.laps == t.laps
    ensures r.running ==> now - r.origin == r.elapsed
  {
    if t.running then t.(running := false)
    else t.(running := true, origin := now - t.elapsed)
  }

  /** One animation frame at clock `now`: while running, elapsed becomes
      `now - origin`; the frame loop is cancelled while stopped, so nothing
      changes then. The clock must not read earlier than the start point. */
  function Tick(t: Timer, now: nat): (r: Timer)
    requires t.running ==> t.origin <= now
    ensures r.running == t.running && r.origin == t.origin && r.laps == t.laps
    ensures !t.running ==> r.elapsed == t.elapsed
    ensures t.running ==> r.origin + r.elapsed == now
  {
    if t.running then t.(elapsed := now - t.origin) else t
  }

  /** Records a lap at the current elapsed time, running or not. */
  function AddLap(t: Timer): (r: Timer)
    ensures r.running == t.running && r.origin == t.origin && r.elapsed == t.elapsed
    ensures |r.laps| == |t.laps| + 1 && r.laps[..|t.laps|] == t.laps
    ensures r.laps[|t.laps|] == Lap(t.elapsed, LapLabel(|t.laps| + 1))
    ensures LabelsSequential(t.laps) ==> LabelsSequential(r.laps)
  {
    t.(laps := t.laps + [Lap(t.elapsed, LapLabel(|t.laps| + 1))])
  }

  /** Stops the timer, zeroes the elapsed time and discards every lap. */
  function Reset(t: Timer): (r: Timer)
    ensures !r.running && r.elapsed == 0 && r.laps == []
  {
    Initial
  }

  /** Reset forgets everything: its result does not depend on the state it
      is applied to, and it is idempotent. */
  lemma ResetForgets(t: Timer, u: Timer)
    ensures Reset(t) == Reset(u) == Initial
    ensures Reset(Reset(t)) == Reset(t)
    ensures LabelsSequential(Reset(t).laps)
  {
  }

  /** A new lap is labelled with its position whatever came before, and
      appended to sequential labels it keeps them sequential. */
  lemma LapLabelIsPosition(t: Timer)
    ensures AddLap(t).laps[|t.laps|].name == LapLabel(|t.laps| + 1)
    ensures LabelsSequential(t.laps) ==> LabelsSequential(AddLap(t).laps)
  {
  }

  /** Sequentially labelled laps have pairwise distinct labels. */
  lemma LabelsDistinct(laps: seq<Lap>, i: nat, j: nat)
    requires LabelsSequential(laps)
    requires i < j < |laps|
    ensures laps[i].name != laps[j].name
  {
    assert LapLabel(i + 1)[4..] == ToDecimal(i + 1);
    assert LapLabel(j + 1)[4..] == ToDecimal(j + 1);
  }

  /** Starting and then stopping gives back the flag, elapsed time and laps;
      only the start point is left behind. */
  lemma ToggleTwice(t: Timer, start: nat, stop: nat)
    requires !t.running
    ensures Toggle(Toggle(t, start), stop) == t.(origin := start - t.elapsed)
  {
  }

  /** Elapsed time depends only on the latest frame, not on the frames before
      it: measuring from a fixed start point cannot drift. */
  lemma TickNoDrift(t: Timer, a: nat, b: nat)
    requires t.running ==> t.origin <= a <= b
    ensures Tick(Tick(t, a), b) == Tick(t, b)
  {
  }

  /** Starting from a stopped timer at `t0` and drawing a frame at `t1`
      shows the old elapsed time plus `t1 - t0`. */
  lemma ElapsedAfterStart(t: Timer, t0: nat, t1: nat)
    requires !t.running && t0 <= t1
    ensures Tick(Toggle(t, t0), t1).elapsed == t.elapsed + (t1 - t0)
  {
  }

  /** Elapsed time accumulates across a stop and a restart: the interval
      between stopping and restarting is not counted. */
  lemma AccumulatesAcrossPause(t: Timer, t0: nat, t1: nat, t2: nat, t3: nat)
    requires !t.running && t0 <= t1 && t2 <= t3
    ensures Tick(Toggle(Toggle(Tick(Toggle(t, t0), t1), t2), t2), t3).elapsed
            == t.elapsed + (t1 - t0) + (t3 - t2)
  {
    ElapsedAfterStart(t, t0, t1);
    var paused := Toggle(Tick(Toggle(t, t0), t1), t2);
    ElapsedAfterStart(paused, t2, t3);
  }
}
