/**
 The body of the save request: the session as it is handed to the
 transport, or nothing when no username is set. The request itself, the
 user notices and the leaderboard refresh are outside the model.
 */
module Session {
  import opened Wrappers
  import opened Stopwatch
  import StopwatchTrace

  /** A session as sent to the server; `date` is the save-time ISO 8601 text,
      taken as given. */
  datatype Payload = Payload(username: string, durationMs: nat, laps: seq<Lap>, note: string, date: string)

  /** The save action: an empty username stops it before anything is sent;
      otherwise the body carries the current elapsed time and lap list. */
  function SavePayload(username: string, note: string, date: string, t: Timer): (r: Option<Payload>)
    ensures r.None? <==> username == ""
    ensures r.Some? ==> r.value.username == username && r.value.note == note && r.value.date == date
    ensures r.Some? ==> r.value.durationMs == t.elapsed && r.value.laps == t.laps
  {
    if username == "" then None
    else Some(Payload(username, t.elapsed, t.laps, note, date))
  }

  /** A session saved right after a reset has no duration and no laps. */
  lemma SaveAfterReset(username: string, note: string, date: string, t: Timer)
    requires username != ""
    ensures SavePayload(username, note, date, Reset(t)).Some?
    ensures SavePayload(username, note, date, Reset(t)).value.durationMs == 0
    ensures SavePayload(username, note, date, Reset(t)).value.laps == []
  {
  }

  /** A session saved from any state the stopwatch can reach is consistent:
      laps are labelled `Lap 1`, `Lap 2`, ... in order, their times are
      non-decreasing, and none exceeds the session's duration. */
  lemma {:induction false} SavedSessionConsistent(username: string, note: string, date: string,
                                                  evs: seq<StopwatchTrace.Event>, clock: nat)
    requires username != "" && StopwatchTrace.InOrder(evs, clock)
    ensures SavePayload(username, note, date, StopwatchTrace.Run(Initial, evs, clock)).Some?
    ensures var p := SavePayload(username, note, date, StopwatchTrace.Run(Initial, evs, clock)).value;
      && LabelsSequential(p.laps)
      && (forall i, j :: 0 <= i < j < |p.laps| ==> p.laps[i].time <= p.laps[j].time)
      && (forall i :: 0 <= i < |p.laps| ==> p.laps[i].time <= p.durationMs)
  {
    StopwatchTrace.ReachableLabelsSequential(evs, clock);
    StopwatchTrace.RunChronological(Initial, evs, clock);
  }
}
