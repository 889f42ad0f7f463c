# Timeee stopwatch — Dafny model

This project models the client-side core of the Timeee stopwatch web app. That core has three parts:

- **`formatTime`** turns elapsed milliseconds into `MM:SS.CC`. Minutes, seconds and hundredths are each zero-padded to two digits, and minutes are never wrapped at 60.
- **The stopwatch engine** holds a running flag, the elapsed milliseconds and a list of laps. It is driven by the start/stop toggle, lap, reset and the animation-frame tick.
- **The save action** builds the body of the session sent to the server.

The model is purely functional:

- The timer is an immutable `Timer` value.
- Every action is a function from state to state.
- The wall clock (`Date.now()`) is an explicit `now: nat` argument.

The source keeps the running frame loop's start point `Date.now() - elapsed` in a closure. The model stores it as the `origin` field of `Timer`.

Modules:

- `Wrappers` (wrappers.dfy): `Option`.
- `Decimal` (decimal.dfy): JavaScript `String(n)` for whole numbers below 10^21, `padStart` with a one-character fill, and the reading of a digit string back into a number.
- `TimeFormat` (time_format.dfy): the field split of `formatTime` and the rendering. It also has a reader of the rendered text, used to state the round trip.
- `Stopwatch` (stopwatch.dfy): `Lap`, `Timer`, and the toggle, tick, lap and reset transitions with their one-step properties.
- `StopwatchTrace` (stopwatch_trace.dfy): whole traces of actions and frames with a clock that never goes back. It includes the invariants over those traces, and an interval bookkeeping reference (`Tally`) that the engine is proved to agree with.
- `Session` (session.dfy): the save payload.

Behaviour of the code worth knowing:

- **Stopping does not take a final clock reading.** It only clears the running flag. The elapsed time therefore stays at the value the last animation frame wrote, and a running interval counts from its start to its last frame, not to the moment of stopping. `StopwatchTrace.ElapsedIsSumOfIntervals` proves that the elapsed time is the sum of these intervals since the last reset.
- **Start and stop are one toggle** (frontend/src/App.jsx:38).
- **The `startTime` state (frontend/src/App.jsx:14) is never written.** Nothing reads it either, so it has no counterpart in the model.
- **The lap field is renamed.** The source's lap field `label` is called `name` in the model, because `label` is a Dafny keyword.

## Model

| member | source | states |
|---|---|---|
| Decimal.ToDecimal | frontend/src/App.jsx:9 | `String(n)` of a whole number is a non-empty digit string with no leading zero that reads back as `n`. It has one digit exactly when n < 10 and two exactly when 10 <= n < 100. |
| Decimal.DecimalInverse | frontend/src/App.jsx:9 | The other direction of the round trip: every canonical numeral is `String` of the number it denotes. |
| Decimal.ToDecimalInjective | frontend/src/App.jsx:9 | Distinct numbers render as distinct numerals, and only those. |
| Decimal.PadStart | frontend/src/App.jsx:9 | `padStart(width, fill)` yields length max(\|s\|, width), ends with `s`, and everything before `s` is the fill character. |
| Decimal.PadStartKeepsValue | frontend/src/App.jsx:9 | Zero padding does not change the number a field denotes. |
| TimeFormat.Split | frontend/src/App.jsx:4-8 | Seconds are in [0,60) and hundredths in [0,100). minutes*6000 + seconds*100 + hundredths equals floor(ms/10). |
| TimeFormat.SplitUnique | frontend/src/App.jsx:4-8 | Split gives the only in-range fields whose hundredths total floor(ms/10). |
| TimeFormat.MinutesNotWrapped | frontend/src/App.jsx:8 | The minutes field is floor(ms/60000), never reduced modulo 60. |
| TimeFormat.Render | frontend/src/App.jsx:9 | For in-range fields, the display is 6 characters plus the minutes field, which is two digits under 10 minutes and the plain numeral otherwise. ':' sits six characters from the end and '.' three from the end. |
| TimeFormat.DisplayWidth | frontend/src/App.jsx:9 | Under 100 minutes the display is exactly 8 characters. From 10 minutes on, it never starts with a padding zero. |
| TimeFormat.ParseFormat | frontend/src/App.jsx:3-10 | Reading the three fields back out of `formatTime(ms)` returns exactly the split, whose hundredths total floor(ms/10). |
| TimeFormat.FormatTimeSameText | frontend/src/App.jsx:3-10 | Two durations display the same text if and only if they agree after division by 10. |
| TimeFormat.FormatTimeZero | frontend/src/App.jsx:3-10 | Every duration under 10 ms, 0 included, displays as `00:00.00`. |
| TimeFormat.FormatTimeMinuteAndSecond | frontend/src/App.jsx:3-10 | 61005 ms displays as `01:01.00`. |
| TimeFormat.FormatTimeHour | frontend/src/App.jsx:3-10 | 3600000 ms displays as `60:00.00`: minutes are not capped. |
| Stopwatch.Toggle | frontend/src/App.jsx:24-26 | The toggle flips the running flag and keeps elapsed time and laps. A timer that starts records the start point now - elapsed. |
| Stopwatch.Tick | frontend/src/App.jsx:26-28 | While running, a frame sets elapsed to now minus the start point. While stopped, elapsed is frozen. The flag, start point and laps are untouched. |
| Stopwatch.AddLap | frontend/src/App.jsx:40 | Lap appends exactly one entry, timed at the current elapsed time and labelled `Lap n+1` where n is the number of earlier laps, whether running or stopped. Earlier entries, the flag and elapsed are unchanged, and sequential labels stay sequential. |
| Stopwatch.Reset | frontend/src/App.jsx:39 | Reset leaves the timer stopped, with elapsed 0 and no laps. |
| Stopwatch.ResetForgets | frontend/src/App.jsx:39 | Reset gives the initial state from any state, is idempotent, and leaves labels sequential. |
| Stopwatch.LapLabelIsPosition | frontend/src/App.jsx:40 | A new lap is labelled `Lap n+1` where n is the number of earlier laps, whatever came before. Sequential labels therefore stay 1-based and sequential. |
| Stopwatch.LabelsDistinct | frontend/src/App.jsx:40 | Sequentially labelled laps have pairwise distinct labels. |
| Stopwatch.ToggleTwice | frontend/src/App.jsx:38 | Starting then stopping restores the flag, elapsed time and laps. |
| Stopwatch.TickNoDrift | frontend/src/App.jsx:26-28 | A frame's elapsed time does not depend on earlier frames, so measuring from a fixed start point cannot drift. |
| Stopwatch.ElapsedAfterStart | frontend/src/App.jsx:24-31 | A stopped timer started at t0 and drawn at t1 shows its old elapsed time plus t1 - t0. |
| Stopwatch.AccumulatesAcrossPause | frontend/src/App.jsx:24-38 | Elapsed time accumulates across stop and restart: the paused interval is not counted. |
| StopwatchTrace.StepInv | frontend/src/App.jsx:24-40 | Each action or frame, with a clock that does not go back, keeps the start point plus elapsed no later than the clock. |
| StopwatchTrace.Run | frontend/src/App.jsx:24-40 | Any trace of actions and frames keeps lap labels sequential. |
| StopwatchTrace.ReachableLabelsSequential | frontend/src/App.jsx:16 | Every reachable state has laps labelled `Lap 1`, `Lap 2`, ... in order. |
| StopwatchTrace.StepChronological | frontend/src/App.jsx:28 | One step keeps laps in time order, none later than the elapsed time. |
| StopwatchTrace.RunChronological | frontend/src/App.jsx:28 | Under a clock that never goes back, every trace keeps laps in time order and none later than the elapsed time. |
| StopwatchTrace.RunWithoutReset | frontend/src/App.jsx:26-40 | Without a reset, elapsed never decreases and recorded laps are never altered or removed. |
| StopwatchTrace.StepAgrees | frontend/src/App.jsx:24-39 | One step of the engine and one step of the interval bookkeeping keep describing the same stopwatch. |
| StopwatchTrace.RunAgrees | frontend/src/App.jsx:24-39 | The wall-clock-delta engine and the interval bookkeeping agree after any trace. |
| StopwatchTrace.ElapsedIsSumOfIntervals | frontend/src/App.jsx:24-39 | From the initial state, elapsed after any trace is the sum of running intervals since the last reset. Each interval runs from its start to its last frame. |
| Session.SavePayload | frontend/src/App.jsx:53-54 | No payload exactly when the username is empty. Otherwise durationMs is the current elapsed time, laps is the current lap list, and username, note and date are as given. |
| Session.SaveAfterReset | frontend/src/App.jsx:53-54 | A session saved right after a reset has duration 0 and no laps. |
| Session.SavedSessionConsistent | frontend/src/App.jsx:54 | A session saved from any reachable state has sequential lap labels, non-decreasing lap times, and no lap later than its duration. |

## Left out

- backend/index.js: a placeholder server with one health-check route and no session or leaderboard logic. It is pure I/O.
- The network calls of `saveSession` and `fetchLeaderboard`, the `alert` notices and `console.error` (frontend/src/App.jsx:55-75). Only the payload built before transmission is modelled. The leaderboard snapshot is replaced on success and kept on failure; that is plain assignment around a network call and is not modelled.
- `requestAnimationFrame` / `cancelAnimationFrame` scheduling and the React effect lifecycle (frontend/src/App.jsx:20, 24-36). They become discrete `Tick` frames and the `now` argument of `Toggle`. The model assumes the start point is taken at the clock reading passed to the toggle.
- `localStorage` persistence of the username (frontend/src/App.jsx:17, 22) is browser I/O.
- The keyboard shortcuts (frontend/src/App.jsx:42-50) and the JSX rendering, including the lap and leaderboard lists (frontend/src/App.jsx:79-114), are UI.
- The save date `new Date().toISOString()` (frontend/src/App.jsx:54) comes from the clock and a library. It is an opaque string argument.
- TimeFormat.Split: negative or fractional milliseconds are not modelled. The input is a `nat`, as `Date.now()` deltas are; JavaScript floating point and `%` on negatives are out of scope. So is the exponent form `String(n)` switches to from 10^21 up ("1e+21"), a value no duration reaches.
- Stopwatch.Tick: requires a running timer's clock reading to be no earlier than its start point. A wall clock that jumps back past the start point would make the source's elapsed time negative, and the model does not represent that.
