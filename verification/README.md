# Countdown timer widget — verified model

A Dafny model of the `Countdown` component of the countdown project: a timer
card with a duration input and Set, Start/Resume, Pause and Reset buttons, whose
remaining time is counted down by a recurring one-second interval.

- `Countdown` (countdown.dfy) holds the component's state — the raw input
  value (`Empty` or `Num(n)`), `timeLeft`, `isActive`, `isPaused` — and the
  input edit, the four button handlers and the interval's tick updater as pure
  transition functions. `Armed` is the derived rule for when an interval runs:
  active and not paused.
- `CountdownRuns` (countdown_runs.dfy) applies sequences of actions (edits,
  presses, interval firings) and proves what holds over any of them: the
  invariant that the timer is never both active and paused, and never active
  with negative time; a full countdown; pause/resume losing no time; Reset
  reading the live input.
- `Scheduler` (scheduler.dfy) models `timerRef`, the set of intervals the host
  still fires, the handlers' own `clearInterval` calls, and the effect that
  re-runs (cleanup, then body) whenever `isActive`, `isPaused` or `timeLeft`
  changes. It proves that the widget's state follows `CountdownRuns.Step`, and
  that after every action exactly one interval is live when `Armed` holds and
  none when it does not.

The model follows the code, which differs from an idealised timer:
- There is no finished state. At zero `isActive` stays true, the interval stays
  armed and keeps firing, and each firing leaves the time at 0.
- Reset copies the input as it currently reads, not the last value Set accepted.
  A number typed but never Set becomes `timeLeft`. That number may be zero or
  negative, so `timeLeft` is an `int`, not a `nat`.
- Only an input edit writes the duration field. Set reads it and never writes it.
- There is no separate "unset" duration. The input starts
  as the empty string, and every edit stores a number, because converting the
  empty string to a number gives 0. So `Empty` occurs only before the first
  edit.

## Model

| member | source | states |
|---|---|---|
| Countdown.Armed | src/components/countdown.tsx:52 | the derived arming rule: an interval should be running exactly while the timer is active and not paused; `Scheduler.ArmingRule` proves the effect keeps to it |
| Countdown.Accepts | src/components/countdown.tsx:15 | Set's guard: the input is a number greater than 0; `Countdown.SetDuration` states both outcomes of it |
| Countdown.Edit | src/components/countdown.tsx:77 | an edit stores the number in the input and changes nothing else; afterwards the input is never empty |
| Countdown.SetDuration | src/components/countdown.tsx:14-23 | an input greater than 0 becomes the time left, with the timer stopped, unpaused and disarmed; an empty or non-positive input leaves the state unchanged; the input itself is never changed |
| Countdown.Start | src/components/countdown.tsx:25-30 | with time left > 0 the timer becomes active, unpaused and armed, and the time is not touched; otherwise nothing changes |
| Countdown.Pause | src/components/countdown.tsx:32-40 | an active timer becomes paused, inactive and disarmed; an inactive one is unchanged; the time left is never modified |
| Countdown.Reset | src/components/countdown.tsx:42-49 | always clears both flags and disarms; the time left becomes the current input number, or 0 while the input is empty |
| Countdown.Tick | src/components/countdown.tsx:54 | the time left drops by one when positive and becomes 0 otherwise, is never negative, and no other field changes |
| CountdownRuns.Step | src/components/countdown.tsx:14-56 | every action keeps the invariant (not both active and paused, active implies time left >= 0); the interval does nothing when not armed; only an edit changes the input; a firing never changes the flags |
| CountdownRuns.InitialInv | src/components/countdown.tsx:8-11 | the initial state `Countdown.Initial` is the empty input, 0 left, neither active nor paused; it satisfies the invariant and is not armed |
| CountdownRuns.RunPreservesInv | src/components/countdown.tsx:14-56 | the invariant holds after any sequence of actions |
| CountdownRuns.NeverActiveAndPaused | src/components/countdown.tsx:8-56 | from the initial state no sequence of edits, presses and firings makes the timer both active and paused, or active with negative time |
| CountdownRuns.RunWithoutTimeActions | src/components/countdown.tsx:25-40 | any sequence of Start and Pause presses leaves the time left and the input unchanged |
| CountdownRuns.RunFires | src/components/countdown.tsx:51-56 | while armed, n firings set the time left to max(0, t - n) and change no other field |
| CountdownRuns.ZeroIsAbsorbing | src/components/countdown.tsx:54-56 | once an armed timer is at 0, further firings leave the whole state unchanged and it stays armed |
| CountdownRuns.FullCountdown | src/components/countdown.tsx:14-56 | Set with an accepted duration d, then Start, then d firings give time 0 with the timer still active and armed |
| CountdownRuns.PauseThenStartResumes | src/components/countdown.tsx:25-40 | pausing a running timer with time left and starting it again restores exactly the earlier state |
| CountdownRuns.PausedAtZeroStays | src/components/countdown.tsx:25-40 | a timer paused at 0 stays paused and disarmed when Start is pressed |
| CountdownRuns.ResetDependsOnlyOnInput | src/components/countdown.tsx:42-49 | two states with the same input reset to the same state, whatever their time or flags were |
| CountdownRuns.ResetReadsLiveInput | src/components/countdown.tsx:42-49 | after Set with 5 and then an edit to n, Reset gives time left n, not 5, even when n is negative; a time <= 0 cannot then be started |
| CountdownRuns.SetAndResetIdempotent | src/components/countdown.tsx:14-49 | Reset after an accepted Set changes nothing; pressing Set, Reset, Start or Pause twice is the same as pressing it once |
| Scheduler.ClearCurrent | src/components/countdown.tsx:60-64 | clearing removes only the handle in the slot from the live set and keeps the slot |
| Scheduler.SetNewInterval | src/components/countdown.tsx:53-55 | a new interval gets a fresh handle, which is stored in the slot and added to the live set |
| Scheduler.EffectBody | src/components/countdown.tsx:51-58 | while armed, the effect arms the next fresh handle and moves the handle counter on; stopped at 0 with a handle in the slot, it cancels that handle; in every other unarmed state, including an empty slot, it does nothing; unarmed, it never creates a handle |
| Scheduler.DepsOf | src/components/countdown.tsx:65 | the effect's dependency list (isActive, isPaused, timeLeft); `Scheduler.AfterRender` re-runs the effect exactly when it changes |
| Scheduler.AfterRender | src/components/countdown.tsx:51-65 | with unchanged dependencies nothing happens; after a change the slot's interval is cancelled, and a fresh one, with the handle counter moved on by one, is added exactly when the new state is armed; after a change to an unarmed state the result is exactly the cleanup: the slot's interval is cancelled and nothing else changes |
| Scheduler.HandlerClears | src/components/countdown.tsx:14-49 | the handlers only cancel intervals, never create them; an accepted Set, a Pause of an active timer and every Reset cancel the one in the slot; a rejected Set, an inactive Pause, Start and edits cancel nothing |
| Scheduler.HandlerClearsRedundant | src/components/countdown.tsx:14-65 | from a consistent widget, the handlers' own cancellations leave the same intervals as the effect's cleanup alone |
| Scheduler.Dispatch | src/components/countdown.tsx:14-65 | firing with no live interval changes nothing; from a consistent widget each action keeps it consistent, and its state is the one `CountdownRuns.Step` gives |
| Scheduler.MountedConsistent | src/components/countdown.tsx:8-12 | the mounted widget `Scheduler.Mounted` is the initial state with no interval and an empty slot; it is consistent |
| Scheduler.DispatchRunRefines | src/components/countdown.tsx:14-65 | over any action sequence the widget stays consistent, and its state equals `CountdownRuns.Run` |
| Scheduler.ArmingRule | src/components/countdown.tsx:51-65 | after any action sequence from mount, an interval is live iff active and not paused, and at most one is live |
| Scheduler.TickRearms | src/components/countdown.tsx:52-63 | a firing that lowers the time cancels the interval that fired before arming a fresh one, so exactly one stays live |
| Scheduler.ZeroKeepsInterval | src/components/countdown.tsx:52-56 | an armed widget at 0 keeps its interval live, and firing it changes nothing |
| Scheduler.StopsDisarm | src/components/countdown.tsx:32-49 | after Pause or Reset no interval is live, and likewise after Set with an accepted input |

## Left out

- Rendering, styling and the input and button widgets (src/components/countdown.tsx:67-113): presentation with no logic.
- React's runtime mechanics (stale closures, effect scheduling order, bail-out details): each action is one sequential transition. Effects re-run exactly when a dependency changes, and a handler's `set` calls take effect together.
- The cleanup on unmount (src/components/countdown.tsx:60-64 run at teardown): the model has no unmount event.
- The 1000 ms period and wall-clock time: an interval firing is an event. It can happen only while an interval is live, and the model says nothing about when it happens.
- Countdown.Edit: takes an integer only. Converting the field's text can also give NaN or a fraction, and that floating-point behaviour is not modelled; an emptied field is the integer 0.
- Countdown.Tick: the time left is a JavaScript number (a double), modelled as an unbounded integer. Above 2^53 the decrement is inexact. It can drop by 2 (2^53 + 2 gives 2^53) or round back to the same value (1e17 - 1 is 1e17), so a countdown can skip a second or stall for good. An input of Infinity never counts down. A fractional input such as 2.5 counts down to -0.5 while active. None of this is modelled.
- CountdownRuns.RunFires: the closed form max(0, t - n) is exact in the source only while the time stays within 2^53. Above that a firing can take off 2 or nothing, and an infinite time never changes.
- CountdownRuns.FullCountdown: some accepted durations above 2^53 (e.g. 1e17), and Infinity, never reach 0 in the source. Others, such as 2^53 + 2, reach 0 in fewer than d firings. A fractional one passes below 0.
- CountdownRuns.NeverActiveAndPaused: the clause "active implies time left >= 0" holds for integer inputs only. A fractional duration lets an active timer reach a negative time.
