/**
 The recurring interval behind the countdown: the `timerRef` slot, the set of
 intervals the host still has live, and the effect that re-runs whenever
 `isActive`, `isPaused` or `timeLeft` changes. Pairing this with the state gives
 the whole widget; its state part follows `CountdownRuns.Step` exactly, and the
 live intervals are always exactly what the derived rule `Armed` says.
 */
module Scheduler {
  import opened Countdown
  import opened CountdownRuns

  /** The contents of `timerRef.current`: null until the first interval is
      created, afterwards the last handle stored (it is never reset to null). */
  datatype TimerRef = Null | Handle(id: nat)

  /** The slot, the handles the host will still fire, and the next fresh handle. */
  datatype Intervals = Intervals(current: TimerRef, live: set<nat>, nextId: nat)

  const NoIntervals := Intervals(Null, {}, 0)

  /** Cancel the interval whose handle is in the slot, if the slot holds one;
      the slot itself keeps the stale handle. */
  function ClearCurrent(k: Intervals): (r: Intervals)
    ensures r.current == k.current && r.nextId == k.nextId
    ensures k.current.Handle? ==> r.live == k.live - {k.current.id}
    ensures k.current.Null? ==> r.live == k.live
  {
    match k.current
    case Handle(h) => k.(live := k.live - {h})
    case Null => k
  }

  /** Start a new recurring interval and store its fresh handle in the slot. */
  function SetNewInterval(k: Intervals): (r: Intervals)
    ensures r.current == Handle(k.nextId) && r.live == k.live + {k.nextId} && r.nextId > k.nextId
  {
    Intervals(Handle(k.nextId), k.live + {k.nextId}, k.nextId + 1)
  }

  /** The effect's dependency list. */
  datatype Deps = Deps(isActive: bool, isPaused: bool, timeLeft: int)

  function DepsOf(s: State): Deps {
    Deps(s.isActive, s.isPaused, s.timeLeft)
  }

  /** The effect body: arm while running; otherwise clear when stopped at zero. */
  function EffectBody(s: State, k: Intervals): (r: Intervals)
    ensures Armed(s) ==> r.current == Handle(k.nextId) && r.live == k.live + {k.nextId}
    ensures Armed(s) ==> r.nextId > k.nextId
    ensures !Armed(s) && k.current.Null? ==> r == k
    ensures !Armed(s) ==> r.current == k.current && r.nextId == k.nextId && r.live <= k.live
    ensures !s.isActive && s.timeLeft == 0 && k.current.Handle? ==>
              r.live == k.live - {k.current.id}
    ensures !Armed(s) && !(!s.isActive && s.timeLeft == 0) ==> r == k
  {
    if s.isActive && !s.isPaused then SetNewInterval(k)
    else if !s.isActive && s.timeLeft == 0 && k.current.Handle? then ClearCurrent(k)
    else k
  }

  /** What React does after a state change: when a dependency changed, run the
      previous effect's cleanup, then the body again; otherwise nothing. */
  function AfterRender(prev: State, next: State, k: Intervals): (r: Intervals)
    ensures DepsOf(prev) == DepsOf(next) ==> r == k
    ensures DepsOf(prev) != DepsOf(next) && Armed(next) ==>
              r.current == Handle(k.nextId) && r.nextId == k.nextId + 1
    ensures DepsOf(prev) != DepsOf(next) && Armed(next) && k.current.Handle? ==>
              r.live == (k.live - {k.current.id}) + {k.nextId}
    ensures DepsOf(prev) != DepsOf(next) && Armed(next) && k.current.Null? ==>
              r.live == k.live + {k.nextId}
    ensures DepsOf(prev) != DepsOf(next) && !Armed(next) ==> r == ClearCurrent(k)
  {
    if DepsOf(prev) == DepsOf(next) then k else EffectBody(next, ClearCurrent(k))
  }

  /** The `clearInterval` calls the handlers make themselves, decided on the
      state the handler was invoked in. */
  function HandlerClears(a: Action, s: State, k: Intervals): (r: Intervals)
    ensures r.current == k.current && r.nextId == k.nextId && r.live <= k.live
    ensures a.EditInput? || a.StartPressed? || a.IntervalFired? ==> r == k
    ensures k.current.Null? ==> r == k
    ensures a.SetPressed? && Accepts(s.duration) && k.current.Handle? ==>
              r.live == k.live - {k.current.id}
    ensures a.SetPressed? && !Accepts(s.duration) ==> r == k
    ensures a.PausePressed? && s.isActive && k.current.Handle? ==>
              r.live == k.live - {k.current.id}
    ensures a.PausePressed? && !s.isActive ==> r == k
    ensures a.ResetPressed? && k.current.Handle? ==> r.live == k.live - {k.current.id}
  {
    match a
    case SetPressed => if Accepts(s.duration) then ClearCurrent(k) else k
    case PausePressed => if s.isActive then ClearCurrent(k) else k
    case ResetPressed => ClearCurrent(k)
    case _ => k
  }

  /** The mounted widget: its state and its intervals. */
  datatype Widget = Widget(state: State, intervals: Intervals)

  /** Mounting runs the effect once on the initial state. */
  const Mounted := Widget(Initial, EffectBody(Initial, NoIntervals))

  /** The widget is consistent when its state keeps the invariant and exactly
      the interval in the slot is live while armed, and none otherwise. */
  predicate Consistent(w: Widget) {
    && Inv(w.state)
    && (w.intervals.current.Handle? ==> w.intervals.current.id < w.intervals.nextId)
    && (Armed(w.state) ==>
          w.intervals.current.Handle? && w.intervals.live == {w.intervals.current.id})
    && (!Armed(w.state) ==> w.intervals.live == {})
  }

  /** One action on the widget. The interval callback runs only when the host
      still has an interval live. */
  function Dispatch(w: Widget, a: Action): (r: Widget)
    ensures a.IntervalFired? && w.intervals.live == {} ==> r == w
    ensures Consistent(w) ==> Consistent(r) && r.state == Step(w.state, a)
  {
    match a
    case IntervalFired =>
      if w.intervals.live == {} then w
      else
        var s' := Tick(w.state);
        Widget(s', AfterRender(w.state, s', w.intervals))
    case _ =>
      var s' := Step(w.state, a);
      Widget(s', AfterRender(w.state, s', HandlerClears(a, w.state, w.intervals)))
  }

  function DispatchRun(w: Widget, acts: seq<Action>): Widget
    decreases |acts|
  {
    if |acts| == 0 then w else DispatchRun(Dispatch(w, acts[0]), acts[1..])
  }

  lemma MountedConsistent()
    ensures Mounted == Widget(Initial, NoIntervals) && Consistent(Mounted)
  {}

  /** Over any sequence of actions the widget stays consistent and its state
      is exactly the one `CountdownRuns.Run` computes. */
  lemma {:induction false} DispatchRunRefines(w: Widget, acts: seq<Action>)
    requires Consistent(w)
    ensures Consistent(DispatchRun(w, acts))
    ensures DispatchRun(w, acts).state == Run(w.state, acts)
    decreases |acts|
  {
    if |acts| > 0 {
      DispatchRunRefines(Dispatch(w, acts[0]), acts[1..]);
    }
  }

  /** The arming rule: after any sequence of actions from mount, an interval is
      live exactly when the timer is active and not paused, there is never more
      than one, and the state is that of `CountdownRuns.Run`. */
  lemma {:induction false} ArmingRule(acts: seq<Action>)
    ensures var w := DispatchRun(Mounted, acts);
            && (w.intervals.live != {} <==> Armed(w.state))
            && |w.intervals.live| <= 1
            && w.state == Run(Initial, acts)
  {
    MountedConsistent();
    DispatchRunRefines(Mounted, acts);
  }

  /** Reaching zero does not disarm: a running widget counts down to zero and
      keeps its one interval live, which fires without changing anything. */
  lemma ZeroKeepsInterval(w: Widget)
    requires Consistent(w) && Armed(w.state) && w.state.timeLeft == 0
    ensures Dispatch(w, IntervalFired) == w
    ensures w.intervals.live != {}
  {}

  /** A firing that moves the time left makes the effect re-run: the interval
      that fired is cancelled before a fresh one is armed, so one stays live. */
  lemma TickRearms(w: Widget)
    requires Consistent(w) && Armed(w.state) && w.state.timeLeft > 0
    ensures var r := Dispatch(w, IntervalFired);
            && r.state.timeLeft == w.state.timeLeft - 1
            && w.intervals.current.id !in r.intervals.live
            && r.intervals.live == {w.intervals.nextId}
            && r.intervals.current == Handle(w.intervals.nextId)
  {}

  /** The handlers' own cancellations are a second line of defence: from a
      consistent widget, the effect's cleanup alone leaves the same intervals. */
  lemma HandlerClearsRedundant(w: Widget, a: Action)
    requires Consistent(w) && !a.IntervalFired?
    ensures var s' := Step(w.state, a);
            AfterRender(w.state, s', HandlerClears(a, w.state, w.intervals))
            == AfterRender(w.state, s', w.intervals)
  {}

  /** Pause, Reset and an accepted Set leave no interval live. */
  lemma StopsDisarm(w: Widget)
    requires Consistent(w)
    ensures Dispatch(w, PausePressed).intervals.live == {}
    ensures Dispatch(w, ResetPressed).intervals.live == {}
    ensures Accepts(w.state.duration) ==> Dispatch(w, SetPressed).intervals.live == {}
  {}
}
