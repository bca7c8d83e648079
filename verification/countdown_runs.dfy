/**
 Sequences of user actions and interval callbacks applied to the countdown
 state, the invariant every reachable state keeps, and what a full countdown,
 a pause/resume and a reset do over many steps.
 */
module CountdownRuns {
  import opened Countdown

  /** Everything that can change the state: an input edit, the four buttons,
      and one firing of the recurring interval. */
  datatype Action =
    | EditInput(n: int)
    | SetPressed
    | StartPressed
    | PausePressed
    | ResetPressed
    | IntervalFired

  /** Invariant of every reachable state: never both running and paused, and a
      running timer never has negative time left. */
  predicate Inv(s: State) {
    && !(s.isActive && s.isPaused)
    && (s.isActive ==> s.timeLeft >= 0)
  }

  /** One action. The interval fires only while one is armed, that is, while
      the timer is active and not paused. */
  function Step(s: State, a: Action): (r: State)
    ensures Inv(s) ==> Inv(r)
    ensures a.IntervalFired? && !Armed(s) ==> r == s
    ensures !a.EditInput? ==> r.duration == s.duration
    ensures a.IntervalFired? ==> r.isActive == s.isActive && r.isPaused == s.isPaused
  {
    match a
    case EditInput(n) => Edit(s, n)
    case SetPressed => SetDuration(s)
    case StartPressed => Start(s)
    case PausePressed => Pause(s)
    case ResetPressed => Reset(s)
    case IntervalFired => if Armed(s) then Tick(s) else s
  }

  function Run(s: State, acts: seq<Action>): State
    decreases |acts|
  {
    if |acts| == 0 then s else Run(Step(s, acts[0]), acts[1..])
  }

  /** `n` consecutive firings of the interval. */
  function Fires(n: nat): (r: seq<Action>)
    ensures |r| == n
    ensures forall i :: 0 <= i < n ==> r[i] == IntervalFired
  {
    if n == 0 then [] else [IntervalFired] + Fires(n - 1)
  }

  function Max(a: int, b: int): int {
    if a >= b then a else b
  }

  lemma InitialInv()
    ensures Initial == State(Empty, 0, false, false)
    ensures Inv(Initial) && !Armed(Initial)
  {}

  lemma {:induction false} RunAppend(s: State, xs: seq<Action>, ys: seq<Action>)
    ensures Run(s, xs + ys) == Run(Run(s, xs), ys)
    decreases |xs|
  {
    if |xs| == 0 {
      assert xs + ys == ys;
    } else {
      assert (xs + ys)[0] == xs[0];
      assert (xs + ys)[1..] == xs[1..] + ys;
      RunAppend(Step(s, xs[0]), xs[1..], ys);
    }
  }

  /** The invariant holds after any sequence of actions. */
  lemma {:induction false} RunPreservesInv(s: State, acts: seq<Action>)
    requires Inv(s)
    ensures Inv(Run(s, acts))
    decreases |acts|
  {
    if |acts| > 0 {
      RunPreservesInv(Step(s, acts[0]), acts[1..]);
    }
  }

  /** From the mount-time state, no sequence of edits, button presses and
      interval firings makes the timer both active and paused, or active with
      negative time left. */
  lemma {:induction false} NeverActiveAndPaused(acts: seq<Action>)
    ensures !(Run(Initial, acts).isActive && Run(Initial, acts).isPaused)
    ensures Run(Initial, acts).isActive ==> Run(Initial, acts).timeLeft >= 0
  {
    InitialInv();
    RunPreservesInv(Initial, acts);
  }

  /** Only Set, Reset and the interval move the remaining time; only the input
      edit moves the duration. Neither Start nor Pause changes the time left. */
  lemma {:induction false} RunWithoutTimeActions(s: State, acts: seq<Action>)
    requires forall i :: 0 <= i < |acts| ==> acts[i] in {StartPressed, PausePressed}
    ensures Run(s, acts).timeLeft == s.timeLeft
    ensures Run(s, acts).duration == s.duration
    decreases |acts|
  {
    if |acts| > 0 {
      RunWithoutTimeActions(Step(s, acts[0]), acts[1..]);
    }
  }

  /** While armed, `n` firings take `n` seconds off, floored at zero, and leave
      every other field alone. */
  lemma {:induction false} RunFires(s: State, n: nat)
    requires Armed(s) && s.timeLeft >= 0
    ensures Run(s, Fires(n)) == s.(timeLeft := Max(0, s.timeLeft - n))
    decreases n
  {
    if n > 0 {
      var f := Fires(n);
      assert f[0] == IntervalFired;
      assert f[1..] == Fires(n - 1);
      RunFires(Tick(s), n - 1);
    }
  }

  /** There is no finished state: once the time is up the timer stays active
      and armed, and further firings change nothing. */
  lemma {:induction false} ZeroIsAbsorbing(s: State, n: nat)
    requires Armed(s) && s.timeLeft == 0
    ensures Run(s, Fires(n)) == s
    ensures Armed(Run(s, Fires(n)))
  {
    RunFires(s, n);
  }

  /** A full countdown: Set an accepted duration `d`, Start, and after `d`
      firings the time left is 0 while the timer is still active and armed. */
  lemma {:induction false} FullCountdown(s: State)
    requires Accepts(s.duration)
    ensures var r := Run(s, [SetPressed, StartPressed] + Fires(s.duration.n));
            r.timeLeft == 0 && r.isActive && !r.isPaused && Armed(r)
            && r.duration == s.duration
  {
    var d := s.duration.n;
    var started := Start(SetDuration(s));
    assert Run(s, [SetPressed, StartPressed]) == started by {
      assert [SetPressed, StartPressed][1..] == [StartPressed];
      assert [StartPressed][1..] == [];
    }
    RunAppend(s, [SetPressed, StartPressed], Fires(d));
    RunFires(started, d);
  }

  /** Pausing a running timer and starting it again restores exactly the state
      it was paused in: no time is lost or gained. */
  lemma PauseThenStartResumes(s: State)
    requires Inv(s) && s.isActive && s.timeLeft > 0
    ensures Step(Step(s, PausePressed), StartPressed) == s
    ensures Step(s, PausePressed).timeLeft == s.timeLeft
  {}

  /** A timer paused at zero cannot be resumed: Start does nothing there. */
  lemma PausedAtZeroStays(s: State)
    requires s.isActive && s.timeLeft == 0
    ensures Step(Step(s, PausePressed), StartPressed) == Step(s, PausePressed)
    ensures Step(s, PausePressed).isPaused && !Armed(Step(s, PausePressed))
  {}

  /** Reset depends on nothing but the input: two states with the same input
      reset to the same state, whatever time was left or last Set. */
  lemma ResetDependsOnlyOnInput(s1: State, s2: State)
    requires s1.duration == s2.duration
    ensures Reset(s1) == Reset(s2)
  {}

  /** A number typed in but never Set becomes the time left on Reset, even a
      negative one; the previously Set value is not restored, and the negative
      time cannot be started. */
  lemma ResetReadsLiveInput(n: int)
    ensures var r := Run(Initial, [EditInput(5), SetPressed, EditInput(n), ResetPressed]);
            r.timeLeft == n && !r.isActive && !r.isPaused
            && (n <= 0 ==> Step(r, StartPressed) == r)
  {
    var s1 := Edit(Initial, 5);
    var s2 := SetDuration(s1);
    var s3 := Edit(s2, n);
    assert Run(s3, [ResetPressed]) == Reset(s3);
    assert Run(s2, [EditInput(n), ResetPressed]) == Reset(s3) by {
      assert [EditInput(n), ResetPressed][1..] == [ResetPressed];
    }
    assert Run(s1, [SetPressed, EditInput(n), ResetPressed]) == Reset(s3) by {
      assert [SetPressed, EditInput(n), ResetPressed][1..] == [EditInput(n), ResetPressed];
    }
    assert [EditInput(5), SetPressed, EditInput(n), ResetPressed][1..]
        == [SetPressed, EditInput(n), ResetPressed];
  }

  /** After an accepted Set, Reset leaves the state unchanged, and pressing
      either button twice is the same as pressing it once. */
  lemma SetAndResetIdempotent(s: State)
    ensures Accepts(s.duration) ==> Reset(SetDuration(s)) == SetDuration(s)
    ensures SetDuration(SetDuration(s)) == SetDuration(s)
    ensures Reset(Reset(s)) == Reset(s)
    ensures Start(Start(s)) == Start(s) && Pause(Pause(s)) == Pause(s)
  {}
}
