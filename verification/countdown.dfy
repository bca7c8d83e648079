/**
 The state of the countdown widget and its four button handlers, the input
 edit, and the updater the recurring interval applies to the remaining time.

 Each handler is a pure transition on an immutable `State`. React's batching of
 the `set...` calls inside one handler is modelled by producing the whole new
 record at once.
 */
module Countdown {

  /** The raw value of the duration field: the initial empty string, or the
      number produced by the input's change handler. */
  datatype Duration = Empty | Num(n: int)

  datatype State = State(duration: Duration, timeLeft: int, isActive: bool, isPaused: bool)

  /** Mount-time state: empty input, nothing left, neither running nor paused. */
  const Initial := State(Empty, 0, false, false)

  /** The condition under which the effect leaves a recurring interval running. */
  predicate Armed(s: State) {
    s.isActive && !s.isPaused
  }

  /** Set accepts the input only when it is a number greater than zero. */
  predicate Accepts(d: Duration) {
    d.Num? && d.n > 0
  }

  /** The input's change handler. An emptied field reaches here as 0, since
      converting the empty string to a number yields 0; so after the first edit
      the duration is always a number. */
  function Edit(s: State, n: int): (r: State)
    ensures r.duration == Num(n)
    ensures r.timeLeft == s.timeLeft && r.isActive == s.isActive && r.isPaused == s.isPaused
  {
    s.(duration := Num(n))
  }

  /** The Set button: copy an accepted input into the remaining time and stop. */
  function SetDuration(s: State): (r: State)
    ensures r.duration == s.duration
    ensures Accepts(s.duration) ==>
              r.timeLeft == s.duration.n && !r.isActive && !r.isPaused && !Armed(r)
    ensures !Accepts(s.duration) ==> r == s
  {
    match s.duration
    case Num(d) =>
      if d > 0 then s.(timeLeft := d, isActive := false, isPaused := false) else s
    case Empty => s
  }

  /** The Start / Resume button: run only when there is time left. */
  function Start(s: State): (r: State)
    ensures r.duration == s.duration && r.timeLeft == s.timeLeft
    ensures s.timeLeft > 0 ==> r.isActive && !r.isPaused && Armed(r)
    ensures s.timeLeft <= 0 ==> r == s
  {
    if s.timeLeft > 0 then s.(isActive := true, isPaused := false) else s
  }

  /** The Pause button: only a running timer can be paused. */
  function Pause(s: State): (r: State)
    ensures r.duration == s.duration && r.timeLeft == s.timeLeft
    ensures s.isActive ==> r.isPaused && !r.isActive && !Armed(r)
    ensures !s.isActive ==> r == s
  {
    if s.isActive then s.(isPaused := true, isActive := false) else s
  }

  /** The Reset button: stop, and take the remaining time from the input as it
      currently reads (0 while it is still empty), not from the last Set. */
  function Reset(s: State): (r: State)
    ensures r.duration == s.duration
    ensures !r.isActive && !r.isPaused && !Armed(r)
    ensures s.duration.Num? ==> r.timeLeft == s.duration.n
    ensures s.duration.Empty? ==> r.timeLeft == 0
  {
    s.(isActive := false, isPaused := false,
       timeLeft := match s.duration case Num(d) => d case Empty => 0)
  }

  /** The updater the interval callback passes to the remaining-time setter:
      count down by one, never below zero. It touches no other field, so
      reaching zero does not stop the timer. */
  function Tick(s: State): (r: State)
    ensures r.timeLeft >= 0
    ensures s.timeLeft > 0 ==> r.timeLeft == s.timeLeft - 1
    ensures s.timeLeft <= 0 ==> r.timeLeft == 0
    ensures r.duration == s.duration && r.isActive == s.isActive && r.isPaused == s.isPaused
  {
    s.(timeLeft := if s.timeLeft > 0 then s.timeLeft - 1 else 0)
  }
}
