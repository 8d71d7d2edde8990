/**
 * An abstract model of the countdown timer the invader formation uses
 * (`rusty_time::timer::Timer`). Durations are whole milliseconds.
 *
 * How `Timer::update(delta)` counts down and when it raises `ready` is not
 * part of this model: a `Tick` is the state that call left behind, supplied
 * by the caller. The only assumption made about it is that advancing a timer
 * never changes its period.
 */
module Timing {
  datatype Timer = Timer(duration: nat, timeLeft: nat, ready: bool)

  /** What one call of `Timer::update(delta)` left in the timer. */
  datatype Tick = Tick(timeLeft: nat, ready: bool)

  /** `Timer::from_millis`: a fresh, not yet due countdown of `ms` milliseconds. */
  function FromMillis(ms: nat): Timer {
    Timer(ms, ms, false)
  }

  /** `Timer::reset`: start the same period over. */
  function Reset(t: Timer): Timer {
    t.(timeLeft := t.duration, ready := false)
  }

  /** `Timer::update(delta)`, with its outcome given by `tick`. */
  function Advance(t: Timer, tick: Tick): Timer {
    t.(timeLeft := tick.timeLeft, ready := tick.ready)
  }
}
