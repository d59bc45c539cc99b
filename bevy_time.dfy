/** Bevy's one-shot `Timer`, reduced to elapsed time against a duration (in nanoseconds). */
module BevyTime {

  const OneSecond: nat := 1_000_000_000

  function Min(a: nat, b: nat): nat {
    if a <= b then a else b
  }

  /** A `TimerMode::Once` timer. Its elapsed time stops at the duration; `finished` is set by
      `tick` only, so a new or reset timer is unfinished until it is ticked. */
  datatype Timer = Timer(duration: nat, elapsed: nat, finished: bool) {

    predicate Valid() {
      elapsed <= duration && (finished ==> elapsed == duration)
    }

    predicate Finished() {
      finished
    }

    function Tick(delta: nat): (t: Timer)
      ensures t.duration == duration
      ensures Valid() ==> t.Valid()
      ensures t.Finished() <==> elapsed + delta >= duration
    {
      var e := Min(elapsed + delta, duration);
      Timer(duration, e, e >= duration)
    }

    function Reset(): (t: Timer)
      ensures t.duration == duration && t.elapsed == 0 && !t.Finished() && t.Valid()
    {
      Timer(duration, 0, false)
    }
  }

  /** `Timer::new(duration, TimerMode::Once)`. */
  function NewTimer(duration: nat): (t: Timer)
    ensures t.Valid() && t.duration == duration && t.elapsed == 0 && !t.Finished()
  {
    Timer(duration, 0, false)
  }

  function Sum(deltas: seq<nat>): nat
    decreases |deltas|
  {
    if deltas == [] then 0 else deltas[0] + Sum(deltas[1..])
  }

  function TickAll(t: Timer, deltas: seq<nat>): Timer
    decreases |deltas|
  {
    if deltas == [] then t else TickAll(t.Tick(deltas[0]), deltas[1..])
  }

  /** Ticking by a run of frame times adds them up, stopping at the duration; so after at least
      one tick the timer is finished exactly when the frame times reach its duration. */
  lemma {:induction false} TickAllElapsed(t: Timer, deltas: seq<nat>)
    requires t.Valid()
    ensures TickAll(t, deltas).Valid() && TickAll(t, deltas).duration == t.duration
    ensures TickAll(t, deltas).elapsed == Min(t.elapsed + Sum(deltas), t.duration)
    ensures deltas != [] ==> (TickAll(t, deltas).Finished() <==> t.elapsed + Sum(deltas) >= t.duration)
    ensures deltas == [] ==> TickAll(t, deltas) == t
    decreases |deltas|
  {
    if deltas != [] {
      TickAllElapsed(t.Tick(deltas[0]), deltas[1..]);
    }
  }
}
