/**
 * The autopilot record (src/autopilot.rs): whether it is running, the
 * keys it simulates, and its progress and distance counters.  `start`
 * and `stop` overwrite every field in place.
 *
 * The counters are `f32` in the source and `real` here; neither
 * operation does arithmetic on them, it only resets them to zero.
 */
module Autopilots {

  /** The window library's keys that the program reads (src/main.rs). */
  datatype Key = Escape | Right | Left | Up | Down | S | A | Q | W | E | R | T | Y

  /** The four fields of the record, as a value. */
  datatype AutopilotState = AutopilotState(active: bool, simulatedKeys: seq<Key>, progress: real, distanceTraveled: real)

  /** The state `Autopilot::new` builds. */
  function Initial(): AutopilotState
  {
    AutopilotState(false, [], 0.0, 0.0)
  }

  /** `start` applied to state `s`: running, turning and moving forward, counters at zero. */
  function Started(s: AutopilotState): AutopilotState
  {
    s.(active := true, simulatedKeys := [A, W], progress := 0.0, distanceTraveled := 0.0)
  }

  /** `stop` applied to state `s`: halted, no keys, counters at zero. */
  function Stopped(s: AutopilotState): AutopilotState
  {
    s.(active := false, simulatedKeys := [], progress := 0.0, distanceTraveled := 0.0)
  }

  /** Not running, no keys simulated, nothing accumulated. */
  predicate Idle(s: AutopilotState)
  {
    !s.active && s.simulatedKeys == [] && s.progress == 0.0 && s.distanceTraveled == 0.0
  }

  /** A new autopilot is idle, and `stop` returns any state to the initial one. */
  lemma StopResets(s: AutopilotState)
    ensures Idle(Initial())
    ensures Stopped(s) == Initial() && Idle(Stopped(s))
  {
  }

  /** Stopping twice is the same as stopping once. */
  lemma StopIdempotent(s: AutopilotState)
    ensures Stopped(Stopped(s)) == Stopped(s)
  {
  }

  /** The state after `start` does not depend on the state before it. */
  lemma StartForgetsHistory(s: AutopilotState, t: AutopilotState)
    ensures Started(s) == Started(t)
    ensures Started(s).active && Started(s).simulatedKeys == [A, W]
    ensures Started(s).progress == 0.0 && Started(s).distanceTraveled == 0.0
  {
  }

  /** `start` and `stop` are each other's opposites on `active`, and `stop` undoes `start`. */
  lemma StartStopRoundTrip(s: AutopilotState)
    ensures Stopped(Started(s)) == Initial()
    ensures Started(s).active && !Stopped(s).active
  {
  }

  class Autopilot {
    var active: bool
    var simulatedKeys: seq<Key>
    var progress: real
    var distanceTraveled: real

    function State(): AutopilotState
      reads this
    {
      AutopilotState(active, simulatedKeys, progress, distanceTraveled)
    }

    /** `Autopilot::new`. */
    constructor ()
      ensures State() == Initial()
    {
      active := false;
      simulatedKeys := [];
      progress := 0.0;
      distanceTraveled := 0.0;
    }

    /** `start`: simulates a turn (A) and a forward move (W) from zero progress. */
    method Start()
      modifies this
      ensures State() == Started(old(State()))
    {
      active := true;
      simulatedKeys := [A, W];
      progress := 0.0;
      distanceTraveled := 0.0;
    }

    /** `stop`: halts and clears the simulated keys and the counters. */
    method Stop()
      modifies this
      ensures State() == Stopped(old(State()))
    {
      active := false;
      simulatedKeys := [];
      progress := 0.0;
      distanceTraveled := 0.0;
    }
  }
}
