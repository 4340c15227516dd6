/** The supervisor's health state machine. */
module Health {
  datatype HealthState = Booting | Healthy | Degraded | Recovering | Failed | SafeMode

  datatype HealthEvent =
    HeartbeatOk | HeartbeatTimeout | RecoverySent | HeartbeatRestored | RecoveryFailed | CriticalFault

  datatype Transition = Transition(from: HealthState, to: HealthState, event: HealthEvent)

  function Next(s: HealthState, e: HealthEvent): HealthState {
    match s
    case Booting => if e.HeartbeatOk? then Healthy else s
    case Healthy => if e.HeartbeatTimeout? then Degraded else if e.CriticalFault? then SafeMode else s
    case Degraded =>
      if e.RecoverySent? then Recovering
      else if e.RecoveryFailed? then Failed
      else if e.CriticalFault? then SafeMode
      else s
    case Recovering =>
      if e.HeartbeatRestored? then Healthy else if e.RecoveryFailed? then Failed else s
    case Failed => s
    case SafeMode => s
  }

  /** What the hook is told when e is applied in s: only real changes. */
  function Told(s: HealthState, e: HealthEvent): seq<Transition> {
    if Next(s, e) == s then [] else [Transition(s, Next(s, e), e)]
  }

  class HealthStateMachine {
    var state: HealthState
    /** The calls of the transition hook, in order. */
    var hooked: seq<Transition>

    constructor ()
      ensures state == Booting && hooked == []
    {
      state, hooked := Booting, [];
    }

    method Apply(event: HealthEvent) returns (valid: bool)
      modifies this
      ensures state == Next(old(state), event)
      ensures valid <==> state != old(state)
      ensures hooked == old(hooked) + Told(old(state), event)
    {
      var from, to := state, state;
      match state {
        case Booting =>
          if event == HeartbeatOk { to := Healthy; }
        case Healthy =>
          if event == HeartbeatTimeout { to := Degraded; }
          else if event == CriticalFault { to := SafeMode; }
        case Degraded =>
          if event == RecoverySent { to := Recovering; }
          else if event == RecoveryFailed { to := Failed; }
          else if event == CriticalFault { to := SafeMode; }
        case Recovering =>
          if event == HeartbeatRestored { to := Healthy; }
          else if event == RecoveryFailed { to := Failed; }
        case _ =>
      }
      valid := to != from;
      if valid {
        state := to;
        hooked := hooked + [Transition(from, to, event)];
      }
    }
  }

  // ----- Runs of the machine alone -----

  function After(s: HealthState, events: seq<HealthEvent>): HealthState
    decreases |events|
  {
    if events == [] then s else After(Next(s, events[0]), events[1..])
  }

  function Trace(s: HealthState, events: seq<HealthEvent>): seq<Transition>
    decreases |events|
  {
    if events == [] then [] else Told(s, events[0]) + Trace(Next(s, events[0]), events[1..])
  }

  /** The edges of the documented diagram, less the documented
      RECOVERING to SAFE_MODE, which the code does not have. */
  const EDGES: set<(HealthState, HealthState)> := {
    (Booting, Healthy), (Healthy, Degraded), (Healthy, SafeMode),
    (Degraded, Recovering), (Degraded, Failed), (Degraded, SafeMode),
    (Recovering, Healthy), (Recovering, Failed) }

  /** Exactly those edges can be taken, each on exactly one event. */
  lemma EdgesTaken(s: HealthState, t: HealthState)
    ensures (s, t) in EDGES <==> exists e :: s != t && Next(s, e) == t
    ensures forall e, e' :: s != t && Next(s, e) == t && Next(s, e') == t ==> e == e'
  {
    var events := [HeartbeatOk, HeartbeatTimeout, RecoverySent, HeartbeatRestored, RecoveryFailed, CriticalFault];
    if (s, t) in EDGES {
      assert exists i :: 0 <= i < 6 && s != t && Next(s, events[i]) == t by {
        assert Next(s, events[0]) == t || Next(s, events[1]) == t || Next(s, events[2]) == t
            || Next(s, events[3]) == t || Next(s, events[4]) == t || Next(s, events[5]) == t;
      }
    }
  }

  /** A list of transitions that starts at s, continues without gaps along edges, and ends at t. */
  ghost predicate Walk(s: HealthState, path: seq<Transition>, t: HealthState)
    decreases |path|
  {
    if path == [] then s == t
    else path[0].from == s && (s, path[0].to) in EDGES && Walk(path[0].to, path[1..], t)
  }

  /** Whatever events come, the hook sees a gapless walk along the edges. */
  lemma {:induction false} TraceIsWalk(s: HealthState, events: seq<HealthEvent>)
    ensures Walk(s, Trace(s, events), After(s, events))
    decreases |events|
  {
    if events == [] {
    } else {
      var next := Next(s, events[0]);
      TraceIsWalk(next, events[1..]);
      assert Trace(s, events) == Told(s, events[0]) + Trace(next, events[1..]);
      if next != s {
        EdgesTaken(s, next);
        assert Trace(s, events)[1..] == Trace(next, events[1..]);
      } else {
        assert Trace(s, events) == Trace(next, events[1..]);
      }
    }
  }
}
