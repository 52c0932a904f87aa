/** The circuit breaker object of h2kvm/core/circuit_breaker.py.

    Every public method runs under one lock, so each is one atomic step. The
    source reads the monotonic clock up to twice inside a step; both readings
    are parameters here (`t0`, then `t1`). */
module CircuitBreakers {

  datatype CircuitState = Closed | Open | HalfOpen

  datatype Settings = Settings(failureThreshold: int, recoveryTimeout: real, halfOpenMaxCalls: int)

  /** The mutable fields of the breaker, as a value. */
  datatype Snapshot = Snapshot(
    state: CircuitState,
    failures: int,
    successes: int,
    halfOpenCalls: int,
    lastFailure: real,
    openedAt: real)

  /** What `before_call` does: return, or raise CircuitOpenError(remaining). */
  datatype Verdict = Admitted | Rejected(remaining: real)

  const FRESH := Snapshot(Closed, 0, 0, 0, 0.0, 0.0)

  function Transition(b: Snapshot, target: CircuitState, t: real): Snapshot
  {
    match target
    case Closed => b.(state := Closed, failures := 0, successes := 0, halfOpenCalls := 0)
    case Open => b.(state := Open, openedAt := t, halfOpenCalls := 0, successes := 0)
    case HalfOpen => b.(state := HalfOpen, halfOpenCalls := 0, successes := 0)
  }

  function MaybeHalfOpen(c: Settings, b: Snapshot, t0: real): Snapshot
  {
    if b.state == Open && t0 - b.openedAt >= c.recoveryTimeout then Transition(b, HalfOpen, t0) else b
  }

  function Remaining(c: Settings, b: Snapshot, t1: real): (r: real)
    ensures r >= 0.0
  {
    var left := c.recoveryTimeout - (t1 - b.openedAt);
    if left >= 0.0 then left else 0.0
  }

  function BeforeCall(c: Settings, b: Snapshot, t0: real, t1: real): (Snapshot, Verdict)
  {
    var b1 := MaybeHalfOpen(c, b, t0);
    match b1.state
    case Closed => (b1, Admitted)
    case Open => (b1, Rejected(Remaining(c, b1, t1)))
    case HalfOpen =>
      if b1.halfOpenCalls >= c.halfOpenMaxCalls then (b1, Rejected(Remaining(c, b1, t1)))
      else (b1.(halfOpenCalls := b1.halfOpenCalls + 1), Admitted)
  }

  function RecordSuccess(c: Settings, b: Snapshot): Snapshot
  {
    if b.state == HalfOpen then
      var b1 := b.(successes := b.successes + 1);
      if b1.successes >= c.halfOpenMaxCalls then Transition(b1, Closed, 0.0) else b1
    else
      b.(failures := 0, successes := b.successes + 1)
  }

  function RecordFailure(c: Settings, b: Snapshot, t0: real, t1: real): Snapshot
  {
    var b1 := b.(failures := b.failures + 1, lastFailure := t0);
    if b.state == HalfOpen || (b.state == Closed && b1.failures >= c.failureThreshold)
    then Transition(b1, Open, t1)
    else b1
  }

  /** The object itself: each method refines the step function of the same name. */
  class CircuitBreaker {
    const failureThreshold: int
    const recoveryTimeout: real
    const halfOpenMaxCalls: int
    var state: CircuitState
    var failureCount: int
    var successCount: int
    var halfOpenCalls: int
    var lastFailureTime: real
    var openedAt: real

    function Config(): Settings
    {
      Settings(failureThreshold, recoveryTimeout, halfOpenMaxCalls)
    }

    function Fields(): Snapshot
      reads this
    {
      Snapshot(state, failureCount, successCount, halfOpenCalls, lastFailureTime, openedAt)
    }

    constructor (c: Settings)
      ensures Config() == c && Fields() == FRESH
    {
      failureThreshold, recoveryTimeout := c.failureThreshold, c.recoveryTimeout;
      halfOpenMaxCalls := c.halfOpenMaxCalls;
      state := Closed;
      failureCount, successCount, halfOpenCalls := 0, 0, 0;
      lastFailureTime, openedAt := 0.0, 0.0;
    }

    method TransitionTo(target: CircuitState, t: real)
      modifies this
      ensures Fields() == Transition(old(Fields()), target, t)
    {
      state := target;
      match target {
        case Closed =>
          failureCount := 0;
          successCount := 0;
          halfOpenCalls := 0;
        case Open =>
          openedAt := t;
          halfOpenCalls := 0;
          successCount := 0;
        case HalfOpen =>
          halfOpenCalls := 0;
          successCount := 0;
      }
    }

    method MaybeTransitionToHalfOpen(t0: real)
      modifies this
      ensures Fields() == MaybeHalfOpen(Config(), old(Fields()), t0)
    {
      if state != Open {
        return;
      }
      var elapsed := t0 - openedAt;
      if elapsed >= recoveryTimeout {
        TransitionTo(HalfOpen, t0);
      }
    }

    /** The `state` property: reading it may move OPEN to HALF_OPEN. */
    method ReadState(t0: real) returns (s: CircuitState)
      modifies this
      ensures Fields() == MaybeHalfOpen(Config(), old(Fields()), t0) && s == state
    {
      MaybeTransitionToHalfOpen(t0);
      s := state;
    }

    method BeforeCallStep(t0: real, t1: real) returns (v: Verdict)
      modifies this
      ensures (Fields(), v) == BeforeCall(Config(), old(Fields()), t0, t1)
    {
      MaybeTransitionToHalfOpen(t0);
      if state == Closed {
        return Admitted;
      }
      if state == Open {
        return Rejected(Remaining(Config(), Fields(), t1));
      }
      if halfOpenCalls >= halfOpenMaxCalls {
        return Rejected(Remaining(Config(), Fields(), t1));
      }
      halfOpenCalls := halfOpenCalls + 1;
      v := Admitted;
    }

    method RecordSuccessStep()
      modifies this
      ensures Fields() == RecordSuccess(Config(), old(Fields()))
    {
      if state == HalfOpen {
        successCount := successCount + 1;
        if successCount >= halfOpenMaxCalls {
          TransitionTo(Closed, 0.0);
        }
      } else {
        failureCount := 0;
        successCount := successCount + 1;
      }
    }

    method RecordFailureStep(t0: real, t1: real)
      modifies this
      ensures Fields() == RecordFailure(Config(), old(Fields()), t0, t1)
    {
      failureCount := failureCount + 1;
      lastFailureTime := t0;
      if state == HalfOpen {
        TransitionTo(Open, t1);
      } else if state == Closed {
        if failureCount >= failureThreshold {
          TransitionTo(Open, t1);
        }
      }
    }

    method ResetStep()
      modifies this
      ensures Fields() == Transition(old(Fields()), Closed, 0.0)
    {
      TransitionTo(Closed, 0.0);
    }
  }
}
