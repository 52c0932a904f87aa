/** The breaker as a concurrent protocol: an unbounded number of in-flight calls
    run outside the lock and report whenever they like, or never (the decorator
    catches only `Exception`). A report need not belong to a pending call: a
    second report, or a manual `record_*`, is an event with an unknown id. */
module BreakerProtocol {
  import opened CircuitBreakers

  datatype Event =
    | Call(t0: real, t1: real)
    | Success(id: nat)
    | Failure(id: nat, t0: real, t1: real)
    | Reset
    | Observe(t0: real)

  /** What happened during the current stay in one state. `own` marks a success
      reported by a call that was admitted in this very stay. */
  datatype Mark = Admission | Refusal | Succeeded(own: bool) | Failed

  /** `pending` maps each admitted call that has not reported to the stay
      (`episode`) that admitted it; `since` lists the marks of the current stay. */
  datatype System = System(
    b: Snapshot,
    clock: real,
    nextId: nat,
    pending: map<nat, nat>,
    episode: nat,
    since: seq<Mark>)

  function Start(clock: real): System
  {
    System(FRESH, clock, 0, map[], 0, [])
  }

  predicate Timely(s: System, e: Event)
  {
    match e
    case Call(t0, t1) => s.clock <= t0 <= t1
    case Failure(_, t0, t1) => s.clock <= t0 <= t1
    case Observe(t0) => s.clock <= t0
    case _ => true
  }

  predicate Own(s: System, id: nat)
  {
    id in s.pending && s.pending[id] == s.episode
  }

  /** The bookkeeping of a step that leaves the breaker at `b`. */
  function Enter(s: System, b: Snapshot, clock: real): System
  {
    if b.state == s.b.state then s.(b := b, clock := clock)
    else s.(b := b, clock := clock, episode := s.episode + 1, since := [])
  }

  function Noting(s: System, m: Mark): System
  {
    s.(since := s.since + [m])
  }

  function Step(c: Settings, s: System, e: Event): System
  {
    match e
    case Call(t0, t1) =>
      var (b1, v) := BeforeCall(c, s.b, t0, t1);
      var s1 := Enter(s, b1, t1);
      if v.Admitted?
      then Noting(s1, Admission).(pending := s.pending[s.nextId := s1.episode], nextId := s.nextId + 1)
      else Noting(s1, Refusal)
    case Success(id) =>
      Enter(Noting(s, Succeeded(Own(s, id))), RecordSuccess(c, s.b), s.clock).(pending := s.pending - {id})
    case Failure(id, t0, t1) =>
      Enter(Noting(s, Failed), RecordFailure(c, s.b, t0, t1), t1).(pending := s.pending - {id})
    case Reset =>
      s.(b := Transition(s.b, Closed, 0.0), episode := s.episode + 1, since := [])
    case Observe(t0) =>
      Enter(s, MaybeHalfOpen(c, s.b, t0), t0)
  }

  /** A run: any interleaving of any number of callers. `states[k]` is the state
      before event k, and the clock never goes backwards. */
  ghost predicate IsRun(c: Settings, states: seq<System>, events: seq<Event>)
  {
    && |states| == |events| + 1
    && states[0] == Start(states[0].clock)
    && (forall k | 0 <= k < |events| :: Timely(states[k], events[k]))
    && (forall k | 0 <= k < |events| :: states[k + 1] == Step(c, states[k], events[k]))
  }

  // ----- reading the history of the current stay

  /** Length of the trailing run of failures among the recorded outcomes. */
  function FailingSuffix(marks: seq<Mark>): nat
  {
    if marks == [] then 0
    else
      var front := marks[..|marks| - 1];
      match marks[|marks| - 1]
      case Failed => 1 + FailingSuffix(front)
      case Succeeded(_) => 0
      case _ => FailingSuffix(front)
  }

  function Admissions(marks: seq<Mark>): nat
  {
    if marks == [] then 0
    else Admissions(marks[..|marks| - 1]) + (if marks[|marks| - 1] == Admission then 1 else 0)
  }

  function Successes(marks: seq<Mark>): nat
  {
    if marks == [] then 0
    else Successes(marks[..|marks| - 1]) + (if marks[|marks| - 1].Succeeded? then 1 else 0)
  }

  function OwnSuccesses(marks: seq<Mark>): nat
  {
    if marks == [] then 0
    else OwnSuccesses(marks[..|marks| - 1]) + (if marks[|marks| - 1] == Succeeded(true) then 1 else 0)
  }

  /** Calls admitted in the current stay that have not reported. */
  ghost function Unreported(s: System): set<nat>
  {
    set id | id in s.pending && s.pending[id] == s.episode
  }

  function AtLeastOne(n: int): int
  {
    if n < 1 then 1 else n
  }

  function AtLeastZero(n: int): int
  {
    if n < 0 then 0 else n
  }

  // ----- the invariant

  ghost predicate Bookkept(s: System)
  {
    forall id | id in s.pending :: id < s.nextId && s.pending[id] <= s.episode
  }

  ghost predicate ClosedInv(c: Settings, s: System)
  {
    && s.b.failures == FailingSuffix(s.since)
    && s.b.failures < AtLeastOne(c.failureThreshold)
  }

  ghost predicate OpenInv(s: System)
  {
    && s.b.openedAt <= s.clock
    && Admission !in s.since
  }

  ghost predicate HalfOpenInv(c: Settings, s: System)
  {
    && s.b.openedAt + c.recoveryTimeout <= s.clock
    && s.b.halfOpenCalls == Admissions(s.since)
    && s.b.successes == Successes(s.since)
    && Failed !in s.since
    && s.b.successes < AtLeastOne(c.halfOpenMaxCalls)
    && s.b.halfOpenCalls <= AtLeastZero(c.halfOpenMaxCalls)
    && s.b.halfOpenCalls == |Unreported(s)| + OwnSuccesses(s.since)
    && OwnSuccesses(s.since) <= Successes(s.since)
  }

  ghost predicate Inv(c: Settings, s: System)
  {
    && Bookkept(s)
    && match s.b.state
       case Closed => ClosedInv(c, s)
       case Open => OpenInv(s)
       case HalfOpen => HalfOpenInv(c, s)
  }

  lemma NotingExtends(s: System, m: Mark)
    ensures Noting(s, m).since[..|s.since|] == s.since
    ensures forall x :: x in Noting(s, m).since <==> x in s.since || x == m
  {
  }

  lemma MarksCount(s: System, m: Mark)
    ensures Admissions(Noting(s, m).since) == Admissions(s.since) + if m == Admission then 1 else 0
    ensures Successes(Noting(s, m).since) == Successes(s.since) + if m.Succeeded? then 1 else 0
    ensures OwnSuccesses(Noting(s, m).since) == OwnSuccesses(s.since) + if m == Succeeded(true) then 1 else 0
  {
    assert Noting(s, m).since[..|s.since|] == s.since;
  }

  /** Leaving one state for another starts a stay that no pending call belongs to. */
  lemma NewStayIsEmpty(s: System)
    requires Bookkept(s)
    ensures Unreported(s.(episode := s.episode + 1)) == {}
  {
  }

  /** A HALF_OPEN stay admits one more probe. */
  function Probing(s: System, t1: real): System
  {
    Noting(s, Admission).(
      b := s.b.(halfOpenCalls := s.b.halfOpenCalls + 1),
      clock := t1,
      pending := s.pending[s.nextId := s.episode],
      nextId := s.nextId + 1)
  }

  function Refusing(s: System, t1: real): System
  {
    Noting(s, Refusal).(clock := t1)
  }

  /** A probe admitted by a HALF_OPEN stay takes one slot and is one more unreported call. */
  lemma ProbeKeepsInv(c: Settings, s: System, t1: real)
    requires Inv(c, s) && s.b.state == HalfOpen && s.clock <= t1
    requires s.b.halfOpenCalls < c.halfOpenMaxCalls
    ensures Inv(c, Probing(s, t1))
  {
    hide Admissions, Successes, OwnSuccesses;
    var s2 := Probing(s, t1);
    NotingExtends(s, Admission);
    MarksCount(s, Admission);
    assert Unreported(s2) == Unreported(s) + {s.nextId};
    assert s.nextId !in Unreported(s);
  }

  lemma RefusalKeepsInv(c: Settings, s: System, t1: real)
    requires Inv(c, s) && s.b.state != Closed && s.clock <= t1
    ensures Inv(c, Refusing(s, t1))
  {
    var s2 := Refusing(s, t1);
    NotingExtends(s, Refusal);
    assert Unreported(s2) == Unreported(s);
  }

  lemma ClosedCallKeepsInv(c: Settings, s: System, e: Event)
    requires e.Call? && Inv(c, s) && s.b.state == Closed
    ensures Inv(c, Step(c, s, e))
  {
    NotingExtends(s, Admission);
  }

  /** A call that finds the breaker not CLOSED first observes it, then is a probe or is
      refused. */
  lemma CallAfterObserving(c: Settings, s: System, e: Event)
    requires e.Call? && s.b.state != Closed
    ensures var s1 := Step(c, s, Observe(e.t0));
            Step(c, s, e) ==
            if s1.b.state == HalfOpen && s1.b.halfOpenCalls < c.halfOpenMaxCalls
            then Probing(s1, e.t1)
            else Refusing(s1, e.t1)
    ensures Step(c, s, Observe(e.t0)).b.state != Closed && Step(c, s, Observe(e.t0)).clock == e.t0
  {
  }

  lemma CallKeepsInv(c: Settings, s: System, e: Event)
    requires e.Call? && Inv(c, s) && Timely(s, e)
    ensures Inv(c, Step(c, s, e))
  {
    if s.b.state == Closed {
      ClosedCallKeepsInv(c, s, e);
    } else {
      hide Inv, Step, Probing, Refusing;
      ObserveKeepsInv(c, s, Observe(e.t0));
      CallAfterObserving(c, s, e);
      var s1 := Step(c, s, Observe(e.t0));
      if s1.b.state == HalfOpen && s1.b.halfOpenCalls < c.halfOpenMaxCalls {
        ProbeKeepsInv(c, s1, e.t1);
      } else {
        RefusalKeepsInv(c, s1, e.t1);
      }
    }
  }

  lemma SuccessKeepsInv(c: Settings, s: System, e: Event)
    requires e.Success? && Inv(c, s)
    ensures Inv(c, Step(c, s, e))
  {
    if s.b.state == HalfOpen {
      ProbeSuccessKeepsInv(c, s, e);
    } else {
      hide Admissions, Successes, OwnSuccesses;
      NotingExtends(s, Succeeded(Own(s, e.id)));
    }
  }

  /** A HALF_OPEN stay records a success that does not close it yet. */
  function Succeeding(s: System, id: nat): System
  {
    Noting(s, Succeeded(Own(s, id))).(b := s.b.(successes := s.b.successes + 1), pending := s.pending - {id})
  }

  lemma SuccessInHalfOpen(c: Settings, s: System, e: Event)
    requires e.Success? && s.b.state == HalfOpen
    ensures s.b.successes + 1 < c.halfOpenMaxCalls ==> Step(c, s, e) == Succeeding(s, e.id)
    ensures s.b.successes + 1 >= c.halfOpenMaxCalls ==>
              Step(c, s, e) == s.(b := Transition(s.b, Closed, 0.0), episode := s.episode + 1, since := [],
                                  pending := s.pending - {e.id})
  {
  }

  lemma SucceedingKeepsInv(c: Settings, s: System, id: nat)
    requires Inv(c, s) && s.b.state == HalfOpen && s.b.successes + 1 < c.halfOpenMaxCalls
    ensures Inv(c, Succeeding(s, id))
  {
    hide Admissions, Successes, OwnSuccesses;
    NotingExtends(s, Succeeded(Own(s, id)));
    MarksCount(s, Succeeded(Own(s, id)));
    assert Unreported(Succeeding(s, id)) == Unreported(s) - {id};
    assert id in Unreported(s) <==> Own(s, id);
  }

  lemma ProbeSuccessKeepsInv(c: Settings, s: System, e: Event)
    requires e.Success? && Inv(c, s) && s.b.state == HalfOpen
    ensures Inv(c, Step(c, s, e))
  {
    SuccessInHalfOpen(c, s, e);
    if s.b.successes + 1 < c.halfOpenMaxCalls {
      SucceedingKeepsInv(c, s, e.id);
    } else {
      hide Step, Admissions, Successes, OwnSuccesses;
      assert FailingSuffix([]) == 0;
    }
  }

  lemma FailureKeepsInv(c: Settings, s: System, e: Event)
    requires e.Failure? && Inv(c, s) && Timely(s, e)
    ensures Inv(c, Step(c, s, e))
  {
    NotingExtends(s, Failed);
  }

  lemma ObserveKeepsInv(c: Settings, s: System, e: Event)
    requires e.Observe? && Inv(c, s) && Timely(s, e)
    ensures Inv(c, Step(c, s, e))
  {
    NewStayIsEmpty(s);
    var s2 := Step(c, s, e);
    if s2.b.state == s.b.state {
      assert Unreported(s2) == Unreported(s);
    } else {
      assert Unreported(s2) == {};
    }
  }

  lemma StepKeepsInv(c: Settings, s: System, e: Event)
    requires Inv(c, s) && Timely(s, e)
    ensures Inv(c, Step(c, s, e))
  {
    match e
    case Call(_, _) => CallKeepsInv(c, s, e);
    case Success(_) => SuccessKeepsInv(c, s, e);
    case Failure(_, _, _) => FailureKeepsInv(c, s, e);
    case Reset =>
    case Observe(_) => ObserveKeepsInv(c, s, e);
  }

  /** Every reachable state of every interleaving satisfies the invariant, whatever
      the settings and however many stale or stray reports arrive. */
  lemma {:induction false} Reachable(c: Settings, states: seq<System>, events: seq<Event>, k: nat)
    requires IsRun(c, states, events) && k < |states|
    ensures Inv(c, states[k])
  {
    if k != 0 {
      Reachable(c, states, events, k - 1);
      StepKeepsInv(c, states[k - 1], events[k - 1]);
    }
  }

  // ----- main results

  /** Conservation in HALF_OPEN: every probe slot is held by an unreported probe or
      was paid back by a success of that probe, so slots never leak; and an episode
      never admits more than `half_open_max_calls` calls. */
  lemma ProbeSlotsAreConserved(c: Settings, states: seq<System>, events: seq<Event>, k: nat)
    requires IsRun(c, states, events) && k < |states|
    requires states[k].b.state == HalfOpen
    ensures var s := states[k];
            && s.b.halfOpenCalls == |Unreported(s)| + OwnSuccesses(s.since)
            && s.b.halfOpenCalls <= |Unreported(s)| + s.b.successes
            && s.b.successes < AtLeastOne(c.halfOpenMaxCalls)
            && Admissions(s.since) <= AtLeastZero(c.halfOpenMaxCalls)
  {
    Reachable(c, states, events, k);
  }

  /** The breaker never wedges: once every call of the current stay has reported
      and, if OPEN, the recovery timeout has passed, the next call is admitted. */
  lemma NeverWedges(c: Settings, states: seq<System>, events: seq<Event>, k: nat, t0: real, t1: real)
    requires IsRun(c, states, events) && k < |states|
    requires c.halfOpenMaxCalls >= 1
    requires Unreported(states[k]) == {}
    requires states[k].b.state == Open ==> t0 - states[k].b.openedAt >= c.recoveryTimeout
    ensures BeforeCall(c, states[k].b, t0, t1).1.Admitted?
  {
    Reachable(c, states, events, k);
  }

  predicate Quiet(run: seq<Event>)
  {
    forall i | 0 <= i < |run| :: run[i].Call? || run[i].Observe?
  }

  function Continue(c: Settings, s: System, run: seq<Event>): System
    decreases |run|
  {
    if run == [] then s else Continue(c, Step(c, s, run[0]), run[1..])
  }

  /** The clock readings of the events do not go backwards from `s` on. */
  predicate Onward(c: Settings, s: System, run: seq<Event>)
    decreases |run|
  {
    run == [] || (Timely(s, run[0]) && Onward(c, Step(c, s, run[0]), run[1..]))
  }

  /** No call is admitted from here on, for as long as nothing is reported or reset. */
  ghost predicate Wedged(c: Settings, s: System)
  {
    forall later | Quiet(later) && Onward(c, s, later) :: Continue(c, s, later).nextId == s.nextId
  }

  /** All slots of a HALF_OPEN stay are taken, or an OPEN breaker would find none. */
  predicate NoSlot(c: Settings, b: Snapshot)
  {
    match b.state
    case Closed => false
    case Open => c.halfOpenMaxCalls <= 0
    case HalfOpen => b.halfOpenCalls >= c.halfOpenMaxCalls
  }

  lemma {:induction false} NoSlotStays(c: Settings, s: System, later: seq<Event>)
    requires NoSlot(c, s.b) && Quiet(later)
    ensures NoSlot(c, Continue(c, s, later).b)
    ensures Continue(c, s, later).nextId == s.nextId
    ensures s.b.state == HalfOpen ==> Continue(c, s, later).b == s.b
    decreases |later|
  {
    if later != [] {
      NoSlotStays(c, Step(c, s, later[0]), later[1..]);
    }
  }

  /** A time at which the next call may ask with the best prospects. */
  function Patience(c: Settings, s: System): (t: real)
    ensures t >= s.clock && t - s.b.openedAt >= c.recoveryTimeout
  {
    if s.clock - s.b.openedAt >= c.recoveryTimeout then s.clock else s.b.openedAt + c.recoveryTimeout
  }

  lemma SlotIsFound(c: Settings, s: System)
    requires !NoSlot(c, s.b)
    ensures !Wedged(c, s)
  {
    var ask := Call(Patience(c, s), Patience(c, s));
    var later := [ask];
    assert later[1..] == [];
    assert Onward(c, s, later);
    assert Continue(c, s, later) == Step(c, s, ask);
    assert Continue(c, s, later).nextId == s.nextId + 1;
  }

  /** When the breaker wedges, exactly. In HALF_OPEN: when the unreported probes, together
      with the slots its own successes have used up, leave no slot; so one lost probe can
      be enough. In OPEN: when no probe is ever allowed. In CLOSED never. */
  lemma WedgedExactly(c: Settings, s: System)
    requires Inv(c, s)
    ensures Wedged(c, s) <==>
            match s.b.state
            case Closed => false
            case Open => c.halfOpenMaxCalls <= 0
            case HalfOpen => |Unreported(s)| + OwnSuccesses(s.since) >= c.halfOpenMaxCalls
  {
    if NoSlot(c, s.b) {
      forall later | Quiet(later) && Onward(c, s, later)
        ensures Continue(c, s, later).nextId == s.nextId
      {
        NoSlotStays(c, s, later);
      }
    } else {
      SlotIsFound(c, s);
    }
  }

  /** When the probes of a HALF_OPEN stay hold all the slots and none ever reports, no
      later call is ever admitted, however much time passes. */
  lemma LostProbesWedge(c: Settings, s: System, later: seq<Event>)
    requires Inv(c, s) && s.b.state == HalfOpen
    requires |Unreported(s)| >= c.halfOpenMaxCalls
    requires Quiet(later)
    ensures Wedged(c, s)
    ensures Continue(c, s, later).b == s.b
    ensures Continue(c, s, later).nextId == s.nextId
  {
    WedgedExactly(c, s);
    NoSlotStays(c, s, later);
  }

  /** One lost probe of two is enough: the other succeeded and its slot is not given back.
      The failure count is still 1 right after that success. */
  lemma OneLostProbeWedges() returns (c: Settings, states: seq<System>, events: seq<Event>)
    ensures IsRun(c, states, events) && |events| == 6 && c.halfOpenMaxCalls == 2
    ensures states[6].b.state == HalfOpen && Unreported(states[6]) == {2}
    ensures events[5].Success? && states[6].b.failures == 1
    ensures Wedged(c, states[6])
  {
    c, states, events := OneLostProbe();
    hide Wedged, Inv, Step;
    assert Unreported(states[6]) == {2};
    Reachable(c, states, events, 6);
    SlotsGone(c, states[6]);
  }

  lemma SlotsGone(c: Settings, s: System)
    requires Inv(c, s) && NoSlot(c, s.b)
    ensures Wedged(c, s)
  {
    WedgedExactly(c, s);
  }

  lemma OneLostProbe() returns (c: Settings, states: seq<System>, events: seq<Event>)
    ensures IsRun(c, states, events) && |events| == 6 && c.halfOpenMaxCalls == 2
    ensures states[6].b.state == HalfOpen && NoSlot(c, states[6].b)
    ensures events[5].Success? && states[6].b.failures == 1
    ensures states[6].pending == map[2 := 2] && states[6].episode == 2
  {
    hide IsRun;
    c := Settings(1, 60.0, 2);
    var s := Start(0.0);
    RunStarts(c, s);
    states, events := [s], [];
    states, events, s := RunGrows(c, states, events, s, Call(0.0, 0.0));
    states, events, s := RunGrows(c, states, events, s, Failure(0, 0.0, 0.0));
    states, events, s := RunGrows(c, states, events, s, Observe(61.0));
    assert s.b == Snapshot(HalfOpen, 1, 0, 0, 0.0, 0.0) && s.pending == map[] && s.episode == 2;
    states, events, s := RunGrows(c, states, events, s, Call(61.0, 61.0));
    assert s.b == Snapshot(HalfOpen, 1, 0, 1, 0.0, 0.0) && s.pending == map[1 := 2];
    states, events, s := RunGrows(c, states, events, s, Call(61.0, 61.0));
    assert s.b == Snapshot(HalfOpen, 1, 0, 2, 0.0, 0.0) && s.pending == map[1 := 2, 2 := 2];
    states, events, s := RunGrows(c, states, events, s, Success(1));
    assert s.b == Snapshot(HalfOpen, 1, 1, 2, 0.0, 0.0) && s.pending == map[2 := 2];
  }

  lemma RunStarts(c: Settings, s: System)
    requires s == Start(s.clock)
    ensures IsRun(c, [s], [])
  {
  }

  lemma RunGrows(c: Settings, states: seq<System>, events: seq<Event>, s: System, e: Event)
    returns (states': seq<System>, events': seq<Event>, s': System)
    requires IsRun(c, states, events) && |states| == |events| + 1
    requires states[|events|] == s && Timely(s, e)
    ensures states' == states + [s'] && events' == events + [e] && s' == Step(c, s, e)
    ensures IsRun(c, states', events') && states'[|events'|] == s'
  {
    hide Step, Timely;
    states', events', s' := states + [Step(c, s, e)], events + [e], Step(c, s, e);
  }

  /** CLOSED trips exactly when the outcomes recorded since it was entered end in
      `failure_threshold` consecutive failures (at least one). */
  lemma ClosedTripsExactly(c: Settings, states: seq<System>, events: seq<Event>, k: nat)
    requires IsRun(c, states, events) && k < |events|
    requires states[k].b.state == Closed
    ensures states[k].b.failures == FailingSuffix(states[k].since)
    ensures states[k + 1].b.state == Open <==>
            events[k].Failure? && FailingSuffix(states[k].since + [Failed]) == AtLeastOne(c.failureThreshold)
  {
    Reachable(c, states, events, k);
    assert states[k + 1] == Step(c, states[k], events[k]);
    hide IsRun, Step;
    ClosedStepTrips(c, states[k], events[k]);
  }

  lemma ClosedStepTrips(c: Settings, s: System, e: Event)
    requires Inv(c, s) && s.b.state == Closed
    ensures s.b.failures == FailingSuffix(s.since)
    ensures Step(c, s, e).b.state == Open <==>
            e.Failure? && FailingSuffix(s.since + [Failed]) == AtLeastOne(c.failureThreshold)
  {
    assert (s.since + [Failed])[..|s.since|] == s.since;
  }

  /** HALF_OPEN closes, other than by `reset`, exactly on the success that makes
      `half_open_max_calls` recorded successes, and then no failure was recorded in
      the stay; any recorded failure re-opens it. */
  lemma HalfOpenClosesExactly(c: Settings, states: seq<System>, events: seq<Event>, k: nat)
    requires IsRun(c, states, events) && k < |events| && !events[k].Reset?
    requires states[k].b.state == HalfOpen
    ensures Failed !in states[k].since
    ensures states[k + 1].b.state == Closed <==>
            events[k].Success? && Successes(states[k].since) + 1 == AtLeastOne(c.halfOpenMaxCalls)
    ensures states[k + 1].b.state == Open <==> events[k].Failure?
  {
    Reachable(c, states, events, k);
  }

  // ----- the recovery timeout, over whole runs

  /** Nothing since an opening at time `t`, except `reset`, admits a call before
      `t + recovery_timeout`. */
  ghost predicate OpenedBy(c: Settings, s: System, t: real)
  {
    && t <= s.clock
    && if s.b.state == Open then t <= s.b.openedAt else t + c.recoveryTimeout <= s.clock
  }

  lemma OpenedByIsKept(c: Settings, s: System, e: Event, t: real)
    requires OpenedBy(c, s, t) && Timely(s, e) && !e.Reset?
    ensures OpenedBy(c, Step(c, s, e), t)
  {
  }

  lemma OnlyFailuresOpen(c: Settings, s: System, e: Event)
    requires s.b.state != Open && Step(c, s, e).b.state == Open
    ensures e.Failure? && Step(c, s, e).b.openedAt == Step(c, s, e).clock == e.t1
  {
  }

  lemma AdmittedLate(c: Settings, s: System, e: Event, t: real)
    requires OpenedBy(c, s, t) && Timely(s, e) && e.Call?
    requires Step(c, s, e).nextId > s.nextId
    ensures e.t0 - t >= c.recoveryTimeout
  {
  }

  lemma {:induction false} OpenedByAlong(c: Settings, states: seq<System>, events: seq<Event>, i: nat, j: nat)
    requires IsRun(c, states, events) && i < j < |states|
    requires states[i].b.state != Open && states[i + 1].b.state == Open
    requires forall k | i < k < j :: !events[k].Reset?
    ensures OpenedBy(c, states[j], states[i + 1].b.openedAt)
  {
    if j == i + 1 {
      OnlyFailuresOpen(c, states[i], events[i]);
    } else {
      OpenedByAlong(c, states, events, i, j - 1);
      OpenedByIsKept(c, states[j - 1], events[j - 1], states[i + 1].b.openedAt);
    }
  }

  /** Over every run: if event i moved the breaker to OPEN and no `reset` follows
      before event j, a call admitted by event j reads a clock at least
      `recovery_timeout` after the opening. Event i is then a failure report and
      the opening is dated by its second clock reading. */
  lemma AdmissionWaitsForRecovery(c: Settings, states: seq<System>, events: seq<Event>, i: nat, j: nat)
    requires IsRun(c, states, events) && i < j < |events|
    requires states[i].b.state != Open && states[i + 1].b.state == Open
    requires forall k | i < k < j :: !events[k].Reset?
    requires events[j].Call? && states[j + 1].nextId > states[j].nextId
    ensures events[i].Failure?
    ensures events[j].t0 - events[i].t1 >= c.recoveryTimeout
  {
    OnlyFailuresOpen(c, states[i], events[i]);
    OpenedByAlong(c, states, events, i, j);
    AdmittedLate(c, states[j], events[j], events[i].t1);
  }

  lemma OpeningIsKept(c: Settings, s: System, e: Event)
    requires s.b.state == Open && Step(c, s, e).b.state == Open
    ensures Step(c, s, e).b.openedAt == s.b.openedAt
  {
  }

  lemma {:induction false} OpeningIsKeptAlong(c: Settings, states: seq<System>, events: seq<Event>, i: nat, j: nat)
    requires IsRun(c, states, events) && i < j < |states|
    requires forall k | i < k <= j :: states[k].b.state == Open
    ensures states[j].b.openedAt == states[i + 1].b.openedAt
  {
    if j > i + 1 {
      OpeningIsKeptAlong(c, states, events, i, j - 1);
      assert states[j].b.state == Open && states[j - 1 + 1] == Step(c, states[j - 1], events[j - 1]);
      OpeningIsKept(c, states[j - 1], events[j - 1]);
    }
  }

  /** The other half: a breaker that has been OPEN since event i admits the next call
      exactly when `recovery_timeout` has passed since then, whatever was reported in
      between. Outcomes of calls admitted before the opening do not put it off. */
  lemma AdmittedOnceRecoveredExactly(c: Settings, states: seq<System>, events: seq<Event>, i: nat, j: nat)
    requires IsRun(c, states, events) && i < j < |events|
    requires states[i].b.state != Open && forall k | i < k <= j :: states[k].b.state == Open
    requires c.halfOpenMaxCalls >= 1 && events[j].Call?
    ensures events[i].Failure?
    ensures states[j + 1].nextId > states[j].nextId <==> events[j].t0 - events[i].t1 >= c.recoveryTimeout
  {
    assert states[i + 1].b.state == Open;
    OnlyFailuresOpen(c, states[i], events[i]);
    OpeningIsKeptAlong(c, states, events, i, j);
    OpenAdmitsExactly(c, states[j], events[j]);
  }

  lemma OpenAdmitsExactly(c: Settings, s: System, e: Event)
    requires s.b.state == Open && e.Call? && c.halfOpenMaxCalls >= 1
    ensures Step(c, s, e).nextId > s.nextId <==> e.t0 - s.b.openedAt >= c.recoveryTimeout
  {
  }

  /** A stale failure half a minute into a minute's timeout: the call at its end is
      admitted nevertheless. */
  lemma StaleFailureDoesNotDelay() returns (c: Settings, states: seq<System>, events: seq<Event>)
    ensures c == Settings(1, 60.0, 1) && IsRun(c, states, events)
    ensures events == [Call(0.0, 0.0), Call(0.0, 0.0), Failure(0, 0.0, 0.0), Failure(1, 30.0, 30.0), Call(60.0, 60.0)]
    ensures states[4].b.state == Open && states[5].nextId > states[4].nextId
  {
    hide IsRun;
    c := Settings(1, 60.0, 1);
    var s := Start(0.0);
    RunStarts(c, s);
    states, events := [s], [];
    states, events, s := RunGrows(c, states, events, s, Call(0.0, 0.0));
    states, events, s := RunGrows(c, states, events, s, Call(0.0, 0.0));
    states, events, s := RunGrows(c, states, events, s, Failure(0, 0.0, 0.0));
    assert s.b == Snapshot(Open, 1, 0, 0, 0.0, 0.0) && s.nextId == 2;
    states, events, s := RunGrows(c, states, events, s, Failure(1, 30.0, 30.0));
    assert s.b.state == Open && s.b.openedAt == 0.0 && s.nextId == 2;
    states, events, s := RunGrows(c, states, events, s, Call(60.0, 60.0));
  }

  // ----- the public failure count

  /** What sets the count back: entering CLOSED, a reset, and a success recorded outside
      HALF_OPEN. */
  predicate SetsBack(s: System, e: Event, next: System)
  {
    || e.Reset?
    || (s.b.state != Closed && next.b.state == Closed)
    || (e.Success? && s.b.state != HalfOpen)
  }

  /** Failures recorded by the first k events since the count was last set back. */
  function FailuresCounted(states: seq<System>, events: seq<Event>, k: nat): nat
    requires k <= |events| && |states| == |events| + 1
  {
    if k == 0 || SetsBack(states[k - 1], events[k - 1], states[k]) then 0
    else FailuresCounted(states, events, k - 1) + if events[k - 1].Failure? then 1 else 0
  }

  /** The clock reading of the last failure among the first k events. */
  function LastFailureAt(events: seq<Event>, k: nat): real
    requires k <= |events|
  {
    if k == 0 then 0.0 else if events[k - 1].Failure? then events[k - 1].t0 else LastFailureAt(events, k - 1)
  }

  /** `failure_count` over every run, in every state: it goes on counting in OPEN and is not
      set back by a success in HALF_OPEN that does not close the breaker. */
  lemma {:induction false} FailureCountExactly(c: Settings, states: seq<System>, events: seq<Event>, k: nat)
    requires IsRun(c, states, events) && k < |states|
    ensures states[k].b.failures == FailuresCounted(states, events, k)
    ensures states[k].b.lastFailure == LastFailureAt(events, k)
  {
    if k > 0 {
      FailureCountExactly(c, states, events, k - 1);
      CountStep(c, states[k - 1], events[k - 1]);
    }
  }

  /** What the documentation calls the count: failures since the last success, too. */
  function ConsecutiveFailures(states: seq<System>, events: seq<Event>, k: nat): nat
    requires k <= |events| && |states| == |events| + 1
  {
    if k == 0 || SetsBack(states[k - 1], events[k - 1], states[k]) || events[k - 1].Success? then 0
    else ConsecutiveFailures(states, events, k - 1) + if events[k - 1].Failure? then 1 else 0
  }

  /** Since the count was last set back, event j recorded a success while it was positive. */
  ghost predicate Carried(states: seq<System>, events: seq<Event>, j: nat, k: nat)
    requires k <= |events| && |states| == |events| + 1
  {
    && j < k && events[j].Success? && FailuresCounted(states, events, j) > 0
    && forall m | j <= m < k :: !SetsBack(states[m], events[m], states[m + 1])
  }

  /** `failure_count` is documented as the consecutive failures. It is, exactly as long as
      no success was recorded, in HALF_OPEN, while it was positive. */
  lemma {:induction false} CountIsConsecutiveExactly(states: seq<System>, events: seq<Event>, k: nat)
    requires k <= |events| && |states| == |events| + 1
    ensures FailuresCounted(states, events, k) >= ConsecutiveFailures(states, events, k)
    ensures FailuresCounted(states, events, k) == ConsecutiveFailures(states, events, k) <==>
            !CarriedOver(states, events, k)
  {
    if k > 0 {
      CountIsConsecutiveExactly(states, events, k - 1);
      CarriedStep(states, events, k - 1);
      hide SetsBack, CarriedOver;
    } else {
      assert forall j: nat :: !Carried(states, events, j, k);
    }
  }

  ghost predicate CarriedOver(states: seq<System>, events: seq<Event>, k: nat)
    requires k <= |events| && |states| == |events| + 1
  {
    exists j: nat :: Carried(states, events, j, k)
  }

  lemma CarriedStep(states: seq<System>, events: seq<Event>, n: nat)
    requires n < |events| && |states| == |events| + 1
    ensures CarriedOver(states, events, n + 1) <==>
            && !SetsBack(states[n], events[n], states[n + 1])
            && (CarriedOver(states, events, n) || (events[n].Success? && FailuresCounted(states, events, n) > 0))
  {
    hide SetsBack, FailuresCounted;
    var k := n + 1;
    if j: nat :| Carried(states, events, j, k) {
      assert !SetsBack(states[n], events[n], states[n + 1]);
      if j < n { assert Carried(states, events, j, n); }
    }
    if !SetsBack(states[n], events[n], states[n + 1]) {
      if j: nat :| Carried(states, events, j, n) {
        assert Carried(states, events, j, k);
      } else if events[n].Success? && FailuresCounted(states, events, n) > 0 {
        assert Carried(states, events, n, k);
      }
    }
  }

  lemma CountStep(c: Settings, s: System, e: Event)
    ensures var next := Step(c, s, e);
            && next.b.failures == (if SetsBack(s, e, next) then 0 else s.b.failures + if e.Failure? then 1 else 0)
            && next.b.lastFailure == if e.Failure? then e.t0 else s.b.lastFailure
  {
  }

  // ----- the retry hint

  /** A refused call is told to retry in `remaining` seconds. When it was refused by an
      OPEN breaker the hint is exact: with no event in between, a later call is admitted
      if and only if that time has passed. When it was refused because the probes hold
      all slots the hint is 0, and a later call is refused however long it waited. */
  lemma RetryHintExactly(c: Settings, states: seq<System>, events: seq<Event>, k: nat, u0: real, u1: real)
    requires IsRun(c, states, events) && k < |events| && events[k].Call?
    requires c.halfOpenMaxCalls >= 1 && events[k].t1 <= u0
    requires BeforeCall(c, states[k].b, events[k].t0, events[k].t1).1.Rejected?
    ensures var v := BeforeCall(c, states[k].b, events[k].t0, events[k].t1).1;
            var next := BeforeCall(c, states[k + 1].b, u0, u1).1;
            && (states[k + 1].b.state == Open ==> (next.Admitted? <==> events[k].t1 + v.remaining <= u0))
            && (states[k + 1].b.state != Open ==> v.remaining == 0.0 && next.Rejected?)
  {
    Reachable(c, states, events, k);
    Reachable(c, states, events, k + 1);
    RefusalLeaves(c, states[k], events[k]);
  }

  /** A refused call moves the breaker at most from OPEN to a HALF_OPEN without slots. */
  lemma RefusalLeaves(c: Settings, s: System, e: Event)
    requires e.Call? && BeforeCall(c, s.b, e.t0, e.t1).1.Rejected?
    ensures Step(c, s, e).b == MaybeHalfOpen(c, s.b, e.t0) == BeforeCall(c, s.b, e.t0, e.t1).0
    ensures Step(c, s, e).clock == e.t1
    ensures Step(c, s, e).b.state == Open || Step(c, s, e).b.halfOpenCalls >= c.halfOpenMaxCalls
  {
  }

  // ----- stale outcomes

  /** The module documentation says the circuit closes when the probes succeed. That
      is false of the code: a call admitted before the circuit opened can report in
      HALF_OPEN and close it although no probe was ever admitted. */
  lemma StaleSuccessCloses() returns (c: Settings, states: seq<System>, events: seq<Event>)
    ensures IsRun(c, states, events) && |events| == 5
    ensures states[4].b.state == HalfOpen && Admissions(states[4].since) == 0
    ensures events[4].Success? && states[5].b.state == Closed
  {
    c := Settings(1, 60.0, 1);
    events := [Call(0.0, 0.0), Call(0.0, 0.0), Failure(0, 1.0, 1.0), Observe(61.0), Success(1)];
    var s0 := Start(0.0);
    var s1 := Step(c, s0, events[0]);
    var s2 := Step(c, s1, events[1]);
    var s3 := Step(c, s2, events[2]);
    var s4 := Step(c, s3, events[3]);
    states := [s0, s1, s2, s3, s4, Step(c, s4, events[4])];
  }

  /** The documented reading holds exactly when no stale success was recorded in the
      stay: then closing means `half_open_max_calls` of this stay's own probes
      succeeded, and otherwise fewer did. */
  lemma ProbesCloseExactlyWithoutStaleSuccess(c: Settings, states: seq<System>, events: seq<Event>, k: nat)
    requires IsRun(c, states, events) && k < |events| && events[k].Success?
    requires states[k].b.state == HalfOpen && states[k + 1].b.state == Closed
    ensures var marks := states[k].since + [Succeeded(Own(states[k], events[k].id))];
            OwnSuccesses(marks) == AtLeastOne(c.halfOpenMaxCalls) <==> Succeeded(false) !in marks
  {
    HalfOpenClosesExactly(c, states, events, k);
    var marks := states[k].since + [Succeeded(Own(states[k], events[k].id))];
    assert marks[..|states[k].since|] == states[k].since;
    OwnAgainstAll(marks);
  }

  lemma {:induction false} OwnAgainstAll(marks: seq<Mark>)
    ensures OwnSuccesses(marks) <= Successes(marks)
    ensures OwnSuccesses(marks) == Successes(marks) <==> Succeeded(false) !in marks
  {
    if marks != [] {
      var front := marks[..|marks| - 1];
      OwnAgainstAll(front);
      assert marks == front + [marks[|marks| - 1]];
    }
  }
}
