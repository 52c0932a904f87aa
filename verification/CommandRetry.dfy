/** The retry loop of `CommandRunner.run` in h2kvm/core/command_runner.py, against an
    arbitrary sequence of outcomes of the external command. */
module CommandRetry {

  /** What one `subprocess.run` does. A process killed by a signal has a negative code. */
  datatype Outcome = Exit(code: int) | TimedOut | LaunchError

  /** What leaves `run` as an exception: a `CommandError` with a code, the `ValueError` its
      constructor raises for a code outside 0..255, the launch failure itself, or the
      `CommandError` after the loop. */
  datatype Failure = CommandFailed(code: int) | BadExitCode(code: int) | LaunchFailed | Exhausted

  datatype End = Returned(exitCode: int, retries: int) | Raised(failure: Failure)

  /** The settings of a `CommandRunner` that the loop reads. */
  datatype Runner = Runner(dryRun: bool, retryDelay: real, retryBackoff: real)

  const TIMEOUT_CODE := 124

  predicate Succeeds(o: Outcome)
  {
    o == Exit(0)
  }

  predicate ValidCode(code: int)
  {
    0 <= code <= 255
  }

  /** Constructing a `CommandError`. */
  function MakeError(code: int): Failure
  {
    if ValidCode(code) then CommandFailed(code) else BadExitCode(code)
  }

  function Pow(b: real, n: nat): real
  {
    if n == 0 then 1.0 else Pow(b, n - 1) * b
  }

  /** The pause after attempt `i`. */
  function Pause(runner: Runner, i: nat): real
  {
    runner.retryDelay * Pow(runner.retryBackoff, i)
  }

  /** The pauses of a run are the exponential backoff. */
  ghost predicate BacksOff(sleeps: seq<real>, runner: Runner)
  {
    forall i | 0 <= i < |sleeps| :: sleeps[i] == Pause(runner, i)
  }

  /** `n` executions are right for these outcomes: nothing runs after a success, and
      nothing stops before one while retries remain. */
  ghost predicate RunsFor(outcomes: nat -> Outcome, retries: int, n: nat)
  {
    && n <= (if retries >= 0 then retries + 1 else 0)
    && (forall i: nat | i + 1 < n :: !Succeeds(outcomes(i)))
    && (retries >= 0 ==> n > 0 && (n <= retries ==> Succeeds(outcomes(n - 1))))
  }

  /** What a run shows its caller after its last outcome. */
  function Surface(last: Outcome, check: bool, retries: int): End
  {
    match last
    case TimedOut => Raised(CommandFailed(TIMEOUT_CODE))
    case LaunchError => Raised(LaunchFailed)
    case Exit(code) => if check && code != 0 then Raised(MakeError(code)) else Returned(code, retries)
  }

  method Run(runner: Runner, retries: int, check: bool, outcomes: nat -> Outcome)
    returns (end: End, executions: nat, sleeps: seq<real>)
    requires runner.retryDelay >= 0.0 && runner.retryBackoff >= 0.0
    ensures runner.dryRun ==> executions == 0 && sleeps == [] && end == Returned(0, 0)
    ensures !runner.dryRun ==> RunsFor(outcomes, retries, executions)
    ensures executions > 0 ==> end == Surface(outcomes(executions - 1), check, executions - 1)
    ensures !runner.dryRun ==> (end == Raised(Exhausted) <==> retries < 0)
    ensures |sleeps| == (if executions > 0 then executions - 1 else 0) && BacksOff(sleeps, runner)
  {
    hide Pause;
    executions, sleeps := 0, [];
    PauseStep(runner, 0);
    if runner.dryRun {
      return Returned(0, 0), executions, sleeps;
    }
    var attempt: nat, delay := 0, runner.retryDelay;
    while attempt <= retries
      invariant executions == |sleeps| == attempt && BacksOff(sleeps, runner)
      invariant delay == Pause(runner, attempt)
      invariant forall i: nat | i < attempt :: !Succeeds(outcomes(i))
      invariant attempt == 0 || attempt <= retries
    {
      var outcome := outcomes(attempt);
      executions := executions + 1;
      match outcome {
        case Exit(code) =>
          if check && code != 0 {
            // The error is raised inside the try block and caught by `except Exception`.
            if attempt >= retries {
              return Raised(MakeError(code)), executions, sleeps;
            }
          } else if code == 0 || attempt >= retries {
            return Returned(code, attempt), executions, sleeps;
          }
        case TimedOut =>
          if attempt >= retries {
            return Raised(MakeError(TIMEOUT_CODE)), executions, sleeps;
          }
        case LaunchError =>
          if attempt >= retries {
            return Raised(LaunchFailed), executions, sleeps;
          }
      }
      sleeps := sleeps + [delay];
      PauseStep(runner, attempt);
      delay := delay * runner.retryBackoff;
      attempt := attempt + 1;
    }
    return Raised(Exhausted), executions, sleeps;
  }

  lemma PauseStep(runner: Runner, n: nat)
    ensures Pause(runner, 0) == runner.retryDelay
    ensures Pause(runner, n + 1) == Pause(runner, n) * runner.retryBackoff
  {
    var p := Pow(runner.retryBackoff, n);
    assert (runner.retryDelay * p) * runner.retryBackoff == runner.retryDelay * (p * runner.retryBackoff);
  }

  /** The outcomes alone fix how often the command runs, so `check` does not change it. */
  lemma ExecutionsAreFixed(outcomes: nat -> Outcome, retries: int, n: nat, m: nat)
    requires RunsFor(outcomes, retries, n) && RunsFor(outcomes, retries, m)
    ensures n == m
  {
  }

  /** The count is the smaller of the first success plus one and the retries plus one. */
  lemma ExecutionsAreTheMinimum(outcomes: nat -> Outcome, retries: nat, first: nat, n: nat)
    requires RunsFor(outcomes, retries, n)
    requires forall i: nat | i < first :: !Succeeds(outcomes(i))
    requires first <= retries ==> Succeeds(outcomes(first))
    ensures n == (if first < retries then first else retries) + 1
  {
    ExecutionsAreFixed(outcomes, retries, n, (if first < retries then first else retries) + 1);
  }

  /** A run returns exit code 0 exactly when one of its attempts would succeed, and then
      `retries` is the index of the first of them. */
  lemma SucceedsExactly(outcomes: nat -> Outcome, retries: nat, check: bool, n: nat)
    requires RunsFor(outcomes, retries, n)
    ensures Surface(outcomes(n - 1), check, n - 1) == Returned(0, n - 1) <==>
            exists i: nat | i <= retries :: Succeeds(outcomes(i))
  {
    if i: nat :| i <= retries && Succeeds(outcomes(i)) {
      if n <= i { assert n <= retries; }
    }
  }

  /** `run` documents `CommandError` for a checked command that fails. It keeps that
      exactly when the last attempt timed out or exited with a code in 1..255. */
  lemma CommandErrorExactly(outcomes: nat -> Outcome, retries: nat, n: nat)
    requires RunsFor(outcomes, retries, n)
    requires forall i: nat | i <= retries :: !Succeeds(outcomes(i))
    ensures n == retries + 1
    ensures Surface(outcomes(retries), true, retries).Raised?
    ensures outcomes(retries).TimedOut? ==> Surface(outcomes(retries), true, retries).failure == CommandFailed(124)
    ensures forall code | outcomes(retries) == Exit(code) && 1 <= code <= 255 ::
              Surface(outcomes(retries), true, retries).failure == CommandFailed(code)
    ensures forall code | outcomes(retries) == Exit(code) && !(1 <= code <= 255) ::
              Surface(outcomes(retries), true, retries).failure == BadExitCode(code)
    ensures outcomes(retries).LaunchError? ==> Surface(outcomes(retries), true, retries).failure == LaunchFailed
    ensures Surface(outcomes(retries), true, retries).failure.CommandFailed? <==>
            outcomes(retries).TimedOut? || (outcomes(retries).Exit? && 1 <= outcomes(retries).code <= 255)
  {
    assert !Succeeds(outcomes(n - 1));
  }

  /** Without `check` a run returns exactly when the last attempt exited, with its code; a
      timeout raises `CommandError` 124 and a launch failure itself all the same. So
      `check` makes a difference only for a failing exit code. */
  lemma UncheckedExactly(outcomes: nat -> Outcome, retries: nat, n: nat)
    requires RunsFor(outcomes, retries, n)
    ensures var last, end := outcomes(n - 1), Surface(outcomes(n - 1), false, n - 1);
            && (end.Returned? <==> last.Exit?)
            && (last.Exit? ==> end.exitCode == last.code && end.retries == n - 1)
            && (last.TimedOut? ==> end == Raised(CommandFailed(124)))
            && (last.LaunchError? ==> end == Raised(LaunchFailed))
            && (Surface(last, true, n - 1) == end <==> !last.Exit? || last.code == 0)
  {
  }

  /** A checked command killed by signal 9 surfaces as a `ValueError`. */
  lemma KilledCommandIsNotACommandError(outcomes: nat -> Outcome, retries: nat, n: nat)
    requires forall i: nat :: outcomes(i) == Exit(-9)
    requires RunsFor(outcomes, retries, n)
    ensures Surface(outcomes(n - 1), true, n - 1) == Raised(BadExitCode(-9)) && n == retries + 1
  {
    CommandErrorExactly(outcomes, retries, n);
  }

  function Sum(xs: seq<real>): real
  {
    if xs == [] then 0.0 else Sum(xs[..|xs| - 1]) + xs[|xs| - 1]
  }

  /** The total pause is the geometric sum; with a backoff of 1, the delay each time. */
  lemma {:induction false} TotalSleep(sleeps: seq<real>, runner: Runner)
    requires BacksOff(sleeps, runner)
    ensures runner.retryBackoff == 1.0 ==> Sum(sleeps) == |sleeps| as real * runner.retryDelay
    ensures Sum(sleeps) * (runner.retryBackoff - 1.0) ==
            runner.retryDelay * (Pow(runner.retryBackoff, |sleeps|) - 1.0)
  {
    var d, b := runner.retryDelay, runner.retryBackoff;
    if sleeps != [] {
      var n := |sleeps| - 1;
      TotalSleep(sleeps[..n], runner);
      GeometricStep(Sum(sleeps[..n]), d, b, Pow(b, n));
      if b == 1.0 { PowOfOne(n); }
    }
  }

  lemma {:induction false} PowOfOne(n: nat)
    ensures Pow(1.0, n) == 1.0
  {
    if n > 0 { PowOfOne(n - 1); }
  }

  lemma GeometricStep(total: real, d: real, b: real, p: real)
    requires total * (b - 1.0) == d * (p - 1.0)
    ensures (total + d * p) * (b - 1.0) == d * (p * b - 1.0)
  {
  }
}
