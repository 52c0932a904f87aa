/** Anomaly detection after a migration: h2kvm/ai/anomaly.py driven by
    `post_migration_analysis` of h2kvm/ai/orchestrator.py. */
module Anomalies {
  import opened Statistics
  import opened Records
  import opened PhaseAnomalies

  datatype Anomaly = Anomaly(isAnomaly: bool, kind: string, z: real, expected: real, actual: real)

  const PLAIN := Anomaly(false, "", 0.0, 0.0, 0.0)

  const ODD_PHASES := Anomaly(true, "phase_sequence", 0.0, 0.0, 0.0)

  function Abs(x: real): real
  {
    if x < 0.0 then -x else x
  }

  /** `[r.duration_seconds for r in history if r.success]` */
  function Durations(history: seq<Record>): seq<real>
  {
    if history == [] then []
    else (if history[0].success then [history[0].duration] else []) + Durations(history[1..])
  }

  function ErrorCounts(history: seq<Record>): (r: seq<real>)
    ensures |r| == |history| && forall i | 0 <= i < |history| :: r[i] == |history[i].errors| as real
  {
    seq(|history|, i requires 0 <= i < |history| => |history[i].errors| as real)
  }

  function DetectDuration(duration: real, history: seq<Record>, threshold: real, sqrt: real -> real): Anomaly
  {
    var ds := Durations(history);
    if |ds| < 3 then PLAIN
    else
      var z := ZScore(duration, ds, sqrt);
      if Abs(z) > threshold then Anomaly(true, "duration", z, Mean(ds), duration)
      else Anomaly(false, "", z, Mean(ds), duration)
  }

  function DetectErrorRate(errorCount: nat, history: seq<Record>, threshold: real, sqrt: real -> real): Anomaly
  {
    var es := ErrorCounts(history);
    if |es| < 3 then PLAIN
    else
      var z := ZScore(errorCount as real, es, sqrt);
      if z > threshold then Anomaly(true, "error_rate", z, Mean(es), errorCount as real)
      else Anomaly(false, "", z, Mean(es), errorCount as real)
  }

  /** `sqrt` is exact on the two variances the detectors take. */
  predicate TakesRoots(sqrt: real -> real, history: seq<Record>)
  {
    && IsSqrt(sqrt(Variance(Durations(history))), Variance(Durations(history)))
    && IsSqrt(sqrt(Variance(ErrorCounts(history))), Variance(ErrorCounts(history)))
  }

  lemma {:induction false} DurationsAreFewer(history: seq<Record>)
    ensures |Durations(history)| <= |history|
  {
    if history != [] { DurationsAreFewer(history[1..]); }
  }

  // ----- the order: record, read history, detect

  function Anonymized(r: Record, anonymize: string -> string): (a: Record)
    ensures a.id == r.id && a.timestamp == r.timestamp && a.success == r.success && a.duration == r.duration
    ensures a.features == r.features && a.phases == r.phases
    ensures |a.errors| == |r.errors| && forall i | 0 <= i < |r.errors| :: a.errors[i] == anonymize(r.errors[i])
  {
    r.(errors := seq(|r.errors|, i requires 0 <= i < |r.errors| => anonymize(r.errors[i])))
  }

  /** Exactly the flagged results of the three detectors. */
  ghost predicate ReportsExactly(anomalies: seq<Anomaly>, r: Record, history: seq<Record>, threshold: real,
                                 sqrt: real -> real)
  {
    forall a :: a in anomalies <==>
      || (a.isAnomaly && a == DetectDuration(r.duration, history, threshold, sqrt))
      || (a.isAnomaly && a == DetectErrorRate(|r.errors|, history, threshold, sqrt))
      || (a == ODD_PHASES && Flagged(r.phases, history))
  }

  /** The run's own record is in a history too short for the z-scores. */
  ghost predicate Early(stored: Record, history: seq<Record>, threshold: real, sqrt: real -> real)
  {
    && stored in history && stored.success && |history| < 9
    && threshold >= 2.5 && TakesRoots(sqrt, history)
  }

  /** The recording and detecting part of `post_migration_analysis`. The record is stored
      before the history is read, so it is part of its own sample unless 100 records are
      as new. Then a successful run has only phase anomalies with fewer than 9 records,
      and none at all with at most 5. */
  method PostMigrationAnalysis(kb: KnowledgeBase, r: Record, anonymize: string -> string, threshold: real,
                               sqrt: real -> real)
    returns (history: seq<Record>, anomalies: seq<Anomaly>)
    requires kb.Valid()
    modifies kb
    ensures kb.Valid() && kb.table == old(kb.table)[r.id := Anonymized(r, anonymize)]
    ensures IsNewest(kb.table, 100, history)
    ensures |set k | k in kb.table && kb.table[k].timestamp >= r.timestamp| <= 100 ==>
              Anonymized(r, anonymize) in history
    ensures ReportsExactly(anomalies, r, history, threshold, sqrt)
    ensures Early(Anonymized(r, anonymize), history, threshold, sqrt) ==>
              && (forall a | a in anomalies :: a == ODD_PHASES)
              && (|history| <= 5 && NoRepeats(history) ==> anomalies == [])
  {
    var stored := Anonymized(r, anonymize);
    kb.RecordMigration(stored);
    history := kb.GetAllRecords(100);
    if |set k | k in kb.table && kb.table[k].timestamp >= r.timestamp| <= 100 {
      NewRecordIsReturned(kb.table, 100, history, stored);
    }
    anomalies := DetectAll(r, history, threshold, sqrt);
    EarlyReports(anomalies, r, stored, history, threshold, sqrt);
  }

  /** `detect_all` */
  method DetectAll(r: Record, history: seq<Record>, threshold: real, sqrt: real -> real)
    returns (anomalies: seq<Anomaly>)
    ensures ReportsExactly(anomalies, r, history, threshold, sqrt)
  {
    hide Flagged;
    anomalies := [];
    var d := DetectDuration(r.duration, history, threshold, sqrt);
    if d.isAnomaly {
      anomalies := anomalies + [d];
    }
    var e := DetectErrorRate(|r.errors|, history, threshold, sqrt);
    if e.isAnomaly {
      anomalies := anomalies + [e];
    }
    var odd, _, _ := DetectPhase(r.phases, history);
    if odd {
      anomalies := anomalies + [ODD_PHASES];
    }
  }

  lemma EarlyReports(anomalies: seq<Anomaly>, r: Record, stored: Record, history: seq<Record>, threshold: real,
                     sqrt: real -> real)
    requires ReportsExactly(anomalies, r, history, threshold, sqrt)
    requires stored.duration == r.duration && |stored.errors| == |r.errors| && stored.phases == r.phases
    ensures Early(stored, history, threshold, sqrt) ==>
              && (forall a | a in anomalies :: a == ODD_PHASES)
              && (|history| <= 5 && NoRepeats(history) ==> anomalies == [])
  {
    hide DetectDuration, DetectErrorRate, Flagged, TakesRoots, NoRepeats;
    assert anomalies != [] ==> anomalies[0] in anomalies;
    if Early(stored, history, threshold, sqrt) {
      DurationsAreFewer(history);
      EarlyRunsAreNeverFlagged(history, stored, threshold, sqrt);
      SuccessesAreFewer(history);
      if |history| <= 5 && NoRepeats(history) {
        EarlyPhasesAreNeverFlagged(history, stored);
      }
    }
  }

  lemma {:induction false} SuccessesAreFewer(history: seq<Record>)
    ensures Successful(history) <= |history|
  {
    if history != [] { SuccessesAreFewer(history[..|history| - 1]); }
  }

  // ----- a record cannot be an outlier of a small sample that contains it

  lemma {:induction false} OwnDurationIsSampled(history: seq<Record>, own: Record)
    requires own in history && own.success
    ensures own.duration in Durations(history)
  {
    if history[0] != own { OwnDurationIsSampled(history[1..], own); }
  }

  lemma FlagBound(n: real, z: real, t: real, k: real)
    requires n > 0.0 && t >= 0.0 && Abs(z) > t && n * Square(z) <= Square(k)
    ensures n * Square(t) < Square(k)
  {
    var y := Abs(z);
    assert Square(y) == Square(z);
    TimesPositive(y - t, y + t, (y - t) * (y + t));
    assert (y - t) * (y + t) == Square(y) - Square(t);
    TimesPositive(n, Square(y) - Square(t), n * (Square(y) - Square(t)));
    assert n * (Square(y) - Square(t)) == n * Square(y) - n * Square(t);
  }

  /** A value flagged against a sample of n that contains it needs n t^2 < (n - 1)^2. */
  lemma FlaggedMember(xs: seq<real>, x: real, t: real, sqrt: real -> real)
    requires x in xs && |xs| >= 2 && t >= 0.0
    requires IsSqrt(sqrt(Variance(xs)), Variance(xs))
    requires Abs(ZScore(x, xs, sqrt)) > t
    ensures |xs| as real * Square(t) < Square((|xs| - 1) as real)
  {
    hide Square, ZScore, Variance, Abs;
    var j :| 0 <= j < |xs| && xs[j] == x;
    MemberZScore(xs, j, sqrt);
    FlagBound(|xs| as real, ZScore(x, xs, sqrt), t, (|xs| - 1) as real);
  }

  lemma NineSamples(n: nat, t: real)
    requires 2 <= n && t >= 2.5 && n as real * Square(t) < Square((n - 1) as real)
    ensures n >= 9
  {
    assert Square(t) >= 6.25 by { AtLeastSquare(t); }
    TimesMonotone(6.25, Square(t), n as real);
    if n <= 8 {
      SmallSample(n);
    }
  }

  lemma AtLeastSquare(t: real)
    requires t >= 2.5
    ensures Square(t) >= 6.25
  {
    TimesMonotone(2.5, t, t);
    TimesMonotone(2.5, t, 2.5);
  }

  lemma SmallSample(n: nat)
    requires 2 <= n <= 8
    ensures Square((n - 1) as real) <= n as real * 6.25
  {
    var k := n - 1;
    assert k == 1 || k == 2 || k == 3 || k == 4 || k == 5 || k == 6 || k == 7;
    if k == 1 { assert k as real == 1.0; }
    else if k == 2 { assert k as real == 2.0; }
    else if k == 3 { assert k as real == 3.0; }
    else if k == 4 { assert k as real == 4.0; }
    else if k == 5 { assert k as real == 5.0; }
    else if k == 6 { assert k as real == 6.0; }
    else { assert k as real == 7.0; }
  }

  /** Because the record under test is in the history it is tested against: no duration
      anomaly of a successful run with fewer than 9 successful samples, and no error-rate
      anomaly with fewer than 9 samples, at threshold 2.5 or above. */
  lemma EarlyRunsAreNeverFlagged(history: seq<Record>, own: Record, threshold: real, sqrt: real -> real)
    requires own in history && threshold >= 2.5 && TakesRoots(sqrt, history)
    ensures own.success && |Durations(history)| < 9 ==>
              !DetectDuration(own.duration, history, threshold, sqrt).isAnomaly
    ensures |history| < 9 ==> !DetectErrorRate(|own.errors|, history, threshold, sqrt).isAnomaly
  {
    hide Square, ZScore, Variance, Mean, Durations, ErrorCounts;
    if own.success && DetectDuration(own.duration, history, threshold, sqrt).isAnomaly {
      OwnDurationIsSampled(history, own);
      FlaggedMember(Durations(history), own.duration, threshold, sqrt);
      NineSamples(|Durations(history)|, threshold);
    }
    if DetectErrorRate(|own.errors|, history, threshold, sqrt).isAnomaly {
      OwnErrorsAreSampled(history, own);
      FlaggedMember(ErrorCounts(history), |own.errors| as real, threshold, sqrt);
      NineSamples(|history|, threshold);
    }
  }

  // ----- the verdicts, without the z-score

  lemma ZAbove(d: real, s: real, v: real, z: real, t: real)
    requires s > 0.0 && s * s == v && z * s == d && t >= 0.0
    ensures Abs(z) > t <==> Square(d) > Square(t) * v
    ensures z > t <==> d > 0.0 && Square(d) > Square(t) * v
  {
    TimesPositive(s, s, v);
    ZTimesS(z, s, d, v);
    SquaresCompare(Abs(z), t);
    AbsSquare(z);
    hide Square;
    ScaleCompare(Square(z), Square(t), v);
    SignOfZ(z, s, d);
  }

  lemma AbsSquare(z: real)
    ensures Square(Abs(z)) == Square(z) && Abs(z) >= 0.0
    ensures z > 0.0 ==> Abs(z) == z
  {
  }

  lemma SquaresCompare(y: real, t: real)
    requires y >= 0.0 && t >= 0.0
    ensures y > t <==> Square(y) > Square(t)
  {
    if y <= t {
      SquareMonotone(y, t);
    } else {
      TimesPositive(y - t, y + t, (y - t) * (y + t));
      assert (y - t) * (y + t) == Square(y) - Square(t);
    }
  }

  lemma ScaleCompare(x: real, y: real, v: real)
    requires v > 0.0
    ensures x > y <==> x * v > y * v
  {
    if x > y {
      TimesPositive(x - y, v, (x - y) * v);
      assert (x - y) * v == x * v - y * v;
    } else if x < y {
      TimesPositive(y - x, v, (y - x) * v);
      assert (y - x) * v == y * v - x * v;
    }
  }

  lemma SignOfZ(z: real, s: real, d: real)
    requires s > 0.0 && z * s == d
    ensures z > 0.0 <==> d > 0.0
  {
    if z > 0.0 { TimesPositive(z, s, d); }
    if z < 0.0 { TimesPositive(-z, s, -d); }
  }

  lemma VarianceNonNegative(xs: seq<real>)
    ensures Variance(xs) >= 0.0
  {
    if |xs| >= 2 {
      SumSqNonNegative(xs, Mean(xs));
      VarianceTimes(xs);
      hide Variance, SumSq, Mean;
      FactorSign(Variance(xs), (|xs| - 1) as real, SumSq(xs, Mean(xs)));
    }
  }

  lemma FactorSign(v: real, k: real, total: real)
    requires k > 0.0 && v * k == total && total >= 0.0
    ensures v >= 0.0
  {
    if v < 0.0 { TimesPositive(-v, k, -total); }
  }

  /** A value is beyond t standard deviations of a sample. */
  predicate FarOut(x: real, xs: seq<real>, t: real)
  {
    Variance(xs) > 0.0 && Square(x - Mean(xs)) > Square(t) * Variance(xs)
  }

  lemma ZScoreVerdict(x: real, xs: seq<real>, t: real, sqrt: real -> real)
    requires t >= 0.0 && IsSqrt(sqrt(Variance(xs)), Variance(xs))
    ensures Abs(ZScore(x, xs, sqrt)) > t <==> FarOut(x, xs, t)
    ensures ZScore(x, xs, sqrt) > t <==> x > Mean(xs) && FarOut(x, xs, t)
  {
    VarianceNonNegative(xs);
    hide Variance, Mean, Square;
    var v := Variance(xs);
    var s, d := sqrt(v), x - Mean(xs);
    if s == 0.0 {
      ZeroRootIs(s, v);
    } else {
      RootOfPositive(s, v);
      Quotient(d, s);
      ZAbove(d, s, v, d / s, t);
    }
  }

  lemma ZeroRootIs(s: real, v: real)
    requires IsSqrt(s, v) && s == 0.0
    ensures v == 0.0
  {
  }

  lemma RootOfPositive(s: real, v: real)
    requires IsSqrt(s, v) && s != 0.0
    ensures v > 0.0 && s > 0.0
  {
    TimesPositive(s, s, v);
  }

  /** A duration is flagged if and only if there are at least three successful runs, they
      differ, and it lies beyond t standard deviations of theirs, to either side. */
  lemma DurationVerdictExactly(duration: real, history: seq<Record>, t: real, sqrt: real -> real)
    requires t >= 0.0 && IsSqrt(sqrt(Variance(Durations(history))), Variance(Durations(history)))
    ensures var a, ds := DetectDuration(duration, history, t, sqrt), Durations(history);
            && (a.isAnomaly <==> |ds| >= 3 && FarOut(duration, ds, t))
            && (a.isAnomaly ==> a.kind == "duration")
            && (|ds| >= 3 ==> a.actual == duration && |ds| as real * a.expected == Sum(ds))
            && (|ds| >= 3 && Variance(ds) > 0.0 ==> a.z * sqrt(Variance(ds)) == duration - a.expected)
  {
    var ds := Durations(history);
    ZScoreVerdict(duration, ds, t, sqrt);
    if |ds| >= 3 {
      MeanTimes(ds);
      ZScoreTimes(duration, ds, sqrt);
    }
    hide Durations, ZScore, Variance, Mean, Sum, FarOut, Abs;
  }

  lemma ZScoreTimes(x: real, xs: seq<real>, sqrt: real -> real)
    requires IsSqrt(sqrt(Variance(xs)), Variance(xs))
    ensures Variance(xs) > 0.0 ==> ZScore(x, xs, sqrt) * sqrt(Variance(xs)) == x - Mean(xs)
  {
    hide Variance, Mean;
    var s := sqrt(Variance(xs));
    if s == 0.0 { ZeroRootIs(s, Variance(xs)); } else { Quotient(x - Mean(xs), s); }
  }

  /** An error count is flagged if and only if there are at least three runs, their counts
      differ, and it lies beyond t standard deviations above the mean; never below. */
  lemma ErrorVerdictExactly(errorCount: nat, history: seq<Record>, t: real, sqrt: real -> real)
    requires t >= 0.0 && IsSqrt(sqrt(Variance(ErrorCounts(history))), Variance(ErrorCounts(history)))
    ensures var a, es, x := DetectErrorRate(errorCount, history, t, sqrt), ErrorCounts(history), errorCount as real;
            && (a.isAnomaly <==> |history| >= 3 && x > Mean(es) && FarOut(x, es, t))
            && (a.isAnomaly ==> a.kind == "error_rate")
            && (|history| >= 3 ==> a.actual == x && |history| as real * a.expected == Sum(es))
            && (|history| >= 3 && Variance(es) > 0.0 ==> a.z * sqrt(Variance(es)) == x - a.expected)
  {
    var es := ErrorCounts(history);
    ZScoreVerdict(errorCount as real, es, t, sqrt);
    if |es| >= 3 {
      MeanTimes(es);
      ZScoreTimes(errorCount as real, es, sqrt);
    }
    hide ZScore, Variance, Mean, Sum, FarOut;
  }

  /** A failed run in the history plays no part in the verdict on a duration. */
  lemma FailedRunsDoNotCount(duration: real, a: seq<Record>, failed: Record, b: seq<Record>, t: real,
                             sqrt: real -> real)
    requires !failed.success
    ensures DetectDuration(duration, a + [failed] + b, t, sqrt) == DetectDuration(duration, a + b, t, sqrt)
  {
    DurationsAppend(a, [failed]);
    DurationsAppend(a + [failed], b);
    DurationsAppend(a, b);
    assert [failed][1..] == [];
    assert Durations(a + [failed] + b) == Durations(a + b);
  }

  /** How many runs succeeded and took d seconds. */
  function TookExactly(history: seq<Record>, d: real): nat
  {
    if history == [] then 0
    else
      var last := history[|history| - 1];
      TookExactly(history[..|history| - 1], d) + if last.success && last.duration == d then 1 else 0
  }

  /** The sample of durations holds one entry for every successful run, with its duration. */
  lemma {:induction false} SampleIsEverySuccess(history: seq<Record>, d: real)
    ensures multiset(Durations(history))[d] == TookExactly(history, d)
  {
    if history != [] {
      var n := |history| - 1;
      var front, last := history[..n], history[n];
      assert history == front + [last];
      SampleIsEverySuccess(front, d);
      DurationsAppend(front, [last]);
      DurationsOfOne(last);
      hide Durations;
    }
  }

  lemma DurationsOfOne(r: Record)
    ensures Durations([r]) == if r.success then [r.duration] else []
  {
    assert [r][1..] == [];
  }

  // ----- when one of n can be flagged, exactly

  lemma TightZ(n: real, d: real, s: real, v: real, k: real, total: real, z: real)
    requires s > 0.0 && s * s == v && v * k == total && n * Square(d) == k * total && z * s == d
    ensures n * Square(z) == Square(k)
  {
    var zz := Square(z);
    assert Square(d) == zz * v by { ZTimesS(z, s, d, v); }
    assert (n * zz) * v == n * (zz * v);
    assert k * total == (k * k) * v;
    TimesPositive(s, s, v);
    TightCancel(n * zz, k * k, v);
  }

  lemma ZTimesS(z: real, s: real, d: real, v: real)
    requires z * s == d && s * s == v
    ensures Square(d) == Square(z) * v
  {
    assert (z * s) * (z * s) == (z * z) * (s * s);
  }

  lemma TightCancel(x: real, y: real, v: real)
    requires v > 0.0 && x * v == y * v
    ensures x == y
  {
    Cancel(x, y, v);
    Cancel(y, x, v);
  }

  lemma RootPositive(s: real, v: real, k: real, total: real)
    requires IsSqrt(s, v) && v * k == total && total > 0.0
    ensures s > 0.0
  {
  }

  function Outlier(n: nat): (xs: seq<real>)
    requires n >= 1
    ensures |xs| == n && xs[n - 1] == 1.0 && forall i | 0 <= i < n - 1 :: xs[i] == 0.0
  {
    Zeros(n - 1) + [1.0]
  }

  /** The outlier of n - 1 equal values has the greatest z-score there is, above the mean. */
  lemma OutlierZ(n: nat, sqrt: real -> real)
    requires n >= 2 && IsSqrt(sqrt(Variance(Outlier(n))), Variance(Outlier(n)))
    ensures n as real * Square(ZScore(1.0, Outlier(n), sqrt)) == Square((n - 1) as real)
    ensures ZScore(1.0, Outlier(n), sqrt) >= 0.0
  {
    var xs, k := Outlier(n), (n - 1) as real;
    MemberBoundIsTight(n);
    OutlierMean(n);
    hide Mean, SumSq, Square;
    var v, m := Variance(xs), Mean(xs);
    VarianceTimes(xs);
    var s := sqrt(v);
    RootPositive(s, v, k, SumSq(xs, m));
    var z := (1.0 - m) / s;
    Quotient(1.0 - m, s);
    TightZ(n as real, 1.0 - m, s, v, k, SumSq(xs, m), z);
    if z < 0.0 { TimesPositive(-z, s, -z * s); }
  }

  lemma OutlierMean(n: nat)
    requires n >= 2
    ensures Mean(Outlier(n)) <= 1.0
  {
    ZerosSums(n - 1, 0.0);
    SumAppend(Zeros(n - 1), [1.0]);
    assert Sum([1.0]) == 1.0;
    var m := Mean(Outlier(n));
    assert n as real * m == 1.0;
    if m > 1.0 { TimesMonotone(1.0, m, n as real); }
  }

  lemma SquareMonotone(z: real, t: real)
    requires 0.0 <= z <= t
    ensures Square(z) <= Square(t)
  {
    TimesMonotone(z, t, z);
    TimesMonotone(z, t, t);
    assert z * t == t * z;
  }

  lemma AboveThreshold(n: real, z: real, t: real, k: real)
    requires n > 0.0 && z >= 0.0 && t >= 0.0 && n * Square(z) == k && n * Square(t) < k
    ensures z > t
  {
    if z <= t {
      SquareMonotone(z, t);
      TimesMonotone(Square(z), Square(t), n);
    }
  }

  /** `sqrt` is exact on the variances of the samples of this size. */
  ghost predicate RootsOfSize(sqrt: real -> real, n: nat)
  {
    forall xs: seq<real> | |xs| == n :: IsSqrt(sqrt(Variance(xs)), Variance(xs))
  }

  /** A successful run is flagged for its duration against n successful ones with it. */
  ghost predicate FlagsDuration(history: seq<Record>, own: Record, n: nat, t: real, sqrt: real -> real)
  {
    && own in history && own.success && |Durations(history)| == n
    && DetectDuration(own.duration, history, t, sqrt).isAnomaly
  }

  ghost predicate FlagsErrors(history: seq<Record>, own: Record, n: nat, t: real, sqrt: real -> real)
  {
    own in history && |history| == n && DetectErrorRate(|own.errors|, history, t, sqrt).isAnomaly
  }

  /** A run can be flagged against n runs that include it, by either detector, if and only
      if n t^2 < (n - 1)^2. */
  lemma FlagPossibleExactly(n: nat, t: real, sqrt: real -> real)
    requires n >= 3 && t >= 0.0 && RootsOfSize(sqrt, n)
    ensures (exists history, own :: FlagsDuration(history, own, n, t, sqrt)) <==>
            n as real * Square(t) < Square((n - 1) as real)
    ensures (exists history, own :: FlagsErrors(history, own, n, t, sqrt)) <==>
            n as real * Square(t) < Square((n - 1) as real)
  {
    hide Square, ZScore, Variance, Abs, FlagsDuration, FlagsErrors;
    if history, own :| FlagsDuration(history, own, n, t, sqrt) { DurationFlagBound(history, own, n, t, sqrt); }
    if history, own :| FlagsErrors(history, own, n, t, sqrt) { ErrorFlagBound(history, own, n, t, sqrt); }
    if n as real * Square(t) < Square((n - 1) as real) {
      OutlierIsFlagged(n, t, sqrt);
    }
  }

  /** A run far below the others can be flagged under the same condition. */
  lemma FlagBelowPossibleExactly(n: nat, t: real, sqrt: real -> real)
    requires n >= 3 && t >= 0.0 && RootsOfSize(sqrt, n)
    ensures (exists history, own :: FlagsDuration(history, own, n, t, sqrt)
                && own.duration < Mean(Durations(history))) <==>
            n as real * Square(t) < Square((n - 1) as real)
  {
    hide Square, ZScore, Variance, Abs, FlagsDuration, Mean, Durations;
    if history, own :| FlagsDuration(history, own, n, t, sqrt) && own.duration < Mean(Durations(history)) {
      DurationFlagBound(history, own, n, t, sqrt);
    }
    if n as real * Square(t) < Square((n - 1) as real) {
      var history, own := LowOutlier(n, t, sqrt);
      assert FlagsDuration(history, own, n, t, sqrt) && own.duration < Mean(Durations(history));
    }
  }

  /** The sample turned upside down. */
  function Mirrored(xs: seq<real>): (r: seq<real>)
    ensures |r| == |xs| && forall i | 0 <= i < |xs| :: r[i] == 1.0 - xs[i]
  {
    seq(|xs|, i requires 0 <= i < |xs| => 1.0 - xs[i])
  }

  lemma {:induction false} MirroredSums(xs: seq<real>, c: real)
    ensures Sum(Mirrored(xs)) == |xs| as real - Sum(xs)
    ensures SumSq(Mirrored(xs), 1.0 - c) == SumSq(xs, c)
  {
    if xs != [] {
      assert Mirrored(xs)[1..] == Mirrored(xs[1..]);
      MirroredSums(xs[1..], c);
      MirroredSquare(xs[0], c);
      hide Square;
      assert Mirrored(xs)[0] == 1.0 - xs[0];
    }
  }

  lemma MirroredSquare(x: real, c: real)
    ensures Square((1.0 - x) - (1.0 - c)) == Square(x - c)
  {
  }

  lemma MirroredMoments(xs: seq<real>)
    requires |xs| >= 2
    ensures Mean(Mirrored(xs)) == 1.0 - Mean(xs) && Variance(Mirrored(xs)) == Variance(xs)
  {
    MirroredSums(xs, Mean(xs));
    MeanTimes(xs);
    MeanTimes(Mirrored(xs));
    hide Mean, Sum, SumSq;
    var n, m, m1 := |xs| as real, Mean(xs), Mean(Mirrored(xs));
    MirroredExpand(n, m, m1);
    ZeroFactor(n, m1 + m - 1.0, n * (m1 + m - 1.0));
  }

  lemma MirroredExpand(n: real, m: real, m1: real)
    ensures n * (m1 + m - 1.0) == n * m1 + n * m - n
  {
  }

  lemma ZeroFactor(n: real, d: real, p: real)
    requires n > 0.0 && p == n * d && p == 0.0
    ensures d == 0.0
  {
    if d > 0.0 { TimesPositive(n, d, p); }
    if d < 0.0 { TimesPositive(n, -d, -p); }
  }

  /** The outlier turned upside down: one run of duration 0 among runs of duration 1. */
  lemma LowOutlier(n: nat, t: real, sqrt: real -> real) returns (history: seq<Record>, own: Record)
    requires n >= 3 && t >= 0.0 && RootsOfSize(sqrt, n)
    requires n as real * Square(t) < Square((n - 1) as real)
    ensures FlagsDuration(history, own, n, t, sqrt) && own.duration < Mean(Durations(history))
  {
    hide Square, Variance, Mean, FarOut, RootsOfSize;
    var xs := Outlier(n);
    OutlierIsFarOut(n, t, sqrt);
    MirroredMoments(xs);
    MirroredFarOut(1.0, xs, t);
    history, own := OneShort(n);
    RootsHere(sqrt, n, Durations(history));
    DurationVerdictExactly(own.duration, history, t, sqrt);
    hide DetectDuration, Durations;
    assert Mean(Durations(history)) == 1.0 - Mean(xs);
  }

  lemma RootsHere(sqrt: real -> real, n: nat, xs: seq<real>)
    requires RootsOfSize(sqrt, n) && |xs| == n
    ensures IsSqrt(sqrt(Variance(xs)), Variance(xs))
  {
  }

  lemma OutlierIsFarOut(n: nat, t: real, sqrt: real -> real)
    requires n >= 3 && t >= 0.0 && RootsOfSize(sqrt, n)
    requires n as real * Square(t) < Square((n - 1) as real)
    ensures FarOut(1.0, Outlier(n), t) && Mean(Outlier(n)) < 1.0
  {
    hide Square, ZScore, Variance, Mean, FarOut;
    var xs := Outlier(n);
    OutlierZ(n, sqrt);
    AboveThreshold(n as real, ZScore(1.0, xs, sqrt), t, Square((n - 1) as real));
    RootsHere(sqrt, n, xs);
    ZScoreVerdict(1.0, xs, t, sqrt);
  }

  lemma MirroredFarOut(x: real, xs: seq<real>, t: real)
    requires Mean(Mirrored(xs)) == 1.0 - Mean(xs) && Variance(Mirrored(xs)) == Variance(xs)
    ensures FarOut(1.0 - x, Mirrored(xs), t) <==> FarOut(x, xs, t)
  {
    MirroredSquare(x, Mean(xs));
    hide Square, Mean, Variance;
  }

  lemma OneShort(n: nat) returns (history: seq<Record>, own: Record)
    requires n >= 1
    ensures own in history && own.success && own.duration == 0.0 && Durations(history) == Mirrored(Outlier(n))
  {
    var long := BLANK.(duration := 1.0);
    own := BLANK;
    history := Copies(long, n - 1) + [own];
    DurationsAppend(Copies(long, n - 1), [own]);
    DurationsOfLong(long, n - 1);
    assert [own][1..] == [];
    assert Durations([own]) == [0.0];
    assert history[n - 1] == own;
    assert Durations(history) == Mirrored(Outlier(n));
  }

  lemma {:induction false} DurationsOfLong(r: Record, n: nat)
    requires r.success
    ensures |Durations(Copies(r, n))| == n && forall i | 0 <= i < n :: Durations(Copies(r, n))[i] == r.duration
  {
    if n > 0 {
      assert Copies(r, n)[1..] == Copies(r, n - 1);
      DurationsOfLong(r, n - 1);
    }
  }

  lemma DurationFlagBound(history: seq<Record>, own: Record, n: nat, t: real, sqrt: real -> real)
    requires n >= 3 && t >= 0.0 && RootsOfSize(sqrt, n) && FlagsDuration(history, own, n, t, sqrt)
    ensures n as real * Square(t) < Square((n - 1) as real)
  {
    hide Square, ZScore, Variance, Mean;
    OwnDurationIsSampled(history, own);
    var ds := Durations(history);
    assert Abs(ZScore(own.duration, ds, sqrt)) > t && |ds| == n;
    hide FlagsDuration, DetectDuration, Durations, Abs;
    FlaggedMember(ds, own.duration, t, sqrt);
  }

  lemma ErrorFlagBound(history: seq<Record>, own: Record, n: nat, t: real, sqrt: real -> real)
    requires n >= 3 && t >= 0.0 && RootsOfSize(sqrt, n) && FlagsErrors(history, own, n, t, sqrt)
    ensures n as real * Square(t) < Square((n - 1) as real)
  {
    hide Square, ZScore, Variance, Mean, FlagsErrors, DetectErrorRate, Abs, ErrorCounts;
    ErrorFlagMeans(history, own, n, t, sqrt);
    FlaggedMember(ErrorCounts(history), |own.errors| as real, t, sqrt);
  }

  lemma ErrorFlagMeans(history: seq<Record>, own: Record, n: nat, t: real, sqrt: real -> real)
    requires t >= 0.0 && FlagsErrors(history, own, n, t, sqrt)
    ensures Abs(ZScore(|own.errors| as real, ErrorCounts(history), sqrt)) > t
    ensures |own.errors| as real in ErrorCounts(history) && |ErrorCounts(history)| == n
  {
    hide Square, ZScore, Variance, Mean;
    OwnErrorsAreSampled(history, own);
  }

  lemma OwnErrorsAreSampled(history: seq<Record>, own: Record)
    requires own in history
    ensures |own.errors| as real in ErrorCounts(history)
  {
    var i :| 0 <= i < |history| && history[i] == own;
    assert ErrorCounts(history)[i] == |own.errors| as real;
  }

  /** n - 1 runs of duration 0 without errors, and one of duration 1 with one error. */
  function OneOdd(n: nat): (history: seq<Record>)
    requires n >= 1
    ensures |history| == n && history[n - 1] == BLANK.(duration := 1.0, errors := ["e"])
  {
    Copies(BLANK, n - 1) + [BLANK.(duration := 1.0, errors := ["e"])]
  }

  lemma {:induction false} DurationsAppend(a: seq<Record>, b: seq<Record>)
    ensures Durations(a + b) == Durations(a) + Durations(b)
  {
    hide Durations;
    if a == [] {
      assert a + b == b;
      NoDurations();
    } else {
      var r, rest := a[0], a[1..];
      assert a == [r] + rest;
      assert a + b == [r] + (rest + b);
      DurationsAppend(rest, b);
      DurationsCons(r, rest);
      DurationsCons(r, rest + b);
      JoinReals(if r.success then [r.duration] else [], Durations(rest), Durations(b));
    }
  }

  lemma NoDurations()
    ensures Durations([]) == []
  {
  }

  lemma JoinReals(a: seq<real>, b: seq<real>, c: seq<real>)
    ensures (a + b) + c == a + (b + c)
  {
  }

  lemma DurationsCons(r: Record, rest: seq<Record>)
    ensures Durations([r] + rest) == (if r.success then [r.duration] else []) + Durations(rest)
  {
    assert ([r] + rest)[1..] == rest;
  }

  lemma {:induction false} DurationsOfCopies(n: nat)
    ensures Durations(Copies(BLANK, n)) == Zeros(n)
  {
    if n > 0 {
      assert Copies(BLANK, n)[1..] == Copies(BLANK, n - 1);
      DurationsOfCopies(n - 1);
      assert [0.0] + Zeros(n - 1) == Zeros(n);
    }
  }

  lemma OneOddSamples(n: nat)
    requires n >= 1
    ensures Durations(OneOdd(n)) == Outlier(n) && ErrorCounts(OneOdd(n)) == Outlier(n)
  {
    var odd := BLANK.(duration := 1.0, errors := ["e"]);
    DurationsAppend(Copies(BLANK, n - 1), [odd]);
    DurationsOfCopies(n - 1);
    assert [odd][1..] == [];
    assert Durations([odd]) == [1.0];
  }

  lemma OutlierIsFlagged(n: nat, t: real, sqrt: real -> real)
    requires n >= 3 && t >= 0.0 && RootsOfSize(sqrt, n)
    requires n as real * Square(t) < Square((n - 1) as real)
    ensures exists history, own :: FlagsDuration(history, own, n, t, sqrt)
    ensures exists history, own :: FlagsErrors(history, own, n, t, sqrt)
  {
    hide Square, ZScore, Variance, OneOdd;
    var history := OneOdd(n);
    var own := history[n - 1];
    OneOddSamples(n);
    OutlierZ(n, sqrt);
    AboveThreshold(n as real, ZScore(1.0, Outlier(n), sqrt), t, Square((n - 1) as real));
    assert own in history;
    assert FlagsDuration(history, own, n, t, sqrt);
    assert FlagsErrors(history, own, n, t, sqrt);
  }

  lemma EightThirds(z: real)
    requires z >= 0.0 && 9.0 * Square(z) == 64.0
    ensures z == 8.0 / 3.0
  {
    var t := 8.0 / 3.0;
    assert (z - t) * (z + t) == z * z - t * t;
    assert (t - z) * (z + t) == -((z - t) * (z + t));
    if z > t { TimesPositive(z - t, z + t, (z - t) * (z + t)); }
    if z < t { TimesPositive(t - z, z + t, (t - z) * (z + t)); }
  }

  /** Nine is exact: eight equal durations and one outlier flag the outlier at 2.5. */
  lemma NineCanFlag(sqrt: real -> real)
    requires var xs := Zeros(8) + [1.0]; IsSqrt(sqrt(Variance(xs)), Variance(xs))
    ensures ZScore(1.0, Zeros(8) + [1.0], sqrt) == 8.0 / 3.0 > 2.5
  {
    var xs := Zeros(8) + [1.0];
    hide Square, ZScore, Variance;
    OutlierZ(9, sqrt);
    assert Square(8.0) == 64.0 by { SquareIs(8.0); }
    EightThirds(ZScore(1.0, xs, sqrt));
  }
}
