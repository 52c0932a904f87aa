/** The progress tracking of `_run_qemu_img_with_live_progress` in
    h2kvm/converters/flatten.py: parsed percentages and file sizes in, log lines out. */
module ReaderProgress {

  /** `log_interval_s` and `log_min_step_pct`; the defaults are 10 and 5. */
  datatype Policy = Policy(logInterval: real, logMinStep: real)

  datatype Probe = NoSize | Size(bytes: nat)

  /** One turn of the loop: the percentages parsed from stderr, the size probe of the
      output file, and the clock. A parsed percentage may exceed 100. */
  datatype Turn = Turn(pcts: seq<real>, probe: Probe, now: real)

  datatype LogLine = LogLine(at: real, pct: real)

  function Max(a: real, b: real): real
  {
    if a >= b then a else b
  }

  function PctToCompleted(pct: real, virtSize: int): real
  {
    if virtSize > 0 then (pct / 100.0) * virtSize as real else pct
  }

  function FeedPcts(best: real, pcts: seq<real>, virtSize: int): real
    decreases |pcts|
  {
    if pcts == [] then best else FeedPcts(Max(best, PctToCompleted(pcts[0], virtSize)), pcts[1..], virtSize)
  }

  function FeedSize(best: real, probe: Probe, virtSize: int): real
  {
    if virtSize <= 0 || probe.NoSize? then best
    else Max(best, (if probe.bytes < virtSize then probe.bytes else virtSize) as real)
  }

  function Completed(best: real, t: Turn, virtSize: int): real
  {
    FeedSize(FeedPcts(best, t.pcts, virtSize), t.probe, virtSize)
  }

  function Clamp(v: real): real
  {
    if v > 100.0 then 100.0 else if v < 0.0 then 0.0 else v
  }

  function Shown(best: real, virtSize: int): (r: real)
    ensures 0.0 <= r <= 100.0
  {
    Clamp(if virtSize > 0 then (best / virtSize as real) * 100.0 else best)
  }

  lemma {:induction false} FeedPctsGrows(best: real, pcts: seq<real>, virtSize: int)
    ensures FeedPcts(best, pcts, virtSize) >= best
    decreases |pcts|
  {
    hide PctToCompleted;
    if pcts != [] { FeedPctsGrows(Max(best, PctToCompleted(pcts[0], virtSize)), pcts[1..], virtSize); }
  }

  lemma DivMonotone(a: real, b: real, v: real)
    requires a <= b && v > 0.0
    ensures a / v <= b / v
  {
  }

  /** The shown percentage never decreases from one turn to the next. */
  lemma ShownGrows(best: real, t: Turn, virtSize: int)
    ensures Shown(best, virtSize) <= Shown(Completed(best, t, virtSize), virtSize)
  {
    hide FeedPcts;
    FeedPctsGrows(best, t.pcts, virtSize);
    if virtSize > 0 { DivMonotone(best, Completed(best, t, virtSize), virtSize as real); }
  }

  // ----- what is shown, as a maximum

  /** Something parsed or probed in these turns stands for this percentage. */
  ghost predicate Reported(turns: seq<Turn>, virtSize: int, pct: real)
  {
    exists i | 0 <= i < |turns| ::
      || pct in turns[i].pcts
      || (virtSize > 0 && turns[i].probe.Size? && pct == SizePct(turns[i].probe.bytes, virtSize))
  }

  /** The share of the file that is written, at most all of it. */
  function SizePct(bytes: nat, virtSize: int): real
    requires virtSize > 0
  {
    if bytes >= virtSize then 100.0 else (bytes as real / virtSize as real) * 100.0
  }

  /** The percentage a completion stands for, not clamped. */
  function PctOf(best: real, virtSize: int): real
  {
    if virtSize > 0 then (best / virtSize as real) * 100.0 else best
  }

  lemma PctOfMonotone(a: real, b: real, virtSize: int)
    ensures a <= b ==> PctOf(a, virtSize) <= PctOf(b, virtSize)
    ensures PctOf(Max(a, b), virtSize) == Max(PctOf(a, virtSize), PctOf(b, virtSize))
  {
    if virtSize > 0 {
      if a <= b { DivMonotone(a, b, virtSize as real); } else { DivMonotone(b, a, virtSize as real); }
    }
  }

  lemma PctRoundTrip(pct: real, virtSize: int)
    ensures PctOf(PctToCompleted(pct, virtSize), virtSize) == pct
  {
    if virtSize > 0 {
      var v := virtSize as real;
      TimesThenDivide(pct / 100.0, v);
    }
  }

  lemma TimesThenDivide(x: real, v: real)
    requires v != 0.0
    ensures (x * v) / v == x
  {
  }

  /** `p` is the greatest of 0 and the percentages reported. */
  ghost predicate IsPeak(p: real, turns: seq<Turn>, virtSize: int)
  {
    && p >= 0.0 && (p == 0.0 || Reported(turns, virtSize, p))
    && forall pct | Reported(turns, virtSize, pct) :: pct <= p
  }

  lemma {:induction false} FeedPctsPeak(best: real, pcts: seq<real>, virtSize: int)
    ensures var p, q := PctOf(best, virtSize), PctOf(FeedPcts(best, pcts, virtSize), virtSize);
            && q >= p && (q == p || q in pcts) && forall pct | pct in pcts :: pct <= q
    decreases |pcts|
  {
    hide PctToCompleted, PctOf, Max;
    if pcts != [] {
      var c := PctToCompleted(pcts[0], virtSize);
      FeedPctsPeak(Max(best, c), pcts[1..], virtSize);
      PctOfMonotone(best, c, virtSize);
      PctRoundTrip(pcts[0], virtSize);
      MaxIs(PctOf(best, virtSize), pcts[0]);
      assert forall pct | pct in pcts :: pct == pcts[0] || pct in pcts[1..];
    }
  }

  lemma MaxIs(a: real, b: real)
    ensures Max(a, b) >= a && Max(a, b) >= b && (Max(a, b) == a || Max(a, b) == b)
  {
  }

  lemma FeedSizePeak(best: real, probe: Probe, virtSize: int)
    ensures var p, q := PctOf(best, virtSize), PctOf(FeedSize(best, probe, virtSize), virtSize);
            if virtSize > 0 && probe.Size? then q == Max(p, SizePct(probe.bytes, virtSize)) else q == p
  {
    if virtSize > 0 && probe.Size? {
      var c := (if probe.bytes < virtSize then probe.bytes else virtSize) as real;
      PctOfMonotone(best, c, virtSize);
      WrittenPct(probe.bytes, virtSize);
      hide PctOf, SizePct, Max;
    }
  }

  lemma WrittenPct(bytes: nat, virtSize: int)
    requires virtSize > 0
    ensures PctOf((if bytes < virtSize then bytes else virtSize) as real, virtSize) == SizePct(bytes, virtSize)
  {
    if bytes >= virtSize { Whole(virtSize as real); }
  }

  lemma Whole(v: real)
    requires v != 0.0
    ensures v / v == 1.0
  {
  }

  lemma ReportedSnoc(turns: seq<Turn>, t: Turn, virtSize: int, pct: real)
    ensures Reported(turns + [t], virtSize, pct) <==>
            || Reported(turns, virtSize, pct) || pct in t.pcts
            || (virtSize > 0 && t.probe.Size? && pct == SizePct(t.probe.bytes, virtSize))
  {
    hide SizePct;
    var all := turns + [t];
    assert all[|turns|] == t;
    assert forall i | 0 <= i < |turns| :: all[i] == turns[i];
  }

  /** The best completion stands for the peak of what was reported. */
  lemma {:induction false} BestIsPeak(turns: seq<Turn>, virtSize: int)
    ensures IsPeak(PctOf(BestAfter(turns, virtSize), virtSize), turns, virtSize)
  {
    hide FeedPcts, FeedSize, SizePct, Reported, PctOf, Max;
    if turns == [] {
      NothingReported(virtSize);
    } else {
      var n := |turns| - 1;
      var front, t := turns[..n], turns[n];
      assert turns == front + [t];
      BestIsPeak(front, virtSize);
      var best := BestAfter(front, virtSize);
      var fed := FeedPcts(best, t.pcts, virtSize);
      FeedPctsPeak(best, t.pcts, virtSize);
      FeedSizePeak(fed, t.probe, virtSize);
      if virtSize > 0 && t.probe.Size? { MaxIs(PctOf(fed, virtSize), SizePct(t.probe.bytes, virtSize)); }
      forall pct ensures Reported(turns, virtSize, pct) <==>
        || Reported(front, virtSize, pct) || pct in t.pcts
        || (virtSize > 0 && t.probe.Size? && pct == SizePct(t.probe.bytes, virtSize))
      {
        ReportedSnoc(front, t, virtSize, pct);
      }
    }
  }

  lemma NothingReported(virtSize: int)
    ensures PctOf(0.0, virtSize) == 0.0 && forall pct :: !Reported([], virtSize, pct)
  {
  }

  /** What is shown after these turns: the greatest percentage parsed or probed so far, but
      no more than 100. */
  lemma ShownIsPeak(turns: seq<Turn>, virtSize: int) returns (peak: real)
    ensures IsPeak(peak, turns, virtSize)
    ensures Shown(BestAfter(turns, virtSize), virtSize) == if peak > 100.0 then 100.0 else peak
  {
    BestIsPeak(turns, virtSize);
    peak := PctOf(BestAfter(turns, virtSize), virtSize);
    hide BestAfter, Reported;
  }

  predicate ShouldLog(now: real, pct: real, lastAt: real, lastPct: real, p: Policy)
  {
    now - lastAt >= p.logInterval || pct - lastPct >= p.logMinStep || pct >= 100.0
  }

  predicate Ordered(turns: seq<Turn>)
  {
    forall i, j | 0 <= i < j < |turns| :: turns[i].now <= turns[j].now
  }

  function Elapsed(turns: seq<Turn>): real
  {
    if turns == [] then 0.0 else turns[|turns| - 1].now - turns[0].now
  }

  function BelowFull(lines: seq<LogLine>): nat
  {
    if lines == [] then 0
    else BelowFull(lines[..|lines| - 1]) + (if lines[|lines| - 1].pct < 100.0 then 1 else 0)
  }

  function Multiples(n: nat, x: real): real
  {
    n as real * x
  }

  lemma MultiplesStep(n: nat, x: real)
    ensures Multiples(n + 1, x) == Multiples(n, x) + x
    ensures Multiples(0, x) == 0.0
  {
  }

  /** Charging every line below 100% to the clock or to a rise of the percentage:
      `timed` lines lie a log interval apart, `steps` lines each raised it by a step. */
  ghost predicate Charged(lines: seq<LogLine>, timed: nat, steps: nat, since: real, lastAt: real,
                          lastPct: real, p: Policy)
  {
    && BelowFull(lines) == timed + steps
    && (timed > 0 ==> Multiples(timed - 1, p.logInterval) <= lastAt - since)
    && Multiples(steps, p.logMinStep) <= lastPct + 1.0
  }

  lemma ChargeLine(lines: seq<LogLine>, timed: nat, steps: nat, since: real, lastAt: real, lastPct: real,
                   p: Policy, now: real, pct: real)
    returns (timed': nat, steps': nat)
    requires Charged(lines, timed, steps, since, lastAt, lastPct, p) && since <= now && lastPct <= pct < 100.0
    requires timed > 0 ==> lastAt <= now
    requires ShouldLog(now, pct, lastAt, lastPct, p)
    ensures Charged(lines + [LogLine(now, pct)], timed', steps', since, now, pct, p)
    ensures timed' >= timed
  {
    hide Multiples;
    assert (lines + [LogLine(now, pct)])[..|lines|] == lines;
    if now - lastAt >= p.logInterval {
      timed', steps' := timed + 1, steps;
      if timed > 0 { MultiplesStep(timed - 1, p.logInterval); } else { MultiplesStep(0, p.logInterval); }
    } else {
      timed', steps' := timed, steps + 1;
      MultiplesStep(steps, p.logMinStep);
    }
  }

  /** How many lines below 100% a run may emit: `timed` of them a log interval apart
      within `elapsed`, `steps` of them each a step of a percentage that starts at -1. */
  ghost predicate LogBudget(count: nat, timed: nat, steps: nat, elapsed: real, p: Policy)
  {
    && count == timed + steps
    && (timed > 0 ==> Multiples(timed - 1, p.logInterval) <= elapsed)
    && Multiples(steps, p.logMinStep) < 101.0
  }

  /** A turn is covered by a line: its own, or one that is neither a log interval old
      nor a step behind, with the percentage still below 100. */
  ghost predicate Covers(line: LogLine, now: real, pct: real, p: Policy)
  {
    || line == LogLine(now, pct)
    || (now < line.at + p.logInterval && pct < line.pct + p.logMinStep && pct < 100.0)
  }

  /** A line is due after another: an interval later, a step further, or at 100%. */
  ghost predicate Due(earlier: LogLine, later: LogLine, p: Policy)
  {
    || later.at >= earlier.at + p.logInterval
    || later.pct >= earlier.pct + p.logMinStep
    || later.pct >= 100.0
  }

  /** No line comes before it is due, counted from where the loop starts. */
  ghost predicate AllDue(lines: seq<LogLine>, p: Policy)
  {
    forall k: nat | k < |lines| :: Due(Previous(lines, k), lines[k], p)
  }

  /** The line before line k; before the first, where `last_log_t` and `last_log_pct` start. */
  function Previous(lines: seq<LogLine>, k: nat): LogLine
    requires k <= |lines|
  {
    if k == 0 then LogLine(0.0, -1.0) else lines[k - 1]
  }

  function BestAfter(turns: seq<Turn>, virtSize: int): real
  {
    if turns == [] then 0.0 else Completed(BestAfter(turns[..|turns| - 1], virtSize), turns[|turns| - 1], virtSize)
  }

  /** The percentages a run shows: those of the greatest completion seen so far. */
  ghost predicate ShowsBest(shown: seq<real>, turns: seq<Turn>, virtSize: int)
  {
    && |shown| == |turns|
    && forall i | 0 <= i < |shown| :: shown[i] == Shown(BestAfter(turns[..i + 1], virtSize), virtSize)
  }

  /** No turn goes uncovered, and every line is some turn's. */
  ghost predicate LogsFaithfully(lines: seq<LogLine>, shown: seq<real>, turns: seq<Turn>, p: Policy)
    requires |shown| == |turns|
  {
    && (forall i | 0 <= i < |turns| :: exists line | line in [Previous(lines, 0)] + lines ::
        Covers(line, turns[i].now, shown[i], p))
    && forall line | line in lines :: exists i | 0 <= i < |turns| :: line == LogLine(turns[i].now, shown[i])
  }

  lemma ShowNext(shown: seq<real>, turns: seq<Turn>, t: Turn, virtSize: int)
    requires ShowsBest(shown, turns, virtSize)
    ensures ShowsBest(shown + [Shown(BestAfter(turns + [t], virtSize), virtSize)], turns + [t], virtSize)
    ensures BestAfter(turns + [t], virtSize) == Completed(BestAfter(turns, virtSize), t, virtSize)
  {
    hide Shown, Completed;
    var ts := turns + [t];
    assert ts[..|turns|] == turns && ts[..|turns| + 1] == ts;
    forall i | 0 <= i < |turns| ensures shown[i] == Shown(BestAfter(ts[..i + 1], virtSize), virtSize) {
      assert ts[..i + 1] == turns[..i + 1];
    }
  }

  lemma {:induction false} BestGrows(turns: seq<Turn>, virtSize: int, i: nat, j: nat)
    requires i <= j <= |turns|
    ensures Shown(BestAfter(turns[..i], virtSize), virtSize) <= Shown(BestAfter(turns[..j], virtSize), virtSize)
    decreases j
  {
    hide Shown, Completed;
    if i < j {
      BestGrows(turns, virtSize, i, j - 1);
      assert turns[..j][..j - 1] == turns[..j - 1];
      ShownGrows(BestAfter(turns[..j - 1], virtSize), turns[j - 1], virtSize);
    }
  }

  /** Whatever is parsed or probed, the shown percentage never decreases over a run. */
  lemma ShownIsMonotone(shown: seq<real>, turns: seq<Turn>, virtSize: int)
    requires ShowsBest(shown, turns, virtSize)
    ensures forall i, j | 0 <= i <= j < |shown| :: shown[i] <= shown[j]
  {
    forall i, j | 0 <= i <= j < |shown| ensures shown[i] <= shown[j] {
      BestGrows(turns, virtSize, i + 1, j + 1);
    }
  }

  lemma LogNext(lines: seq<LogLine>, lines': seq<LogLine>, last: LogLine, shown: seq<real>, turns: seq<Turn>,
                p: Policy, t: Turn, pct: real)
    requires |shown| == |turns| && LogsFaithfully(lines, shown, turns, p)
    requires lines' == lines || lines' == lines + [LogLine(t.now, pct)]
    requires last in [Previous(lines, 0)] + lines' && Covers(last, t.now, pct, p)
    ensures LogsFaithfully(lines', shown + [pct], turns + [t], p)
  {
    hide Covers;
    var ts, ss := turns + [t], shown + [pct];
    assert Previous(lines', 0) == Previous(lines, 0);
    assert ts[|turns|] == t && ss[|turns|] == pct;
    forall i | 0 <= i < |ts|
      ensures exists line | line in [Previous(lines, 0)] + lines' :: Covers(line, ts[i].now, ss[i], p)
    {
      if i < |turns| {
        assert ts[i] == turns[i] && ss[i] == shown[i];
        var line :| line in [Previous(lines, 0)] + lines && Covers(line, turns[i].now, shown[i], p);
        assert line in [Previous(lines', 0)] + lines';
      } else {
        assert i == |turns| && Covers(last, ts[i].now, ss[i], p);
      }
    }
    forall line | line in lines' ensures exists i | 0 <= i < |ts| :: line == LogLine(ts[i].now, ss[i]) {
      if line in lines {
        var i :| 0 <= i < |turns| && line == LogLine(turns[i].now, shown[i]);
        assert ts[i] == turns[i] && ss[i] == shown[i];
      } else {
        assert ts[|turns|] == t && ss[|turns|] == pct;
      }
    }
  }

  /** Under the default policy the budget is 21 + floor(T / 10) lines. */
  lemma DefaultLogBound(count: nat, timed: nat, steps: nat, elapsed: real)
    requires LogBudget(count, timed, steps, elapsed, Policy(10.0, 5.0)) && elapsed >= 0.0
    ensures count as int <= 21 + (elapsed / 10.0).Floor
  {
    assert steps as real * 5.0 < 101.0;
    assert steps <= 20;
    if timed > 0 {
      assert (timed - 1) as real * 10.0 <= elapsed;
      assert (timed - 1) as real <= elapsed / 10.0;
      assert timed - 1 <= (elapsed / 10.0).Floor;
    }
  }

  lemma DueNext(lines: seq<LogLine>, last: LogLine, line: LogLine, p: Policy)
    requires AllDue(lines, p) && last == Previous(lines, |lines|)
    requires ShouldLog(line.at, line.pct, last.at, last.pct, p)
    ensures AllDue(lines + [line], p)
  {
    var all := lines + [line];
    forall k: nat | k < |all| ensures Due(Previous(all, k), all[k], p) {
      assert Previous(all, k) == Previous(lines, k);
      if k < |lines| { assert Due(Previous(lines, k), lines[k], p); }
    }
  }

  /** The accounts of a run that has come to `now` and shows `top`. Once a line was at 100%
      no further line is below. */
  ghost predicate Budgeted(lines: seq<LogLine>, timed: nat, steps: nat, since: real, now: real, last: LogLine,
                           full: bool, top: real, p: Policy)
  {
    && since <= now && last.pct <= top
    && (full ==> top >= 100.0)
    && (!full ==> Charged(lines, timed, steps, since, last.at, last.pct, p) && last.pct < 100.0)
    && (!full && timed > 0 ==> last.at <= now)
    && BelowFull(lines) == timed + steps && Multiples(steps, p.logMinStep) < 101.0
    && (timed > 0 ==> Multiples(timed - 1, p.logInterval) <= now - since)
  }

  lemma BudgetStarts(since: real, virtSize: int, p: Policy)
    ensures Budgeted([], 0, 0, since, since, LogLine(0.0, -1.0), false, Shown(0.0, virtSize), p)
  {
    MultiplesStep(0, p.logMinStep);
    hide Shown;
  }

  lemma BudgetWaits(lines: seq<LogLine>, timed: nat, steps: nat, since: real, now: real, last: LogLine,
                    full: bool, top: real, p: Policy, now': real, top': real)
    requires Budgeted(lines, timed, steps, since, now, last, full, top, p) && now <= now' && top <= top'
    ensures Budgeted(lines, timed, steps, since, now', last, full, top', p)
  {
    hide Multiples, BelowFull;
  }

  lemma BudgetLogs(lines: seq<LogLine>, timed: nat, steps: nat, since: real, now: real, last: LogLine,
                   full: bool, pct: real, p: Policy) returns (timed': nat, steps': nat, full': bool)
    requires Budgeted(lines, timed, steps, since, now, last, full, pct, p)
    requires ShouldLog(now, pct, last.at, last.pct, p)
    ensures Budgeted(lines + [LogLine(now, pct)], timed', steps', since, now, LogLine(now, pct), full', pct, p)
  {
    hide Multiples;
    if pct < 100.0 {
      timed', steps' := ChargeLine(lines, timed, steps, since, last.at, last.pct, p, now, pct);
      full' := false;
    } else {
      assert (lines + [LogLine(now, pct)])[..|lines|] == lines;
      timed', steps', full' := timed, steps, true;
    }
  }

  /** The log so far, whose last line is `last`. */
  ghost predicate Tracks(lines: seq<LogLine>, last: LogLine, shown: seq<real>, turns: seq<Turn>, p: Policy)
  {
    && |shown| == |turns|
    && last == Previous(lines, |lines|)
    && LogsFaithfully(lines, shown, turns, p) && AllDue(lines, p)
  }

  lemma TracksNext(lines: seq<LogLine>, last: LogLine, shown: seq<real>, turns: seq<Turn>, p: Policy, t: Turn,
                   pct: real)
    requires Tracks(lines, last, shown, turns, p)
    ensures ShouldLog(t.now, pct, last.at, last.pct, p) ==>
              Tracks(lines + [LogLine(t.now, pct)], LogLine(t.now, pct), shown + [pct], turns + [t], p)
    ensures !ShouldLog(t.now, pct, last.at, last.pct, p) ==> Tracks(lines, last, shown + [pct], turns + [t], p)
  {
    var line := LogLine(t.now, pct);
    if ShouldLog(t.now, pct, last.at, last.pct, p) {
      DueNext(lines, last, line, p);
      hide LogsFaithfully, AllDue, ShouldLog;
      LogNext(lines, lines + [line], line, shown, turns, p, t, pct);
    } else {
      assert last in [Previous(lines, 0)] + lines;
      assert Covers(last, t.now, pct, p);
      hide LogsFaithfully, AllDue, ShouldLog, Covers;
      LogNext(lines, lines, last, shown, turns, p, t, pct);
    }
  }

  /** The reader loop: `last` holds `last_log_t` and `last_log_pct`. */
  method ReaderLoop(turns: seq<Turn>, virtSize: int, p: Policy) returns (shown: seq<real>, lines: seq<LogLine>)
    requires Ordered(turns)
    ensures ShowsBest(shown, turns, virtSize)
    ensures forall i | 0 <= i < |shown| :: 0.0 <= shown[i] <= 100.0
    ensures forall i, j | 0 <= i <= j < |shown| :: shown[i] <= shown[j]
    ensures LogsFaithfully(lines, shown, turns, p)
    ensures AllDue(lines, p)
    ensures exists timed, steps: nat :: LogBudget(BelowFull(lines), timed, steps, Elapsed(turns), p)
    ensures p == Policy(10.0, 5.0) ==> BelowFull(lines) as int <= 21 + (Elapsed(turns) / 10.0).Floor
  {
    hide Multiples, Shown, Completed, BestAfter, ShouldLog, Budgeted, Tracks;
    shown, lines := [], [];
    var best, last := 0.0, LogLine(0.0, -1.0);
    ghost var timed: nat, steps: nat, full := 0, 0, false;
    ghost var since := if turns == [] then 0.0 else turns[0].now;
    ghost var now := since;
    EmptyRun(virtSize, p);
    BudgetStarts(since, virtSize, p);
    for i := 0 to |turns|
      invariant ShowsBest(shown, turns[..i], virtSize) && best == BestAfter(turns[..i], virtSize)
      invariant Tracks(lines, last, shown, turns[..i], p)
      invariant now == if i == 0 then since else turns[i - 1].now
      invariant Budgeted(lines, timed, steps, since, now, last, full, Shown(best, virtSize), p)
    {
      var t := turns[i];
      assert turns[..i + 1] == turns[..i] + [t];
      ShowNext(shown, turns[..i], t, virtSize);
      ShownGrows(best, t, virtSize);
      ghost var before := best;
      best := Completed(best, t, virtSize);
      var pct := Shown(best, virtSize);
      TracksNext(lines, last, shown, turns[..i], p, t, pct);
      BudgetWaits(lines, timed, steps, since, now, last, full, Shown(before, virtSize), p, t.now, pct);
      now := t.now;
      if ShouldLog(t.now, pct, last.at, last.pct, p) {
        timed, steps, full := BudgetLogs(lines, timed, steps, since, now, last, full, pct, p);
        last := LogLine(t.now, pct);
        lines := lines + [last];
      }
      shown := shown + [pct];
    }
    assert turns[..|turns|] == turns;
    RunEnds(shown, lines, turns, virtSize, p, timed, steps, since, now, last, full, Shown(best, virtSize));
  }

  lemma RunEnds(shown: seq<real>, lines: seq<LogLine>, turns: seq<Turn>, virtSize: int, p: Policy, timed: nat,
                steps: nat,
                since: real, now: real, last: LogLine, full: bool, top: real)
    requires Ordered(turns) && ShowsBest(shown, turns, virtSize) && Tracks(lines, last, shown, turns, p)
    requires Budgeted(lines, timed, steps, since, now, last, full, top, p) && now - since == Elapsed(turns)
    ensures forall i | 0 <= i < |shown| :: 0.0 <= shown[i] <= 100.0
    ensures forall i, j | 0 <= i <= j < |shown| :: shown[i] <= shown[j]
    ensures LogsFaithfully(lines, shown, turns, p) && AllDue(lines, p)
    ensures LogBudget(BelowFull(lines), timed, steps, Elapsed(turns), p)
    ensures p == Policy(10.0, 5.0) ==> BelowFull(lines) as int <= 21 + (Elapsed(turns) / 10.0).Floor
  {
    hide LogsFaithfully, AllDue, Multiples;
    ShownIsMonotone(shown, turns, virtSize);
    assert LogBudget(BelowFull(lines), timed, steps, Elapsed(turns), p);
    if p == Policy(10.0, 5.0) { DefaultLogBound(BelowFull(lines), timed, steps, Elapsed(turns)); }
  }

  lemma EmptyRun(virtSize: int, p: Policy)
    ensures Tracks([], LogLine(0.0, -1.0), [], [], p) && BestAfter([], virtSize) == 0.0
  {
  }
}
