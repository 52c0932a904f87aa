/** The phase detector of h2kvm/ai/anomaly.py: phases that are rare in the successful
    history, and common ones that are missing. Frequencies are compared exactly. */
module PhaseAnomalies {
  import opened Records

  /** Occurrences of a phase in the successful records, repeats included. */
  function Count(history: seq<Record>, p: string): nat
  {
    if history == [] then 0
    else
      var last := history[|history| - 1];
      Count(history[..|history| - 1], p) + if last.success then multiset(last.phases)[p] else 0
  }

  function Successful(history: seq<Record>): nat
  {
    if history == [] then 0
    else Successful(history[..|history| - 1]) + if history[|history| - 1].success then 1 else 0
  }

  /** Present now, and in less than a fifth of the successful records. */
  predicate IsUnusual(p: string, phases: seq<string>, history: seq<Record>)
  {
    p in phases && 5 * Count(history, p) < Successful(history)
  }

  /** Absent now, and in more than four fifths of them. */
  predicate IsMissing(p: string, phases: seq<string>, history: seq<Record>)
  {
    p !in phases && 5 * Count(history, p) > 4 * Successful(history)
  }

  ghost predicate Flagged(phases: seq<string>, history: seq<Record>)
  {
    && phases != [] && Successful(history) > 0
    && exists p :: IsUnusual(p, phases, history) || IsMissing(p, phases, history)
  }

  /** `counts` holds what `Count` says, for every phase that occurs. */
  ghost predicate Tallies(counts: map<string, nat>, history: seq<Record>)
  {
    forall p :: (if p in counts then counts[p] else 0) == Count(history, p)
  }

  ghost predicate TalliesWith(counts: map<string, nat>, history: seq<Record>, more: seq<string>)
  {
    forall p :: (if p in counts then counts[p] else 0) == Count(history, p) + multiset(more)[p]
  }

  method TallyPhases(counts: map<string, nat>, phases: seq<string>, ghost history: seq<Record>)
    returns (out: map<string, nat>)
    requires Tallies(counts, history)
    ensures TalliesWith(out, history, phases)
  {
    hide Count;
    out := counts;
    for i := 0 to |phases|
      invariant TalliesWith(out, history, phases[..i])
    {
      assert phases[..i + 1] == phases[..i] + [phases[i]];
      out := out[phases[i] := (if phases[i] in out then out[phases[i]] else 0) + 1];
    }
    assert phases[..|phases|] == phases;
  }

  method TallyHistory(history: seq<Record>) returns (counts: map<string, nat>, total: nat)
    ensures Tallies(counts, history) && total == Successful(history)
  {
    counts, total := map[], 0;
    for i := 0 to |history|
      invariant Tallies(counts, history[..i]) && total == Successful(history[..i])
    {
      assert history[..i + 1][..i] == history[..i];
      if history[i].success {
        counts := TallyPhases(counts, history[i].phases, history[..i]);
        total := total + 1;
      }
    }
    assert history[..|history|] == history;
  }

  /** `detect_phase_anomaly`, with the two lists its message names. */
  method DetectPhase(phases: seq<string>, history: seq<Record>)
    returns (flagged: bool, unusual: seq<string>, missing: set<string>)
    ensures flagged <==> Flagged(phases, history)
    ensures flagged ==> forall p :: p in unusual <==> IsUnusual(p, phases, history)
    ensures flagged ==> forall p :: p in missing <==> IsMissing(p, phases, history)
  {
    unusual, missing := [], {};
    if history == [] || phases == [] {
      return false, [], {};
    }
    var counts, total := TallyHistory(history);
    if total == 0 {
      return false, [], {};
    }
    for i := 0 to |phases|
      invariant forall p :: p in unusual <==> p in phases[..i] && IsUnusual(p, phases, history)
    {
      assert phases[..i + 1] == phases[..i] + [phases[i]];
      if 5 * (if phases[i] in counts then counts[phases[i]] else 0) < total {
        unusual := unusual + [phases[i]];
      }
    }
    assert phases[..|phases|] == phases;
    var rest := counts.Keys;
    while rest != {}
      invariant rest <= counts.Keys
      invariant forall p :: p in missing <==> p in counts && p !in rest && IsMissing(p, phases, history)
    {
      var p :| p in rest;
      rest := rest - {p};
      if 5 * counts[p] > 4 * total && p !in phases {
        missing := missing + {p};
      }
    }
    flagged := unusual != [] || missing != {};
    if unusual != [] { assert unusual[0] in unusual; }
  }

  // ----- a record judged by a history that contains it

  predicate NoRepeats(history: seq<Record>)
  {
    forall i, j, k | 0 <= i < |history| && 0 <= j < k < |history[i].phases| ::
      history[i].phases[j] != history[i].phases[k]
  }

  lemma {:induction false} OccursOnce(s: seq<string>, p: string)
    requires forall j, k | 0 <= j < k < |s| :: s[j] != s[k]
    ensures multiset(s)[p] <= 1
  {
    if s != [] {
      var n := |s| - 1;
      assert s == s[..n] + [s[n]];
      OccursOnce(s[..n], p);
    }
  }

  lemma {:induction false} CountBounds(history: seq<Record>, own: Record, p: string)
    requires own in history && own.success && NoRepeats(history)
    ensures Successful(history) > 0
    ensures p in own.phases ==> Count(history, p) >= 1
    ensures p !in own.phases ==> Count(history, p) <= Successful(history) - 1
  {
    var n := |history| - 1;
    var front, last := history[..n], history[n];
    OccursOnce(last.phases, p);
    if own in front {
      CountBounds(front, own, p);
    } else {
      assert last == own;
      AtMostOnePerRecord(front, p);
    }
  }

  lemma {:induction false} AtMostOnePerRecord(history: seq<Record>, p: string)
    requires NoRepeats(history)
    ensures Count(history, p) <= Successful(history)
  {
    if history != [] {
      var n := |history| - 1;
      OccursOnce(history[n].phases, p);
      AtMostOnePerRecord(history[..n], p);
    }
  }

  /** With at most five successful records, a successful run that is one of them has no
      phase anomaly: each of its phases makes up a fifth, and one it lacks stays at or
      below four fifths. */
  lemma EarlyPhasesAreNeverFlagged(history: seq<Record>, own: Record)
    requires own in history && own.success && NoRepeats(history)
    requires Successful(history) <= 5
    ensures !Flagged(own.phases, history)
  {
    forall p ensures !IsUnusual(p, own.phases, history) && !IsMissing(p, own.phases, history) {
      CountBounds(history, own, p);
    }
  }

  function Copies(r: Record, n: nat): (s: seq<Record>)
    ensures |s| == n && forall i | 0 <= i < n :: s[i] == r
  {
    seq(n, _ => r)
  }

  lemma {:induction false} CountCopies(r: Record, n: nat, p: string)
    requires r.success
    ensures Successful(Copies(r, n)) == n
    ensures p !in r.phases ==> Count(Copies(r, n), p) == 0
    ensures r.phases == [p] ==> Count(Copies(r, n), p) == n
  {
    if n > 0 {
      CountCopies(r, n - 1, p);
      assert Copies(r, n)[..n - 1] == Copies(r, n - 1);
    }
  }

  /** One of n successful records, none of which repeats a phase, is flagged for a phase it
      has, or for one it lacks. */
  ghost predicate FlagsOwn(history: seq<Record>, own: Record, n: nat, p: string, present: bool)
  {
    && own in history && own.success && NoRepeats(history) && own.phases != [] && Successful(history) == n
    && if present then IsUnusual(p, own.phases, history) else IsMissing(p, own.phases, history)
  }

  const BLANK := Record("", 0.0, Features("", 0.0, 0, "", false, false, false, "", false, 0, 0), true, 0.0, [], [])

  /** Six is exact, both for an unusual phase and for a missing one: a history of n
      successful records can flag one of its own if and only if n is at least 6. */
  lemma PhaseFlagPossibleExactly(n: nat, present: bool)
    ensures (exists history, own, p :: FlagsOwn(history, own, n, p, present)) <==> n >= 6
  {
    if history, own, p :| FlagsOwn(history, own, n, p, present) {
      if n <= 5 {
        CountBounds(history, own, p);
      }
    }
    if n >= 6 {
      var history, own := LonePhase(n);
      assert FlagsOwn(history, own, n, if present then "q" else "p", present);
    }
  }

  lemma CountSnoc(front: seq<Record>, r: Record, p: string)
    ensures Count(front + [r], p) == Count(front, p) + if r.success then multiset(r.phases)[p] else 0
    ensures Successful(front + [r]) == Successful(front) + if r.success then 1 else 0
  {
    assert (front + [r])[..|front|] == front;
  }

  /** One record with a phase of its own among n - 1 that share another. */
  lemma LonePhase(n: nat) returns (history: seq<Record>, own: Record)
    requires n >= 6
    ensures FlagsOwn(history, own, n, "q", true) && FlagsOwn(history, own, n, "p", false)
  {
    hide Count, Successful;
    own := BLANK.(phases := ["q"]);
    var other := BLANK.(phases := ["p"]);
    var front := Copies(other, n - 1);
    history := front + [own];
    assert "q"[0] != "p"[0];
    CountCopies(other, n - 1, "q");
    CountCopies(other, n - 1, "p");
    CountSnoc(front, own, "q");
    CountSnoc(front, own, "p");
    assert multiset(other.phases)["p"] == 1 && multiset(own.phases)["p"] == 0;
    assert Count(history, "q") == 1 && Successful(history) == n;
    assert IsUnusual("q", own.phases, history);
    assert forall i | 0 <= i < |history| :: |history[i].phases| == 1;
  }
}
