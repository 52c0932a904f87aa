/** Similarity search and prediction: h2kvm/ai/knowledge_base.py,
    h2kvm/ai/predictive.py and the feature vector of h2kvm/ai/models.py. Results are
    stated before rounding. */
module Prediction {
  import opened Statistics
  import opened Similarity
  import opened Records

  function FormatCode(s: string): real
  {
    if s == "vmdk" then 0.0 else if s == "vhd" then 1.0 else if s == "vhdx" then 2.0
    else if s == "ova" then 3.0 else if s == "raw" then 4.0 else if s == "qcow2" then 5.0 else 6.0
  }

  function FamilyCode(s: string): real
  {
    if s == "linux" then 0.0 else if s == "windows" then 1.0 else if s == "freebsd" then 2.0 else 3.0
  }

  function ControllerCode(s: string): real
  {
    if s == "lsilogic" then 0.0 else if s == "buslogic" then 1.0 else if s == "pvscsi" then 2.0
    else if s == "ide" then 3.0 else if s == "sata" then 4.0 else 5.0
  }

  function Flag(b: bool): real
  {
    if b then 1.0 else 0.0
  }

  function ToVector(f: Features): (v: seq<real>)
    ensures |v| == 11
  {
    [ FormatCode(f.sourceFormat), f.diskSizeGb, f.diskCount as real, FamilyCode(f.osFamily),
      Flag(f.hasLvm), Flag(f.hasLuks), Flag(f.hasUefi), ControllerCode(f.controllerType),
      Flag(f.hasSnapshots), f.snapshotCount as real, f.fstabEntries as real ]
  }

  const FORMATS := ["vmdk", "vhd", "vhdx", "ova", "raw", "qcow2"]
  const FAMILIES := ["linux", "windows", "freebsd"]
  const CONTROLLERS := ["lsilogic", "buslogic", "pvscsi", "ide", "sata"]

  /** A known name is coded by its place in the list, an unknown one by the length of it. */
  predicate CodedBy(s: string, names: seq<string>, code: real)
  {
    && (forall i | 0 <= i < |names| && s == names[i] :: code == i as real)
    && (s !in names ==> code == |names| as real)
  }

  lemma FormatsAreCoded(s: string)
    ensures CodedBy(s, FORMATS, FormatCode(s))
  {
    assert |"vmdk"| == 4 && |"vhd"| == 3 && |"vhdx"| == 4 && |"ova"| == 3 && |"raw"| == 3 && |"qcow2"| == 5;
    assert "vmdk"[1] == 'm' && "vhdx"[1] == 'h' && "vhd"[0] == 'v' && "ova"[0] == 'o' && "raw"[0] == 'r';
  }

  lemma FamiliesAreCoded(s: string)
    ensures CodedBy(s, FAMILIES, FamilyCode(s))
  {
    assert |"linux"| == 5 && |"windows"| == 7 && |"freebsd"| == 7 && "windows"[0] == 'w' && "freebsd"[0] == 'f';
  }

  lemma ControllersAreCoded(s: string)
    ensures CodedBy(s, CONTROLLERS, ControllerCode(s))
  {
    assert |"lsilogic"| == 8 && |"buslogic"| == 8 && |"pvscsi"| == 6 && |"ide"| == 3 && |"sata"| == 4;
    assert "lsilogic"[0] == 'l' && "buslogic"[0] == 'b';
  }

  /** The same name, or two unknown ones. */
  predicate SameCode(s: string, t: string, names: seq<string>)
  {
    s == t || (s !in names && t !in names)
  }

  lemma {:induction false} SameCodeExactly(s: string, t: string, names: seq<string>, x: real, y: real)
    requires CodedBy(s, names, x) && CodedBy(t, names, y)
    requires forall i, j | 0 <= i < j < |names| :: names[i] != names[j]
    ensures x == y <==> SameCode(s, t, names)
  {
    if s in names {
      var i :| 0 <= i < |names| && names[i] == s;
      if t in names { var j :| 0 <= j < |names| && names[j] == t; }
    } else if t in names {
      var j :| 0 <= j < |names| && names[j] == t;
    }
  }

  lemma NamesDiffer()
    ensures forall i, j | 0 <= i < j < |FORMATS| :: FORMATS[i] != FORMATS[j]
    ensures forall i, j | 0 <= i < j < |FAMILIES| :: FAMILIES[i] != FAMILIES[j]
    ensures forall i, j | 0 <= i < j < |CONTROLLERS| :: CONTROLLERS[i] != CONTROLLERS[j]
  {
    assert |"vmdk"| == 4 && |"vhd"| == 3 && |"vhdx"| == 4 && |"ova"| == 3 && |"raw"| == 3 && |"qcow2"| == 5;
    assert "vmdk"[1] == 'm' && "vhdx"[1] == 'h' && "vhd"[0] == 'v' && "ova"[0] == 'o' && "raw"[0] == 'r';
    assert |"linux"| == 5 && |"windows"| == 7 && |"freebsd"| == 7 && "windows"[0] == 'w' && "freebsd"[0] == 'f';
    assert |"lsilogic"| == 8 && |"buslogic"| == 8 && |"pvscsi"| == 6 && |"ide"| == 3 && |"sata"| == 4;
    assert "lsilogic"[0] == 'l' && "buslogic"[0] == 'b';
  }

  /** The vector tells two sets of features apart exactly when a number or a flag differs,
      or a name does and one of the two is known. */
  lemma VectorsAgreeExactly(f: Features, g: Features)
    ensures ToVector(f) == ToVector(g) <==>
            && SameCode(f.sourceFormat, g.sourceFormat, FORMATS)
            && SameCode(f.osFamily, g.osFamily, FAMILIES)
            && SameCode(f.controllerType, g.controllerType, CONTROLLERS)
            && f.diskSizeGb == g.diskSizeGb && f.diskCount == g.diskCount
            && f.hasLvm == g.hasLvm && f.hasLuks == g.hasLuks && f.hasUefi == g.hasUefi
            && f.hasSnapshots == g.hasSnapshots && f.snapshotCount == g.snapshotCount
            && f.fstabEntries == g.fstabEntries
  {
    NamesDiffer();
    FormatsAreCoded(f.sourceFormat);
    FormatsAreCoded(g.sourceFormat);
    FamiliesAreCoded(f.osFamily);
    FamiliesAreCoded(g.osFamily);
    ControllersAreCoded(f.controllerType);
    ControllersAreCoded(g.controllerType);
    hide FormatCode, FamilyCode, ControllerCode, CodedBy, SameCode;
    SameCodeExactly(f.sourceFormat, g.sourceFormat, FORMATS, FormatCode(f.sourceFormat), FormatCode(g.sourceFormat));
    SameCodeExactly(f.osFamily, g.osFamily, FAMILIES, FamilyCode(f.osFamily), FamilyCode(g.osFamily));
    SameCodeExactly(f.controllerType, g.controllerType, CONTROLLERS,
                    ControllerCode(f.controllerType), ControllerCode(g.controllerType));
    VectorByParts(f, g);
  }

  lemma VectorByParts(f: Features, g: Features)
    ensures ToVector(f) == ToVector(g) <==>
            && FormatCode(f.sourceFormat) == FormatCode(g.sourceFormat)
            && FamilyCode(f.osFamily) == FamilyCode(g.osFamily)
            && ControllerCode(f.controllerType) == ControllerCode(g.controllerType)
            && f.diskSizeGb == g.diskSizeGb && f.diskCount == g.diskCount
            && f.hasLvm == g.hasLvm && f.hasLuks == g.hasLuks && f.hasUefi == g.hasUefi
            && f.hasSnapshots == g.hasSnapshots && f.snapshotCount == g.snapshotCount
            && f.fstabEntries == g.fstabEntries
  {
    hide FormatCode, FamilyCode, ControllerCode;
    var v, w := ToVector(f), ToVector(g);
    assert v == w <==> forall i | 0 <= i < 11 :: v[i] == w[i];
    assert v == w ==> v[0] == w[0] && v[1] == w[1] && v[2] == w[2] && v[3] == w[3] && v[4] == w[4] && v[5] == w[5];
    assert v == w ==> v[6] == w[6] && v[7] == w[7] && v[8] == w[8] && v[9] == w[9] && v[10] == w[10];
  }

  /** Sizes and counts that are not negative. */
  predicate Physical(f: Features)
  {
    f.diskSizeGb >= 0.0 && f.diskCount >= 0 && f.snapshotCount >= 0 && f.fstabEntries >= 0
  }

  // ----- similar migrations

  datatype Scored = Scored(rec: Record, sim: real)

  predicate Descending(s: seq<Scored>)
  {
    forall i, j | 0 <= i < j < |s| :: s[i].sim >= s[j].sim
  }

  function Insert(x: Scored, s: seq<Scored>): seq<Scored>
  {
    if s == [] || x.sim >= s[0].sim then [x] + s else [s[0]] + Insert(x, s[1..])
  }

  /** `sort(key=sim, reverse=True)`: descending, ties in their original order. */
  function SortDescending(s: seq<Scored>): seq<Scored>
  {
    if s == [] then [] else Insert(s[0], SortDescending(s[1..]))
  }

  lemma {:induction false} InsertPermutes(x: Scored, s: seq<Scored>)
    ensures multiset(Insert(x, s)) == multiset{x} + multiset(s)
  {
    if s != [] && x.sim < s[0].sim {
      InsertPermutes(x, s[1..]);
      assert s == [s[0]] + s[1..];
    }
  }

  lemma {:induction false} InsertSorts(x: Scored, s: seq<Scored>, top: real)
    requires Descending(s) && x.sim <= top && forall i | 0 <= i < |s| :: s[i].sim <= top
    ensures Descending(Insert(x, s))
    ensures forall i | 0 <= i < |Insert(x, s)| :: Insert(x, s)[i].sim <= top
  {
    if s != [] && x.sim < s[0].sim { InsertSorts(x, s[1..], s[0].sim); }
  }

  lemma {:induction false} SortIsPermutation(s: seq<Scored>)
    ensures Descending(SortDescending(s))
    ensures multiset(SortDescending(s)) == multiset(s)
  {
    if s != [] {
      hide Insert;
      var rest := SortDescending(s[1..]);
      SortIsPermutation(s[1..]);
      InsertPermutes(s[0], rest);
      InsertSorts(s[0], rest, if rest != [] && rest[0].sim > s[0].sim then rest[0].sim else s[0].sim);
      assert s == [s[0]] + s[1..];
    }
  }

  /** The entries of one similarity, in order. */
  function WithSim(s: seq<Scored>, v: real): seq<Scored>
  {
    if s == [] then [] else (if s[0].sim == v then [s[0]] else []) + WithSim(s[1..], v)
  }

  lemma {:induction false} InsertIsStable(x: Scored, s: seq<Scored>, v: real)
    requires Descending(s)
    ensures WithSim(Insert(x, s), v) == (if x.sim == v then [x] else []) + WithSim(s, v)
  {
    hide WithSim;
    if s != [] && x.sim < s[0].sim {
      InsertIsStable(x, s[1..], v);
      WithSimCons(s[0], Insert(x, s[1..]), v);
      WithSimCons(s[0], s[1..], v);
      assert s == [s[0]] + s[1..];
      NoneAbove(s, x.sim, v);
    } else {
      WithSimCons(x, s, v);
    }
  }

  lemma NoneAbove(s: seq<Scored>, bound: real, v: real)
    requires s != [] && bound < s[0].sim
    ensures bound == v ==> s[0].sim != v
  {
  }

  lemma WithSimCons(x: Scored, s: seq<Scored>, v: real)
    ensures WithSim([x] + s, v) == (if x.sim == v then [x] else []) + WithSim(s, v)
  {
    assert ([x] + s)[1..] == s;
  }

  /** The sort is stable: equally similar records stay in the order they were read, newest
      first. */
  lemma {:induction false} SortIsStable(s: seq<Scored>, v: real)
    ensures WithSim(SortDescending(s), v) == WithSim(s, v)
  {
    if s != [] {
      SortIsStable(s[1..], v);
      SortIsPermutation(s[1..]);
      InsertIsStable(s[0], SortDescending(s[1..]), v);
    }
  }

  function ScoreAll(f: Features, records: seq<Record>, sqrt: real -> real): (r: seq<Scored>)
    ensures |r| == |records|
    ensures forall i | 0 <= i < |records| ::
              r[i] == Scored(records[i], CosineSimilarity(ToVector(f), ToVector(records[i].features), sqrt))
  {
    seq(|records|, i requires 0 <= i < |records| =>
      Scored(records[i], CosineSimilarity(ToVector(f), ToVector(records[i].features), sqrt)))
  }

  method ScoreLoop(f: Features, records: seq<Record>, sqrt: real -> real) returns (scored: seq<Scored>)
    ensures scored == ScoreAll(f, records, sqrt)
  {
    hide ToVector, CosineSimilarity;
    var target := ToVector(f);
    scored := [];
    for i := 0 to |records|
      invariant |scored| == i
      invariant forall j | 0 <= j < i :: scored[j] == ScoreAll(f, records, sqrt)[j]
    {
      var sim := CosineSimilarity(target, ToVector(records[i].features), sqrt);
      scored := scored + [Scored(records[i], sim)];
    }
  }

  /** `kept` are best-first, and with `dropped` they are the given list reordered;
      nothing dropped scores above anything kept. */
  ghost predicate IsTop(kept: seq<Scored>, dropped: seq<Scored>, scored: seq<Scored>)
  {
    && Descending(kept)
    && multiset(kept + dropped) == multiset(scored)
    && forall i, j | 0 <= i < |kept| && 0 <= j < |dropped| :: kept[i].sim >= dropped[j].sim
  }

  /** `get_similar_migrations` over the records read from the knowledge base. */
  method GetSimilarMigrations(f: Features, records: seq<Record>, topK: nat, sqrt: real -> real)
    returns (similar: seq<Scored>)
    ensures |similar| == if topK < |records| then topK else |records|
    ensures exists dropped :: IsTop(similar, dropped, ScoreAll(f, records, sqrt))
    ensures topK >= |records| ==> multiset(similar) == multiset(ScoreAll(f, records, sqrt))
    ensures forall v :: WithSim(similar, v) <= WithSim(ScoreAll(f, records, sqrt), v)
  {
    hide ToVector, CosineSimilarity, SortDescending;
    var scored := ScoreLoop(f, records, sqrt);
    SortIsPermutation(scored);
    var sorted := SortDescending(scored);
    assert |sorted| == |multiset(sorted)| == |multiset(scored)| == |records|;
    var k := if topK < |sorted| then topK else |sorted|;
    similar := sorted[..k];
    assert similar + sorted[k..] == sorted;
    assert IsTop(similar, sorted[k..], scored);
    forall v ensures WithSim(similar, v) <= WithSim(scored, v) {
      SortIsStable(scored, v);
      WithSimAppend(similar, sorted[k..], v);
    }
  }

  lemma {:induction false} WithSimAppend(a: seq<Scored>, b: seq<Scored>, v: real)
    ensures WithSim(a + b, v) == WithSim(a, v) + WithSim(b, v)
  {
    if a == [] {
      assert a + b == b;
    } else {
      WithSimAppend(a[1..], b, v);
      WithSimCons(a[0], a[1..], v);
      WithSimCons(a[0], a[1..] + b, v);
      assert a == [a[0]] + a[1..];
      assert a + b == [a[0]] + (a[1..] + b);
      hide WithSim;
    }
  }

  // ----- sums over a list do not depend on its order

  function Total(s: seq<Scored>, f: Scored -> real): real
  {
    if s == [] then 0.0 else f(s[0]) + Total(s[1..], f)
  }

  lemma {:induction false} TotalSplit(s: seq<Scored>, i: nat, f: Scored -> real)
    requires i < |s|
    ensures Total(s, f) == f(s[i]) + Total(s[..i] + s[i + 1..], f)
  {
    var rest := s[..i] + s[i + 1..];
    if i == 0 {
      assert rest == s[1..];
    } else {
      assert rest[0] == s[0] && rest[1..] == s[1..][..i - 1] + s[1..][i..];
      TotalSplit(s[1..], i - 1, f);
    }
  }

  lemma WithoutOne(s: seq<Scored>, i: nat)
    requires i < |s|
    ensures multiset(s[..i] + s[i + 1..]) == multiset(s) - multiset{s[i]}
  {
    assert s == s[..i] + [s[i]] + s[i + 1..];
    assert multiset(s) == multiset(s[..i]) + multiset{s[i]} + multiset(s[i + 1..]);
  }

  /** Two lists of the same elements: without the first's head they still are. */
  lemma SameHead(s: seq<Scored>, t: seq<Scored>) returns (i: nat)
    requires s != [] && multiset(s) == multiset(t)
    ensures i < |t| && t[i] == s[0] && multiset(s[1..]) == multiset(t[..i] + t[i + 1..])
  {
    assert s[0] in multiset(t);
    i :| 0 <= i < |t| && t[i] == s[0];
    WithoutOne(s, 0);
    assert s[..0] + s[1..] == s[1..];
    WithoutOne(t, i);
  }

  lemma {:induction false} TotalIgnoresOrder(s: seq<Scored>, t: seq<Scored>, f: Scored -> real)
    requires multiset(s) == multiset(t)
    ensures Total(s, f) == Total(t, f)
    decreases |s|
  {
    if s == [] {
      assert multiset(t) == multiset{} && |multiset(t)| == |t|;
    } else {
      var i := SameHead(s, t);
      TotalIgnoresOrder(s[1..], t[..i] + t[i + 1..], f);
      TotalSplit(t, i, f);
    }
  }

  // ----- the success estimate

  function Outcomes(s: seq<Scored>): (r: seq<real>)
    ensures |r| == |s| && forall i | 0 <= i < |s| :: r[i] == Flag(s[i].rec.success)
  {
    seq(|s|, i requires 0 <= i < |s| => Flag(s[i].rec.success))
  }

  function Weights(s: seq<Scored>): (r: seq<real>)
    ensures |r| == |s| && forall i | 0 <= i < |s| :: r[i] == s[i].sim
  {
    seq(|s|, i requires 0 <= i < |s| => s[i].sim)
  }

  datatype RiskLevel = Low | Medium | High | Critical

  /** The levels of the rules that fire, in rule order. */
  function Risks(f: Features): seq<RiskLevel>
  {
    (if f.controllerType == "buslogic" then [Critical] else [])
    + (if f.hasSnapshots then [High] else [])
    + (if f.snapshotCount > 3 then [High] else [])
    + (if f.hasLuks then [Medium] else [])
    + (if f.hasUefi then [Medium] else [])
    + (if f.diskSizeGb > 500.0 then [Medium] else [])
    + (if f.diskCount > 4 then [Low] else [])
    + (if f.fstabEntries == 0 then [Low] else [])
    + (if f.osFamily == "windows" then [Medium] else [])
  }

  function PenaltyOf(l: RiskLevel): real
  {
    match l
    case Critical => 0.5
    case High => 0.8
    case Medium => 0.95
    case Low => 1.0
  }

  function Penalized(p: real, risks: seq<RiskLevel>): real
    decreases |risks|
  {
    if risks == [] then p else Penalized(p * PenaltyOf(risks[0]), risks[1..])
  }

  function Base(similar: seq<Scored>, minHistory: int): real
  {
    if |similar| >= minHistory then WeightedMean(Outcomes(similar), Weights(similar)) else 1.0
  }

  function Clamp(v: real): real
  {
    if v > 1.0 then 1.0 else if v < 0.0 then 0.0 else v
  }

  lemma {:induction false} PenalizedBounds(p: real, risks: seq<RiskLevel>)
    requires 0.0 <= p <= 1.0
    ensures 0.0 <= Penalized(p, risks) <= p
    decreases |risks|
  {
    if risks != [] { PenalizedBounds(p * PenaltyOf(risks[0]), risks[1..]); }
  }

  predicate NonNegative(s: seq<Scored>)
  {
    forall i | 0 <= i < |s| :: s[i].sim >= 0.0
  }

  lemma BaseBounds(similar: seq<Scored>, minHistory: int)
    requires NonNegative(similar)
    ensures 0.0 <= Base(similar, minHistory) <= 1.0
  {
    hide WeightedMean;
    if |similar| >= minHistory && similar != [] {
      WeightedMeanBetween(Outcomes(similar), Weights(similar), 0.0, 1.0);
    } else if |similar| >= minHistory {
      EmptyWeightedMean(Outcomes(similar), Weights(similar));
    }
  }

  lemma EmptyWeightedMean(values: seq<real>, weights: seq<real>)
    requires values == []
    ensures WeightedMean(values, weights) == 0.0
  {
  }

  // ----- the estimate, from the records alone

  /** Similarity in all, and of the records that succeeded. */
  function SimTotal(s: seq<Scored>): real
  {
    if s == [] then 0.0 else s[0].sim + SimTotal(s[1..])
  }

  function SuccessSim(s: seq<Scored>): real
  {
    if s == [] then 0.0 else (if s[0].rec.success then s[0].sim else 0.0) + SuccessSim(s[1..])
  }

  function Successes(s: seq<Scored>): nat
  {
    if s == [] then 0 else (if s[0].rec.success then 1 else 0) + Successes(s[1..])
  }

  lemma {:induction false} SumsOfRecords(s: seq<Scored>)
    ensures Sum(Weights(s)) == SimTotal(s)
    ensures Dot(Outcomes(s), Weights(s)) == SuccessSim(s)
    ensures Sum(Outcomes(s)) == Successes(s) as real
  {
    if s != [] {
      assert Outcomes(s)[1..] == Outcomes(s[1..]) && Weights(s)[1..] == Weights(s[1..]);
      SumsOfRecords(s[1..]);
    }
  }

  /** What the estimate is before penalties: with enough history the share of similarity
      that succeeded; the share of records, if there is no similarity at all; else 1. */
  ghost predicate IsEstimate(p: real, s: seq<Scored>, minHistory: int)
  {
    && (|s| < minHistory ==> p == 1.0)
    && (|s| >= minHistory && s == [] ==> p == 0.0)
    && (|s| >= minHistory && SimTotal(s) != 0.0 ==> p * SimTotal(s) == SuccessSim(s))
    && (|s| >= minHistory && SimTotal(s) == 0.0 ==> p * |s| as real == Successes(s) as real)
  }

  lemma BaseIsEstimate(s: seq<Scored>, minHistory: int)
    ensures IsEstimate(Base(s, minHistory), s, minHistory)
  {
    SumsOfRecords(s);
    var values, weights := Outcomes(s), Weights(s);
    var p := Base(s, minHistory);
    hide Outcomes, Weights, Sum, Dot, SimTotal, SuccessSim, Successes;
    if |s| >= minHistory {
      if SimTotal(s) != 0.0 {
        EmptyTotal(s);
        Quotient(SuccessSim(s), SimTotal(s));
      } else if s != [] {
        Quotient(Successes(s) as real, |s| as real);
      } else {
        EmptySuccesses();
      }
    }
  }

  lemma EmptySuccesses()
    ensures Successes([]) == 0
  {
  }

  lemma EmptyTotal(s: seq<Scored>)
    ensures s == [] ==> SimTotal(s) == 0.0
  {
  }

  lemma {:induction false} ExtremesOfRecords(s: seq<Scored>)
    ensures (forall i | 0 <= i < |s| :: s[i].rec.success) ==> SuccessSim(s) == SimTotal(s)
    ensures (forall i | 0 <= i < |s| :: !s[i].rec.success) ==> SuccessSim(s) == 0.0
  {
    if s != [] {
      ExtremesOfRecords(s[1..]);
      assert forall i | 0 < i < |s| :: s[i] == s[1..][i - 1];
    }
  }

  lemma UniqueFactor(p: real, q: real, k: real)
    requires k > 0.0 && p * k == q * k
    ensures p == q
  {
    Cancel(p, q, k);
    Cancel(q, p, k);
  }

  /** All succeeded: 1. All failed: 0. */
  lemma UnanimousHistory(s: seq<Scored>, minHistory: int)
    requires |s| >= minHistory && SimTotal(s) > 0.0
    ensures (forall i | 0 <= i < |s| :: s[i].rec.success) ==> Base(s, minHistory) == 1.0
    ensures (forall i | 0 <= i < |s| :: !s[i].rec.success) ==> Base(s, minHistory) == 0.0
  {
    BaseIsEstimate(s, minHistory);
    ExtremesOfRecords(s);
    hide Base, SimTotal, SuccessSim;
    if forall i | 0 <= i < |s| :: s[i].rec.success { UniqueFactor(Base(s, minHistory), 1.0, SimTotal(s)); }
    if forall i | 0 <= i < |s| :: !s[i].rec.success { UniqueFactor(Base(s, minHistory), 0.0, SimTotal(s)); }
  }

  function Succeeding(x: Scored): Scored
  {
    x.(rec := x.rec.(success := true))
  }

  lemma {:induction false} OneMoreSuccess(s: seq<Scored>, i: nat)
    requires i < |s| && !s[i].rec.success
    ensures SimTotal(s[i := Succeeding(s[i])]) == SimTotal(s)
    ensures SuccessSim(s[i := Succeeding(s[i])]) == SuccessSim(s) + s[i].sim
  {
    var t := s[i := Succeeding(s[i])];
    if i == 0 {
      assert t[1..] == s[1..];
    } else {
      assert t[1..] == s[1..][i - 1 := Succeeding(s[i])];
      OneMoreSuccess(s[1..], i - 1);
    }
  }

  lemma BiggerShare(p: real, q: real, k: real, x: real, y: real)
    requires k > 0.0 && p * k == x && q * k == y && x < y
    ensures p < q
  {
    if p >= q { TimesMonotone(q, p, k); }
  }

  lemma EstimateShare(s: seq<Scored>, p: real, minHistory: int)
    requires IsEstimate(p, s, minHistory) && |s| >= minHistory && SimTotal(s) > 0.0
    ensures p * SimTotal(s) == SuccessSim(s)
  {
  }

  /** The estimate rises with success: one similar failure turned into a success raises it. */
  lemma SuccessRaisesEstimate(s: seq<Scored>, i: nat, minHistory: int)
    requires |s| >= minHistory && SimTotal(s) > 0.0
    requires i < |s| && !s[i].rec.success && s[i].sim > 0.0
    ensures Base(s, minHistory) < Base(s[i := Succeeding(s[i])], minHistory)
  {
    hide Base, SimTotal, SuccessSim, IsEstimate, Succeeding;
    var t := s[i := Succeeding(s[i])];
    BaseIsEstimate(s, minHistory);
    BaseIsEstimate(t, minHistory);
    OneMoreSuccess(s, i);
    EstimateShare(s, Base(s, minHistory), minHistory);
    EstimateShare(t, Base(t, minHistory), minHistory);
    BiggerShare(Base(s, minHistory), Base(t, minHistory), SimTotal(s), SuccessSim(s), SuccessSim(t));
  }

  // ----- the penalties

  function Power(b: real, n: nat): real
  {
    if n == 0 then 1.0 else b * Power(b, n - 1)
  }

  function CountOf(risks: seq<RiskLevel>, l: RiskLevel): nat
  {
    if risks == [] then 0 else (if risks[0] == l then 1 else 0) + CountOf(risks[1..], l)
  }

  /** A half for each critical risk, four fifths for each high one, 0.95 for each medium one. */
  function Discount(critical: nat, high: nat, medium: nat): real
  {
    Power(0.5, critical) * (Power(0.8, high) * Power(0.95, medium))
  }

  lemma DiscountSteps(c: nat, h: nat, m: nat)
    ensures Discount(c + 1, h, m) == 0.5 * Discount(c, h, m)
    ensures Discount(c, h + 1, m) == 0.8 * Discount(c, h, m)
    ensures Discount(c, h, m + 1) == 0.95 * Discount(c, h, m)
    ensures Discount(0, 0, 0) == 1.0
  {
    var a, b, d := Power(0.5, c), Power(0.8, h), Power(0.95, m);
    assert Power(0.5, c + 1) == 0.5 * a && Power(0.8, h + 1) == 0.8 * b && Power(0.95, m + 1) == 0.95 * d;
  }

  /** The penalties of the levels that occur, whatever their order; low risks cost nothing. */
  lemma {:induction false} PenaltiesExactly(p: real, risks: seq<RiskLevel>)
    ensures Penalized(p, risks) == p * Discount(CountOf(risks, Critical), CountOf(risks, High), CountOf(risks,
                                                Medium))
    decreases |risks|
  {
    hide Discount, CountOf, PenaltyOf;
    if risks == [] {
      NoCount(Critical);
      NoCount(High);
      NoCount(Medium);
      DiscountSteps(0, 0, 0);
    } else {
      var rest := risks[1..];
      PenaltiesExactly(p * PenaltyOf(risks[0]), rest);
      var d := Discount(CountOf(rest, Critical), CountOf(rest, High), CountOf(rest, Medium));
      DiscountFirst(risks, d);
      Reorder(p, PenaltyOf(risks[0]), d);
      hide Penalized;
    }
  }

  lemma DiscountFirst(risks: seq<RiskLevel>, d: real)
    requires risks != []
    requires var rest := risks[1..]; d == Discount(CountOf(rest, Critical), CountOf(rest, High), CountOf(rest,
                                                   Medium))
    ensures Discount(CountOf(risks, Critical), CountOf(risks, High), CountOf(risks,
                     Medium)) == PenaltyOf(risks[0]) * d
  {
    hide Discount;
    var rest := risks[1..];
    DiscountSteps(CountOf(rest, Critical), CountOf(rest, High), CountOf(rest, Medium));
  }

  lemma Reorder(p: real, q: real, d: real)
    ensures (p * q) * d == p * (q * d)
  {
  }

  /** The rules, by how many of each level fire. */
  lemma RiskCounts(f: Features)
    ensures CountOf(Risks(f), Critical) == if f.controllerType == "buslogic" then 1 else 0
    ensures CountOf(Risks(f), High) == (if f.hasSnapshots then 1 else 0) + if f.snapshotCount > 3 then 1 else 0
    ensures CountOf(Risks(f), Medium) ==
            (if f.hasLuks then 1 else 0) + (if f.hasUefi then 1 else 0) +
            (if f.diskSizeGb > 500.0 then 1 else 0) + if f.osFamily == "windows" then 1 else 0
    ensures CountOf(Risks(f), Low) == (if f.diskCount > 4 then 1 else 0) + if f.fstabEntries == 0 then 1 else 0
  {
    RiskCount(f, Critical);
    RiskCount(f, High);
    RiskCount(f, Medium);
    RiskCount(f, Low);
    hide CountOf, Risks;
  }

  function Fires(fires: bool, level: RiskLevel, l: RiskLevel): nat
  {
    if fires && l == level then 1 else 0
  }

  lemma RiskCount(f: Features, l: RiskLevel)
    ensures CountOf(Risks(f), l) ==
            Fires(f.controllerType == "buslogic", Critical, l) + Fires(f.hasSnapshots, High, l) +
            Fires(f.snapshotCount > 3, High, l) + Fires(f.hasLuks, Medium, l) + Fires(f.hasUefi, Medium, l) +
            Fires(f.diskSizeGb > 500.0, Medium, l) + Fires(f.diskCount > 4, Low, l) +
            Fires(f.fstabEntries == 0, Low, l) + Fires(f.osFamily == "windows", Medium, l)
  {
    var b1, b9 := f.controllerType == "buslogic", f.osFamily == "windows";
    assert Risks(f) == RisksFrom(b1, f.hasSnapshots, f.snapshotCount > 3, f.hasLuks, f.hasUefi,
                                 f.diskSizeGb > 500.0, f.diskCount > 4, f.fstabEntries == 0, b9);
    CountRisks(b1, f.hasSnapshots, f.snapshotCount > 3, f.hasLuks, f.hasUefi,
               f.diskSizeGb > 500.0, f.diskCount > 4, f.fstabEntries == 0, b9, l);
    hide Risks, RisksFrom, CountOf, Fires;
  }

  function Rule(fires: bool, level: RiskLevel): seq<RiskLevel>
  {
    if fires then [level] else []
  }

  /** The findings of the nine rules, by which of them fire. */
  function RisksFrom(b1: bool, b2: bool, b3: bool, b4: bool, b5: bool, b6: bool, b7: bool, b8: bool,
                     b9: bool): seq<RiskLevel>
  {
    Rule(b1, Critical) + Rule(b2, High) + Rule(b3, High) + Rule(b4, Medium) + Rule(b5, Medium) +
    Rule(b6, Medium) + Rule(b7, Low) + Rule(b8, Low) + Rule(b9, Medium)
  }

  lemma CountRisks(b1: bool, b2: bool, b3: bool, b4: bool, b5: bool, b6: bool, b7: bool, b8: bool, b9: bool,
                   l: RiskLevel)
    ensures CountOf(RisksFrom(b1, b2, b3, b4, b5, b6, b7, b8, b9), l) ==
            Fires(b1, Critical, l) + Fires(b2, High, l) + Fires(b3, High, l) + Fires(b4, Medium, l) +
            Fires(b5, Medium, l) + Fires(b6, Medium, l) + Fires(b7, Low, l) + Fires(b8, Low, l) + Fires(b9, Medium, l)
  {
    hide CountOf, Fires, Rule;
    var r1 := Rule(b1, Critical);
    var r3 := r1 + Rule(b2, High) + Rule(b3, High);
    var r6 := r3 + Rule(b4, Medium) + Rule(b5, Medium) + Rule(b6, Medium);
    CountRule([], b1, Critical, l);
    assert [] + r1 == r1;
    NoCount(l);
    CountRule(r1, b2, High, l);
    CountRule(r1 + Rule(b2, High), b3, High, l);
    CountRule(r3, b4, Medium, l);
    CountRule(r3 + Rule(b4, Medium), b5, Medium, l);
    CountRule(r3 + Rule(b4, Medium) + Rule(b5, Medium), b6, Medium, l);
    CountRule(r6, b7, Low, l);
    CountRule(r6 + Rule(b7, Low), b8, Low, l);
    CountRule(r6 + Rule(b7, Low) + Rule(b8, Low), b9, Medium, l);
  }

  lemma NoCount(l: RiskLevel)
    ensures CountOf([], l) == 0
  {
  }

  lemma {:induction false} CountRule(risks: seq<RiskLevel>, fires: bool, level: RiskLevel, l: RiskLevel)
    ensures CountOf(risks + Rule(fires, level), l) == CountOf(risks, l) + Fires(fires, level, l)
  {
    var added := Rule(fires, level);
    if risks == [] {
      assert risks + added == added && (added != [] ==> added[1..] == []);
    } else {
      assert (risks + added)[1..] == risks[1..] + added;
      CountRule(risks[1..], fires, level, l);
    }
  }

  /** The success part of `predict`. With similarities that are not negative the clamp
      changes nothing: the penalised estimate is already a probability, and no penalty
      raises it. */
  method PredictSuccess(similar: seq<Scored>, minHistory: int, risks: seq<RiskLevel>) returns (prob: real)
    ensures prob == Clamp(Penalized(Base(similar, minHistory), risks))
    ensures 0.0 <= prob <= 1.0
    ensures Penalized(Base(similar, minHistory), risks) < 0.0 ==> prob == 0.0
    ensures Penalized(Base(similar, minHistory), risks) > 1.0 ==> prob == 1.0
    ensures NonNegative(similar) && risks == [] ==> IsEstimate(prob, similar, minHistory)
    ensures NonNegative(similar) ==>
              exists p :: IsEstimate(p, similar, minHistory) &&
                prob == p * Discount(CountOf(risks, Critical), CountOf(risks, High), CountOf(risks, Medium))
    ensures NonNegative(similar) ==>
              prob == Penalized(Base(similar, minHistory), risks) && 0.0 <= prob <= Base(similar, minHistory) <= 1.0
  {
    if |similar| >= minHistory {
      prob := WeightedMean(Outcomes(similar), Weights(similar));
    } else {
      prob := 1.0;
    }
    assert prob == Base(similar, minHistory);
    hide Base, WeightedMean, Penalized, IsEstimate, Discount, CountOf;
    assert risks[0..] == risks;
    for i := 0 to |risks|
      invariant Penalized(prob, risks[i..]) == Penalized(Base(similar, minHistory), risks)
    {
      PenaltyStep(prob, risks, i);
      prob := prob * PenaltyOf(risks[i]);
    }
    PenaltyStep(prob, risks, |risks|);
    if NonNegative(similar) { PenalizedEstimate(similar, minHistory, risks); }
    prob := Clamp(prob);
  }

  lemma PenaltyStep(p: real, risks: seq<RiskLevel>, i: nat)
    requires i <= |risks|
    ensures i == |risks| ==> Penalized(p, risks[i..]) == p
    ensures i < |risks| ==> Penalized(p, risks[i..]) == Penalized(p * PenaltyOf(risks[i]), risks[i + 1..])
  {
    if i < |risks| { assert risks[i..][0] == risks[i] && risks[i..][1..] == risks[i + 1..]; }
  }

  lemma PenalizedEstimate(similar: seq<Scored>, minHistory: int, risks: seq<RiskLevel>)
    requires NonNegative(similar)
    ensures var e := Penalized(Base(similar, minHistory), risks);
            && 0.0 <= e <= Base(similar, minHistory) <= 1.0
            && (risks == [] ==> IsEstimate(e, similar, minHistory))
            && exists p :: IsEstimate(p, similar, minHistory) &&
                 e == p * Discount(CountOf(risks, Critical), CountOf(risks, High), CountOf(risks, Medium))
  {
    hide Base, Discount, CountOf, IsEstimate;
    BaseBounds(similar, minHistory);
    PenalizedBounds(Base(similar, minHistory), risks);
    BaseIsEstimate(similar, minHistory);
    PenaltiesExactly(Base(similar, minHistory), risks);
  }

  lemma VectorIsNonNegative(f: Features)
    requires Physical(f)
    ensures forall i | 0 <= i < |ToVector(f)| :: ToVector(f)[i] >= 0.0
  {
  }

  /** Similarities of physical features are in [0, 1], so the estimate they give is a
      probability without clamping. */
  lemma PhysicalSimilarities(f: Features, r: Record, sqrt: real -> real)
    requires Physical(f) && Physical(r.features)
    requires var a, b := ToVector(f), ToVector(r.features);
             IsSqrt(sqrt(Dot(a, a)), Dot(a, a)) && IsSqrt(sqrt(Dot(b, b)), Dot(b, b))
    ensures 0.0 <= CosineSimilarity(ToVector(f), ToVector(r.features), sqrt) <= 1.0
  {
    hide CosineSimilarity, Dot;
    VectorIsNonNegative(f);
    VectorIsNonNegative(r.features);
    CosineBounds(ToVector(f), ToVector(r.features), sqrt);
  }

  function OutcomeOf(x: Scored): real
  {
    Flag(x.rec.success)
  }

  function SimOf(x: Scored): real
  {
    x.sim
  }

  function WeightedOutcomeOf(x: Scored): real
  {
    Flag(x.rec.success) * x.sim
  }

  lemma {:induction false} SumOutcomes(s: seq<Scored>)
    ensures Sum(Outcomes(s)) == Total(s, OutcomeOf)
  {
    if s != [] {
      assert Outcomes(s)[1..] == Outcomes(s[1..]);
      SumOutcomes(s[1..]);
    }
  }

  lemma {:induction false} SumWeights(s: seq<Scored>)
    ensures Sum(Weights(s)) == Total(s, SimOf)
  {
    if s != [] {
      assert Weights(s)[1..] == Weights(s[1..]);
      SumWeights(s[1..]);
    }
  }

  lemma {:induction false} DotOutcomes(s: seq<Scored>)
    ensures Dot(Outcomes(s), Weights(s)) == Total(s, WeightedOutcomeOf)
  {
    if s != [] {
      assert Outcomes(s)[1..] == Outcomes(s[1..]) && Weights(s)[1..] == Weights(s[1..]);
      DotOutcomes(s[1..]);
    }
  }

  /** The estimate does not depend on the order of the similar migrations, so neither
      the sort nor how it breaks ties can change it. */
  lemma EstimateIgnoresOrder(s: seq<Scored>, t: seq<Scored>, minHistory: int)
    requires multiset(s) == multiset(t)
    ensures Base(s, minHistory) == Base(t, minHistory)
  {
    assert |s| == |multiset(s)| == |multiset(t)| == |t|;
    SumOutcomes(s);
    SumOutcomes(t);
    SumWeights(s);
    SumWeights(t);
    DotOutcomes(s);
    DotOutcomes(t);
    TotalIgnoresOrder(s, t, OutcomeOf);
    TotalIgnoresOrder(s, t, SimOf);
    TotalIgnoresOrder(s, t, WeightedOutcomeOf);
  }

  /** End to end, for records that fit the lookback: whatever the sort did, the estimate
      is the one of the unsorted list, lies in [0, 1] after penalties, and is not clamped. */
  lemma PredictionIsAProbability(f: Features, records: seq<Record>, similar: seq<Scored>, minHistory: int,
                                 sqrt: real -> real)
    requires Physical(f) && forall r | r in records :: Physical(r.features)
    requires IsSqrt(sqrt(Dot(ToVector(f), ToVector(f))), Dot(ToVector(f), ToVector(f)))
    requires forall r | r in records ::
               var v := ToVector(r.features); IsSqrt(sqrt(Dot(v, v)), Dot(v, v))
    requires multiset(similar) == multiset(ScoreAll(f, records, sqrt))
    ensures Base(similar, minHistory) == Base(ScoreAll(f, records, sqrt), minHistory)
    ensures var p := Penalized(Base(similar, minHistory), Risks(f)); 0.0 <= p <= 1.0 && Clamp(p) == p
  {
    hide ToVector, CosineSimilarity, Dot, Base, Risks, Penalized;
    var scored := ScoreAll(f, records, sqrt);
    EstimateIgnoresOrder(similar, scored, minHistory);
    forall i | 0 <= i < |similar| ensures similar[i].sim >= 0.0
    {
      assert similar[i] in multiset(scored);
      var j :| 0 <= j < |scored| && scored[j] == similar[i];
      assert records[j] in records;
      PhysicalSimilarities(f, records[j], sqrt);
    }
    BaseBounds(similar, minHistory);
    PenalizedBounds(Base(similar, minHistory), Risks(f));
  }

  // ----- the duration estimate

  predicate Timed(x: Scored)
  {
    x.rec.success && x.rec.duration > 0.0
  }

  function TimedOnly(s: seq<Scored>): seq<Scored>
  {
    if s == [] then [] else (if Timed(s[0]) then [s[0]] else []) + TimedOnly(s[1..])
  }

  function DurationsOf(s: seq<Scored>): (r: seq<real>)
    ensures |r| == |s| && forall i | 0 <= i < |s| :: r[i] == s[i].rec.duration
  {
    seq(|s|, i requires 0 <= i < |s| => s[i].rec.duration)
  }

  function EstimateDuration(f: Features, similar: seq<Scored>): real
  {
    var used := TimedOnly(similar);
    if used != [] then WeightedMean(DurationsOf(used), Weights(used))
    else
      var d := f.diskSizeGb * 60.0 + 30.0;
      if d > 30.0 then d else 30.0
  }

  lemma {:induction false} TimedOnlyKeeps(s: seq<Scored>)
    ensures forall x :: x in TimedOnly(s) <==> x in s && Timed(x)
  {
    if s != [] {
      TimedOnlyKeeps(s[1..]);
      assert s == [s[0]] + s[1..];
    }
  }

  /** Similarity of the runs used for the duration, and their durations weighted with it. */
  function TimedSim(s: seq<Scored>): real
  {
    if s == [] then 0.0 else (if Timed(s[0]) then s[0].sim else 0.0) + TimedSim(s[1..])
  }

  function TimedSum(s: seq<Scored>): real
  {
    if s == [] then 0.0 else (if Timed(s[0]) then s[0].rec.duration * s[0].sim else 0.0) + TimedSum(s[1..])
  }

  function TimedCount(s: seq<Scored>): nat
  {
    if s == [] then 0 else (if Timed(s[0]) then 1 else 0) + TimedCount(s[1..])
  }

  function TimedPlain(s: seq<Scored>): real
  {
    if s == [] then 0.0 else (if Timed(s[0]) then s[0].rec.duration else 0.0) + TimedPlain(s[1..])
  }

  lemma {:induction false} SumsOfTimed(s: seq<Scored>)
    ensures var used := TimedOnly(s);
            && Sum(Weights(used)) == TimedSim(s) && Dot(DurationsOf(used), Weights(used)) == TimedSum(s)
            && |used| == TimedCount(s) && Sum(DurationsOf(used)) == TimedPlain(s)
  {
    if s != [] {
      SumsOfTimed(s[1..]);
      var rest := TimedOnly(s[1..]);
      if Timed(s[0]) {
        var used := TimedOnly(s);
        assert used == [s[0]] + rest && used[1..] == rest;
        assert Weights(used)[1..] == Weights(rest) && DurationsOf(used)[1..] == DurationsOf(rest);
      } else {
        assert TimedOnly(s) == rest;
      }
    }
  }

  /** The duration estimate, from the records alone: the mean of the positive durations of
      the successful similar runs, weighted with their similarity, or the plain mean if
      that is nothing in all; without any, a minute per GB and half a minute, which is
      never below half a minute. */
  lemma DurationExactly(f: Features, s: seq<Scored>)
    ensures var d := EstimateDuration(f, s);
            && (TimedCount(s) > 0 && TimedSim(s) != 0.0 ==> d * TimedSim(s) == TimedSum(s))
            && (TimedCount(s) > 0 && TimedSim(s) == 0.0 ==> d * TimedCount(s) as real == TimedPlain(s))
            && (TimedCount(s) == 0 ==>
                  d >= 30.0 && d >= 60.0 * f.diskSizeGb + 30.0 && (d == 30.0 || d == 60.0 * f.diskSizeGb + 30.0))
  {
    SumsOfTimed(s);
    var used := TimedOnly(s);
    hide TimedOnly, TimedSim, TimedSum, TimedPlain, TimedCount, Sum, Dot;
    if used != [] {
      if TimedSim(s) != 0.0 {
        Quotient(TimedSum(s), TimedSim(s));
      } else {
        Quotient(TimedPlain(s), |used| as real);
      }
    }
  }

  lemma {:induction false} TimedOnlyAppend(a: seq<Scored>, b: seq<Scored>)
    ensures TimedOnly(a + b) == TimedOnly(a) + TimedOnly(b)
  {
    if a == [] {
      assert a + b == b;
    } else {
      assert (a + b)[1..] == a[1..] + b;
      TimedOnlyAppend(a[1..], b);
    }
  }

  /** A similar run that failed, or took no time, plays no part in the duration estimate. */
  lemma UnusableRunsDoNotCount(f: Features, a: seq<Scored>, x: Scored, b: seq<Scored>)
    requires !x.rec.success || x.rec.duration <= 0.0
    ensures EstimateDuration(f, a + [x] + b) == EstimateDuration(f, a + b)
  {
    TimedOnlyAppend(a, [x]);
    TimedOnlyAppend(a + [x], b);
    TimedOnlyAppend(a, b);
    assert [x][1..] == [];
    assert TimedOnly(a + [x] + b) == TimedOnly(a + b);
  }

  /** A single similar run that succeeded in some time is its own estimate. */
  lemma OneRunIsTheEstimate(f: Features, x: Scored)
    requires x.rec.success && x.rec.duration > 0.0
    ensures EstimateDuration(f, [x]) == x.rec.duration
  {
    DurationExactly(f, [x]);
    assert [x][1..] == [];
    assert TimedCount([x]) == 1 && TimedSim([x]) == x.sim && TimedPlain([x]) == x.rec.duration;
    var d, t := EstimateDuration(f, [x]), x.rec.duration;
    assert TimedSum([x]) == t * x.sim;
    hide EstimateDuration;
    if x.sim != 0.0 { QuotientUnique(t * x.sim, x.sim, t); QuotientUnique(t * x.sim, x.sim, d); }
  }

  /** A history-based duration lies between any bounds on the positive durations of the
      successful similar migrations, and exactly then history is used. */
  lemma DurationBetween(f: Features, similar: seq<Scored>, lo: real, hi: real)
    requires NonNegative(similar)
    requires forall x | x in similar && Timed(x) :: lo <= x.rec.duration <= hi
    ensures (exists x :: x in similar && Timed(x)) ==> lo <= EstimateDuration(f, similar) <= hi
    ensures !(exists x :: x in similar && Timed(x)) ==> EstimateDuration(f, similar) >= 30.0
  {
    hide WeightedMean;
    TimedOnlyKeeps(similar);
    var used := TimedOnly(similar);
    if used == [] {
      forall x | x in similar ensures !Timed(x) { assert x !in used; }
    } else {
      assert used[0] in used;
      forall i | 0 <= i < |used| ensures lo <= used[i].rec.duration <= hi && used[i].sim >= 0.0 {
        assert used[i] in used;
      }
      WeightedMeanBetween(DurationsOf(used), Weights(used), lo, hi);
    }
  }
}
