/** The control flow of the snapshot-chain fetch of h2kvm/converters/fetch.py, over the
    graph of resolved remote files. Links may be missing and may form cycles. */
module ChainWalk {

  /** A resolved reference: none, refused by the sandbox, or a remote path. */
  datatype Link = Absent | Barred | To(path: string)

  /** An existing remote file. `broken` means its extent cannot be parsed, `streams` is
      false when copying it fails. A parent that cannot be parsed counts as absent: the
      walk stops there either way. */
  datatype Node = Node(parent: Link, extent: Link, broken: bool, streams: bool)

  type Graph = map<string, Node>

  /** Accesses to the remote host, in order. */
  datatype Access = Probe(path: string) | Stream(path: string)

  datatype Fetched = Fetched(log: seq<Access>, raised: bool)

  // ----- one extent

  function ExtentAccesses(g: Graph, desc: string): Fetched
    requires desc in g
  {
    if g[desc].broken then Fetched([], true)
    else if !g[desc].extent.To? then Fetched([], false)
    else
      var e := g[desc].extent.path;
      if e !in g then Fetched([Probe(e)], false) else Fetched([Probe(e), Stream(e)], !g[e].streams)
  }

  /** `_fetch_extent_for_descriptor` */
  method FetchExtent(g: Graph, desc: string) returns (log: seq<Access>, raised: bool)
    requires desc in g
    ensures Fetched(log, raised) == ExtentAccesses(g, desc)
  {
    log := [];
    if g[desc].broken {
      return log, true;
    }
    if !g[desc].extent.To? {
      return log, false;
    }
    var e := g[desc].extent.path;
    log := log + [Probe(e)];
    if e !in g {
      return log, false;
    }
    log := log + [Stream(e)];
    raised := !g[e].streams;
  }

  // ----- the parent walk

  /** The walk goes on from `desc` to its parent. */
  predicate StepsUp(g: Graph, desc: string, seen: set<string>)
    requires desc in g
  {
    g[desc].parent.To? && g[desc].parent.path !in seen && g[desc].parent.path in g
  }

  /** The descriptor and its extent are copied without an error. */
  predicate Copies(g: Graph, desc: string)
    requires desc in g
  {
    g[desc].streams && !ExtentAccesses(g, desc).raised
  }

  lemma SeenGrows(g: Graph, seen: set<string>, p: string)
    requires p in g && p !in seen
    ensures |g.Keys - (seen + {p})| < |g.Keys - seen|
  {
    assert g.Keys - (seen + {p}) == (g.Keys - seen) - {p};
  }

  /** The parent descriptors the walk streams, in order. */
  function Ascent(g: Graph, cur: string, seen: set<string>): seq<string>
    requires cur in g
    decreases |g.Keys - seen|
  {
    if !StepsUp(g, cur, seen) then []
    else
      var p := g[cur].parent.path;
      SeenGrows(g, seen, p);
      [p] + if Copies(g, p) then Ascent(g, p, seen + {p}) else []
  }

  /** Everything accessed for one descriptor. */
  function Visit(g: Graph, desc: string): Fetched
    requires desc in g
  {
    if g[desc].streams
    then Fetched([Probe(desc), Stream(desc)] + ExtentAccesses(g, desc).log, ExtentAccesses(g, desc).raised)
    else Fetched([Probe(desc), Stream(desc)], true)
  }

  /** The probe that stops the walk, if it stops at a missing file. */
  function LastProbe(g: Graph, cur: string, seen: set<string>): seq<Access>
    requires cur in g
  {
    if g[cur].parent.To? && g[cur].parent.path !in seen then [Probe(g[cur].parent.path)] else []
  }

  function Walk(g: Graph, cur: string, seen: set<string>): Fetched
    requires cur in g
    decreases |g.Keys - seen|
  {
    if !StepsUp(g, cur, seen) then Fetched(LastProbe(g, cur, seen), false)
    else
      var p := g[cur].parent.path;
      if Visit(g, p).raised then Visit(g, p)
      else
        SeenGrows(g, seen, p);
        var rest := Walk(g, p, seen + {p});
        Fetched(Visit(g, p).log + rest.log, rest.raised)
  }

  method VisitStep(g: Graph, desc: string) returns (log: seq<Access>, raised: bool)
    requires desc in g
    ensures Fetched(log, raised) == Visit(g, desc)
  {
    log := [Probe(desc), Stream(desc)];
    if !g[desc].streams {
      return log, true;
    }
    var more;
    more, raised := FetchExtent(g, desc);
    log := log + more;
  }

  lemma WalkStep(g: Graph, cur: string, seen: set<string>)
    requires cur in g
    ensures !StepsUp(g, cur, seen) ==> Walk(g, cur, seen) == Fetched(LastProbe(g, cur, seen), false)
    ensures StepsUp(g, cur, seen) ==>
              var p := g[cur].parent.path;
              Walk(g, cur, seen) ==
              if Visit(g, p).raised then Visit(g, p)
              else Fetched(Visit(g, p).log + Walk(g, p, seen + {p}).log, Walk(g, p, seen + {p}).raised)
  {
    hide Visit;
  }

  /** The loop of `fetch_descriptor_and_extent`. It terminates on every parent graph:
      each turn that goes on adds an existing path to `seen`. */
  method WalkLoop(g: Graph, top: string) returns (log: seq<Access>, raised: bool)
    requires top in g
    ensures Fetched(log, raised) == Walk(g, top, {})
  {
    hide Walk, Visit;
    log, raised := [], false;
    var cur := top;
    var seen: set<string> := {};
    while true
      invariant cur in g
      invariant Walk(g, top, {}) == Fetched(log + Walk(g, cur, seen).log, Walk(g, cur, seen).raised)
      decreases |g.Keys - seen|
    {
      WalkStep(g, cur, seen);
      if !g[cur].parent.To? {
        return log, false;
      }
      var p := g[cur].parent.path;
      if p in seen {
        return log, false;
      }
      if p !in g {
        return log + [Probe(p)], false;
      }
      var more;
      more, raised := VisitStep(g, p);
      if raised {
        return log + more, true;
      }
      SeenGrows(g, seen, p);
      assert log + (more + Walk(g, p, seen + {p}).log) == log + more + Walk(g, p, seen + {p}).log;
      log := log + more;
      seen := seen + {p};
      cur := p;
    }
  }

  // ----- where the accesses go

  lemma VisitFollowsLinks(g: Graph, desc: string, good: string -> bool)
    requires desc in g && good(desc) && (g[desc].extent.To? ==> good(g[desc].extent.path))
    ensures forall a | a in Visit(g, desc).log :: good(a.path)
  {
  }

  /** Every access of the walk follows a link of a visited file. */
  lemma {:induction false} WalkFollowsLinks(g: Graph, cur: string, seen: set<string>, good: string -> bool)
    requires cur in g && good(cur)
    requires forall d | d in g && good(d) :: g[d].parent.To? ==> good(g[d].parent.path)
    requires forall d | d in g && good(d) :: g[d].extent.To? ==> good(g[d].extent.path)
    ensures forall a | a in Walk(g, cur, seen).log :: good(a.path)
    decreases |g.Keys - seen|
  {
    if StepsUp(g, cur, seen) {
      hide Walk, Visit;
      var p := g[cur].parent.path;
      SeenGrows(g, seen, p);
      WalkFollowsLinks(g, p, seen + {p}, good);
      WalkStep(g, cur, seen);
      VisitFollowsLinks(g, p, good);
    }
  }

  // ----- which descriptors are fetched

  predicate Distinct(s: seq<string>)
  {
    forall i, j | 0 <= i < j < |s| :: s[i] != s[j]
  }

  /** Each element is the parent of the one before it. */
  ghost predicate IsChain(g: Graph, path: seq<string>)
  {
    && (forall i | 0 <= i < |path| :: path[i] in g)
    && (forall i, j | 0 <= i < j < |path| && j == i + 1 :: g[path[i]].parent == To(path[j]))
  }

  lemma ChainCons(g: Graph, cur: string, path: seq<string>)
    requires cur in g && path != [] && IsChain(g, path) && g[cur].parent == To(path[0])
    ensures IsChain(g, [cur] + path)
  {
  }

  lemma DistinctCons(p: string, s: seq<string>)
    requires Distinct(s) && p !in s
    ensures Distinct([p] + s)
  {
  }

  /** The walk streams a chain of parents without repetition, none of them in `seen`. */
  lemma {:induction false} AscentIsChain(g: Graph, cur: string, seen: set<string>)
    requires cur in g
    ensures IsChain(g, [cur] + Ascent(g, cur, seen))
    ensures Distinct(Ascent(g, cur, seen))
    ensures forall d | d in Ascent(g, cur, seen) :: d !in seen
    decreases |g.Keys - seen|
  {
    if StepsUp(g, cur, seen) {
      var p := g[cur].parent.path;
      if Copies(g, p) {
        SeenGrows(g, seen, p);
        AscentIsChain(g, p, seen + {p});
        var rest := Ascent(g, p, seen + {p});
        ChainCons(g, cur, [p] + rest);
        DistinctCons(p, rest);
      }
    }
  }

  function Last(s: seq<string>): string
    requires s != []
  {
    s[|s| - 1]
  }

  /** It stops only where it cannot go on: at a copy that raised, or where the last
      descriptor has no permitted, existing parent that was not streamed before. So it is
      the longest such chain, on every graph. */
  lemma {:induction false} AscentIsMaximal(g: Graph, cur: string, seen: set<string>)
    requires cur in g
    ensures var path := [cur] + Ascent(g, cur, seen);
            && Last(path) in g
            && ((|path| > 1 && !Copies(g, Last(path))) ||
                !StepsUp(g, Last(path), seen + (set d | d in Ascent(g, cur, seen))))
    decreases |g.Keys - seen|
  {
    var descs := Ascent(g, cur, seen);
    if !StepsUp(g, cur, seen) {
      assert seen + (set d | d in descs) == seen;
    } else {
      var p := g[cur].parent.path;
      if Copies(g, p) {
        SeenGrows(g, seen, p);
        AscentIsMaximal(g, p, seen + {p});
        var rest := Ascent(g, p, seen + {p});
        assert descs == [p] + rest;
        assert seen + (set d | d in descs) == seen + {p} + (set d | d in rest);
        assert Last([cur] + descs) == Last([p] + rest);
      }
    }
  }

  function VisitAll(g: Graph, descs: seq<string>): seq<Access>
    requires forall d | d in descs :: d in g
  {
    if descs == [] then []
    else
      assert descs[0] in descs;
      Visit(g, descs[0]).log + VisitAll(g, descs[1..])
  }

  lemma {:induction false} AscentExists(g: Graph, cur: string, seen: set<string>)
    requires cur in g
    ensures forall d | d in Ascent(g, cur, seen) :: d in g
    decreases |g.Keys - seen|
  {
    AscentIsChain(g, cur, seen);
    var path := [cur] + Ascent(g, cur, seen);
    forall d | d in Ascent(g, cur, seen) ensures d in g {
      var i :| 0 <= i < |Ascent(g, cur, seen)| && Ascent(g, cur, seen)[i] == d;
      assert path[i + 1] == d;
    }
  }

  /** The walk visits exactly those descriptors, in that order, and then streams nothing
      more; it raises exactly when the last of them does not copy. */
  lemma {:induction false} WalkVisitsAscent(g: Graph, cur: string, seen: set<string>)
    requires cur in g
    ensures forall d | d in Ascent(g, cur, seen) :: d in g
    ensures Walk(g, cur, seen).raised <==>
            Ascent(g, cur, seen) != [] && !Copies(g, Last(Ascent(g, cur, seen)))
    ensures var visits, log := VisitAll(g, Ascent(g, cur, seen)), Walk(g, cur, seen).log;
            visits <= log && |log| <= |visits| + 1 && (|log| > |visits| ==> log[|visits|].Probe?)
    decreases |g.Keys - seen|
  {
    var descs := Ascent(g, cur, seen);
    AscentExists(g, cur, seen);
    if StepsUp(g, cur, seen) {
      var p := g[cur].parent.path;
      if Copies(g, p) {
        SeenGrows(g, seen, p);
        WalkVisitsAscent(g, p, seen + {p});
        var rest := Ascent(g, p, seen + {p});
        assert descs == [p] + rest && descs[1..] == rest;
        assert VisitAll(g, descs) == Visit(g, p).log + VisitAll(g, rest);
      } else {
        assert descs == [p] && descs[1..] == [];
      }
    }
  }

  // ----- what is streamed and what is probed, access by access

  /** The paths streamed by a log, in order. */
  function Streams(log: seq<Access>): seq<string>
  {
    if log == [] then []
    else (if log[0].Stream? then [log[0].path] else []) + Streams(log[1..])
  }

  /** The descriptor is copied and its extent can be parsed. */
  predicate Legible(g: Graph, desc: string)
    requires desc in g
  {
    g[desc].streams && !g[desc].broken
  }

  /** Copying a descriptor with its extent goes without an error exactly when both stream
      and the extent can be parsed; an extent that is missing or refused does no harm. */
  lemma CopiesExactly(g: Graph, desc: string)
    requires desc in g
    ensures Copies(g, desc) <==>
            && g[desc].streams && !g[desc].broken
            && (g[desc].extent.To? && g[desc].extent.path in g ==> g[g[desc].extent.path].streams)
  {
  }

  /** Each descriptor, followed by its extent where that is permitted and exists. */
  function WithExtents(g: Graph, descs: seq<string>): seq<string>
    requires forall d | d in descs :: d in g
  {
    if descs == [] then []
    else
      var d := descs[0];
      assert d in descs;
      var extent := if Legible(g, d) && g[d].extent.To? && g[d].extent.path in g then [g[d].extent.path] else [];
      [d] + extent + WithExtents(g, descs[1..])
  }

  lemma StreamsCons(x: Access, log: seq<Access>)
    ensures Streams([x] + log) == (if x.Stream? then [x.path] else []) + Streams(log)
  {
    assert ([x] + log)[1..] == log;
  }

  lemma {:induction false} StreamsAppend(a: seq<Access>, b: seq<Access>)
    ensures Streams(a + b) == Streams(a) + Streams(b)
  {
    hide Streams;
    if a == [] {
      assert a + b == b;
      NoStreams();
    } else {
      var x, rest := a[0], a[1..];
      assert a == [x] + rest;
      assert a + b == [x] + (rest + b);
      StreamsAppend(rest, b);
      StreamsCons(x, rest);
      StreamsCons(x, rest + b);
      Associate(if x.Stream? then [x.path] else [], Streams(rest), Streams(b));
    }
  }

  lemma NoStreams()
    ensures Streams([]) == []
  {
  }

  lemma Associate(a: seq<string>, b: seq<string>, c: seq<string>)
    ensures (a + b) + c == a + (b + c)
  {
  }

  lemma VisitStreams(g: Graph, desc: string)
    requires desc in g
    ensures Streams(Visit(g, desc).log) == WithExtents(g, [desc])
  {
    var e := ExtentAccesses(g, desc).log;
    StreamsAppend([Probe(desc), Stream(desc)], e);
    assert [Probe(desc), Stream(desc)][1..] == [Stream(desc)] && [Stream(desc)][1..] == [];
    assert [desc][1..] == [];
    if e != [] { assert e[1..] == [] || e[1..][1..] == []; }
    assert Streams([Probe(desc), Stream(desc)]) == [desc];
  }

  /** What the walk streams, in order, on every graph: the ascent, each descriptor
      followed by its extent. */
  lemma {:induction false} WalkStreamsExactly(g: Graph, cur: string, seen: set<string>)
    requires cur in g
    ensures forall d | d in Ascent(g, cur, seen) :: d in g
    ensures Streams(Walk(g, cur, seen).log) == WithExtents(g, Ascent(g, cur, seen))
    decreases |g.Keys - seen|
  {
    hide Visit, Walk, Copies;
    WalkStep(g, cur, seen);
    if StepsUp(g, cur, seen) {
      var p := g[cur].parent.path;
      AscentStep(g, cur, seen, p);
      VisitStreams(g, p);
      RaisedIsNotCopied(g, p);
      var rest := if Copies(g, p) then Ascent(g, p, seen + {p}) else [];
      if Copies(g, p) {
        WalkStreamsExactly(g, p, seen + {p});
        StreamsAppend(Visit(g, p).log, Walk(g, p, seen + {p}).log);
      }
      hide Ascent, Streams, WithExtents;
      assert Ascent(g, cur, seen) == [p] + rest;
      WithExtentsCons(g, p, rest);
      if rest == [] { assert [p] + rest == [p]; }
    } else {
      AscentStops(g, cur, seen);
      LastProbeStreams(g, cur, seen);
    }
  }

  lemma LastProbeStreams(g: Graph, cur: string, seen: set<string>)
    requires cur in g
    ensures Streams(LastProbe(g, cur, seen)) == []
  {
    assert LastProbe(g, cur, seen) != [] ==> LastProbe(g, cur, seen)[1..] == [];
  }

  lemma WithExtentsCons(g: Graph, d: string, descs: seq<string>)
    requires d in g && forall x | x in descs :: x in g
    ensures WithExtents(g, [d] + descs) == WithExtents(g, [d]) + WithExtents(g, descs)
  {
    assert ([d] + descs)[1..] == descs && [d][1..] == [];
  }

  lemma AscentStops(g: Graph, cur: string, seen: set<string>)
    requires cur in g && !StepsUp(g, cur, seen)
    ensures Ascent(g, cur, seen) == []
  {
  }

  lemma RaisedIsNotCopied(g: Graph, desc: string)
    requires desc in g
    ensures Visit(g, desc).raised <==> !Copies(g, desc)
  {
  }

  lemma {:induction false} StreamsIn(log: seq<Access>, x: string)
    ensures x in Streams(log) <==> Stream(x) in log
  {
    if log != [] { StreamsIn(log[1..], x); }
  }

  lemma {:induction false} WithExtentsIn(g: Graph, descs: seq<string>, x: string)
    requires forall d | d in descs :: d in g
    ensures x in WithExtents(g, descs) <==>
            x in descs || (x in g && exists d :: d in descs && Legible(g, d) && g[d].extent == To(x))
  {
    if descs != [] {
      assert descs[0] in descs;
      WithExtentsIn(g, descs[1..], x);
      assert forall d :: d in descs <==> d == descs[0] || d in descs[1..];
    }
  }

  /** A file is streamed by the walk if and only if it is in the ascent, or is the existing
      extent of a descriptor there that is copied and can be parsed. */
  lemma StreamedExactly(g: Graph, cur: string, seen: set<string>, x: string)
    requires cur in g
    ensures forall d | d in Ascent(g, cur, seen) :: d in g
    ensures Stream(x) in Walk(g, cur, seen).log <==>
            || x in Ascent(g, cur, seen)
            || (x in g && exists d :: d in Ascent(g, cur, seen) && Legible(g, d) && g[d].extent == To(x))
  {
    WalkStreamsExactly(g, cur, seen);
    StreamsIn(Walk(g, cur, seen).log, x);
    WithExtentsIn(g, Ascent(g, cur, seen), x);
  }

  /** At position k: a stream directly follows its own probe, and a probe is followed by a
      stream of the same file exactly when the file exists. */
  predicate ProbedAt(g: Graph, log: seq<Access>, k: nat)
    requires k < |log|
  {
    var next := if k + 1 < |log| then [log[k + 1]] else [];
    if log[k].Stream? then k > 0 && log[k - 1] == Probe(log[k].path)
    else log[k].path in g <==> next == [Stream(log[k].path)]
  }

  /** That holds everywhere in the log. */
  ghost predicate ProbesFirst(g: Graph, log: seq<Access>)
  {
    forall k: nat | k < |log| :: ProbedAt(g, log, k)
  }

  lemma ProbesFirstAppend(g: Graph, a: seq<Access>, b: seq<Access>)
    requires ProbesFirst(g, a) && ProbesFirst(g, b)
    ensures ProbesFirst(g, a + b)
  {
    var log := a + b;
    if b != [] { assert ProbedAt(g, b, 0) && b[0].Probe?; }
    forall k: nat | k < |log| ensures ProbedAt(g, log, k) {
      if k >= |a| { assert ProbedAt(g, b, k - |a|); } else { assert ProbedAt(g, a, k); }
    }
  }

  lemma VisitProbesFirst(g: Graph, desc: string)
    requires desc in g
    ensures ProbesFirst(g, Visit(g, desc).log)
  {
    ExtentProbesFirst(g, desc);
    ProbesFirstAppend(g, [Probe(desc), Stream(desc)], ExtentAccesses(g, desc).log);
  }

  lemma ExtentProbesFirst(g: Graph, desc: string)
    requires desc in g
    ensures ProbesFirst(g, ExtentAccesses(g, desc).log)
  {
  }

  lemma {:induction false} WalkProbesFirst(g: Graph, cur: string, seen: set<string>)
    requires cur in g
    ensures ProbesFirst(g, Walk(g, cur, seen).log)
    decreases |g.Keys - seen|
  {
    hide Visit, Walk, ProbesFirst;
    WalkStep(g, cur, seen);
    if StepsUp(g, cur, seen) {
      var p := g[cur].parent.path;
      SeenGrows(g, seen, p);
      VisitProbesFirst(g, p);
      WalkProbesFirst(g, p, seen + {p});
      ProbesFirstAppend(g, Visit(g, p).log, Walk(g, p, seen + {p}).log);
    } else {
      LastProbeFirst(g, cur, seen);
    }
  }

  lemma LastProbeFirst(g: Graph, cur: string, seen: set<string>)
    requires cur in g && !StepsUp(g, cur, seen)
    ensures ProbesFirst(g, LastProbe(g, cur, seen))
  {
  }

  /** A file that is not there is probed by the walk if and only if it is the extent of a
      readable descriptor of the ascent, or the parent at which the walk stops. */
  lemma {:induction false} MissingProbedExactly(g: Graph, cur: string, seen: set<string>, x: string)
    requires cur in g && x !in g
    ensures forall d | d in Ascent(g, cur, seen) :: d in g
    ensures var up := Ascent(g, cur, seen);
            Probe(x) in Walk(g, cur, seen).log <==>
            || (exists d :: d in up && Legible(g, d) && g[d].extent == To(x))
            || (x !in seen && g[Last([cur] + up)].parent == To(x) && (up == [] || Copies(g, Last(up))))
    decreases |g.Keys - seen|
  {
    hide Visit, Walk, Copies;
    WalkStep(g, cur, seen);
    if StepsUp(g, cur, seen) {
      var p := g[cur].parent.path;
      AscentStep(g, cur, seen, p);
      RaisedIsNotCopied(g, p);
      VisitProbesMissing(g, p, x);
      var up := Ascent(g, cur, seen);
      hide Ascent, Legible;
      if Copies(g, p) {
        var rest := Ascent(g, p, seen + {p});
        MissingProbedExactly(g, p, seen + {p}, x);
        assert up == [p] + rest;
        LastOfCons(cur, p, rest);
        assert forall d :: d in up <==> d == p || d in rest;
      } else {
        assert up == [p] && Last([cur] + up) == p;
      }
    } else {
      AscentStops(g, cur, seen);
    }
  }

  lemma LastOfCons(cur: string, p: string, rest: seq<string>)
    ensures Last([cur] + ([p] + rest)) == Last([p] + rest)
    ensures rest != [] ==> Last([p] + rest) == Last(rest)
  {
  }

  lemma VisitProbesMissing(g: Graph, desc: string, x: string)
    requires desc in g && x !in g
    ensures Probe(x) in Visit(g, desc).log <==> Legible(g, desc) && g[desc].extent == To(x)
  {
  }

  // ----- chains and cycles

  /** One step of the ascent. */
  lemma AscentStep(g: Graph, cur: string, seen: set<string>, p: string)
    requires cur in g && g[cur].parent == To(p) && p in g && p !in seen
    ensures |g.Keys - (seen + {p})| < |g.Keys - seen|
    ensures Ascent(g, cur, seen) == [p] + if Copies(g, p) then Ascent(g, p, seen + {p}) else []
  {
    hide Copies;
    SeenGrows(g, seen, p);
  }

  lemma ChainTail(g: Graph, path: seq<string>)
    requires |path| > 1 && IsChain(g, path)
    ensures path[0] in g && path[1] in g && g[path[0]].parent == To(path[1])
    ensures path[1..][0] == path[1] && Last(path[1..]) == Last(path)
    ensures IsChain(g, path[1..])
  {
  }

  /** What a chain above a starting point keeps as the walk climbs it: no repetition, and
      nothing already seen. */
  ghost predicate Fresh(s: seq<string>, seen: set<string>)
  {
    Distinct(s) && forall d | d in s :: d !in seen
  }

  lemma FreshTail(s: seq<string>, seen: set<string>)
    requires s != [] && Fresh(s, seen)
    ensures s[0] !in seen && Fresh(s[1..], seen + {s[0]})
  {
    assert s[0] in s;
    forall d | d in s[1..] ensures d !in seen + {s[0]} {
      var i :| 0 <= i < |s[1..]| && s[1..][i] == d;
      assert s[i + 1] == d;
    }
  }

  /** Every descriptor of the list copies. */
  ghost predicate AllCopy(g: Graph, s: seq<string>)
  {
    forall i | 0 <= i < |s| :: s[i] in g && Copies(g, s[i])
  }

  lemma AllCopyPrefix(g: Graph, s: seq<string>, n: nat)
    requires AllCopy(g, s) && n <= |s|
    ensures AllCopy(g, s[..n])
    ensures forall i | 0 <= i < |s| :: s[i] in g && Copies(g, s[i])
  {
    hide Copies;
  }

  lemma DistinctPrefix(s: seq<string>, n: nat)
    requires Distinct(s) && n <= |s|
    ensures Distinct(s[..n])
  {
  }

  lemma AllCopyTail(g: Graph, s: seq<string>)
    requires s != [] && AllCopy(g, s)
    ensures s[0] in g && Copies(g, s[0]) && AllCopy(g, s[1..])
  {
    hide Copies;
  }

  /** A chain without repetition that leaves `seen` alone and whose interior copies is
      climbed to its end. */
  lemma {:induction false} ChainIsClimbed(g: Graph, path: seq<string>, seen: set<string>)
    requires |path| > 1 && IsChain(g, path)
    requires Fresh(path[1..], seen) && AllCopy(g, path[1..|path| - 1])
    ensures path[1..] <= Ascent(g, path[0], seen)
    ensures Copies(g, Last(path)) && g[Last(path)].parent == Absent ==> path[1..] == Ascent(g, path[0], seen)
    decreases |path|
  {
    hide Ascent, Fresh, IsChain, AllCopy, Copies;
    var p, tail := path[1], path[1..];
    ChainTail(g, path);
    FreshTail(tail, seen);
    AscentStep(g, path[0], seen, p);
    if |path| > 2 {
      var interior := path[1..|path| - 1];
      assert interior[0] == p;
      assert interior[1..] == path[2..|path| - 1];
      assert tail[1..|tail| - 1] == path[2..|path| - 1];
      AllCopyTail(g, interior);
      ChainIsClimbed(g, tail, seen + {p});
      assert tail == [p] + tail[1..];
    } else {
      assert tail == [p];
      if g[p].parent == Absent { AscentEnds(g, p, seen + {p}); }
    }
  }

  lemma AscentEnds(g: Graph, cur: string, seen: set<string>)
    requires cur in g && g[cur].parent == Absent
    ensures Ascent(g, cur, seen) == []
  {
  }

  /** An acyclic chain that ends and whose members exist and copy is fetched whole: every
      ancestor exactly once, in order, and nothing raises. */
  lemma AcyclicChainIsFetched(g: Graph, path: seq<string>, seen: set<string>)
    requires path != [] && IsChain(g, path) && g[Last(path)].parent == Absent
    requires AllCopy(g, path[1..]) && Fresh(path[1..], seen)
    ensures Ascent(g, path[0], seen) == path[1..]
    ensures !Walk(g, path[0], seen).raised
    ensures forall d | d in path[1..] :: d in g
    ensures Streams(Walk(g, path[0], seen).log) == WithExtents(g, path[1..])
    ensures ProbesFirst(g, Walk(g, path[0], seen).log)
  {
    hide Ascent, Walk, Copies, ProbesFirst, Streams, WithExtents;
    WalkVisitsAscent(g, path[0], seen);
    WalkStreamsExactly(g, path[0], seen);
    WalkProbesFirst(g, path[0], seen);
    if |path| == 1 {
      AscentEnds(g, path[0], seen);
    } else {
      var tail := path[1..];
      assert tail[|tail| - 1] == Last(path);
      AllCopyPrefix(g, tail, |tail| - 1);
      assert path[1..|path| - 1] == tail[..|tail| - 1];
      hide AllCopy, IsChain, Fresh;
      ChainIsClimbed(g, path, seen);
    }
  }

  /** All but the last of the descriptors the walk streams copy without an error. */
  lemma {:induction false} AscentCopies(g: Graph, cur: string, seen: set<string>)
    requires cur in g
    ensures var up := Ascent(g, cur, seen); up != [] ==> AllCopy(g, up[..|up| - 1])
    decreases |g.Keys - seen|
  {
    hide Copies;
    if StepsUp(g, cur, seen) {
      var p := g[cur].parent.path;
      AscentStep(g, cur, seen, p);
      if Copies(g, p) {
        AscentCopies(g, p, seen + {p});
        hide Ascent;
        var up, rest := Ascent(g, cur, seen), Ascent(g, p, seen + {p});
        assert rest != [] ==> up[..|up| - 1] == [p] + rest[..|rest| - 1];
      }
    }
  }

  /** A chain of parents that leads from the top descriptor back to it, over descriptors
      that copy. */
  ghost predicate IsCycle(g: Graph, top: string, path: seq<string>)
  {
    && |path| > 1 && IsChain(g, path)
    && path[0] == Last(path) == top
    && Distinct(path[1..])
    && AllCopy(g, path[1..|path| - 1])
  }

  lemma ChainPrefix(g: Graph, path: seq<string>, n: nat)
    requires IsChain(g, path) && n <= |path|
    ensures IsChain(g, path[..n])
  {
  }

  /** The part of the ascent up to its return to the top is a cycle. */
  lemma ReturnIsCycle(g: Graph, top: string, up: seq<string>, k: nat)
    requires k < |up| && up[k] == top
    requires IsChain(g, [top] + up) && Distinct(up) && AllCopy(g, up[..|up| - 1])
    ensures IsCycle(g, top, [top] + up[..k + 1])
  {
    hide Copies;
    var path := [top] + up[..k + 1];
    assert path == ([top] + up)[..k + 2];
    ChainPrefix(g, [top] + up, k + 2);
    DistinctPrefix(up, k + 1);
    AllCopyPrefix(g, up[..|up| - 1], k);
    hide IsChain, AllCopy, Distinct;
    assert path[1..] == up[..k + 1];
    assert path[1..|path| - 1] == up[..k] == up[..|up| - 1][..k];
  }

  /** The top descriptor is not put in `seen`, so the walk streams it a second time
      exactly when it lies on a cycle of parents that copy. */
  lemma TopIsFetchedAgainExactly(g: Graph, top: string)
    requires top in g
    ensures top in Ascent(g, top, {}) <==> exists path :: IsCycle(g, top, path)
  {
    hide Ascent, IsChain, AllCopy;
    var up := Ascent(g, top, {});
    AscentIsChain(g, top, {});
    AscentCopies(g, top, {});
    if top in up {
      var k :| 0 <= k < |up| && up[k] == top;
      ReturnIsCycle(g, top, up, k);
    }
    if path :| IsCycle(g, top, path) {
      ChainIsClimbed(g, path, {});
      assert path[1..][|path| - 2] == top;
    }
  }

  /** Two descriptors that name each other as parent: the walk comes back to the top,
      streams it again, and stops there. */
  lemma TwoCycleIsFetchedTwice()
    ensures var g := map["a" := Node(To("b"), Absent, false, true), "b" := Node(To("a"), Absent, false, true)];
            Ascent(g, "a", {}) == ["b", "a"] && !Walk(g, "a", {}).raised
  {
    var g := map["a" := Node(To("b"), Absent, false, true), "b" := Node(To("a"), Absent, false, true)];
    assert "a"[0] != "b"[0];
    AscentStep(g, "a", {}, "b");
    AscentStep(g, "b", {"b"}, "a");
    assert !StepsUp(g, "a", {"b"} + {"a"});
    assert {} + {"b"} == {"b"};
    WalkVisitsAscent(g, "a", {});
  }
}
