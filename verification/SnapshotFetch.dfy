/** The snapshot-chain fetch of h2kvm/converters/fetch.py over an arbitrary remote
    filesystem: how references are resolved, and where the fetch can reach. */
module SnapshotFetch {
  import opened Texts
  import opened RemotePaths
  import opened ChainWalk

  /** What a VMDK parser makes of a descriptor: it raises, or returns a path that may be
      empty. */
  datatype Parsed = Malformed | Named(path: string)

  /** A remote file; `streams` is false when copying it fails. */
  datatype RemoteFile = RemoteFile(parent: Parsed, extent: Parsed, streams: bool)

  type Remote = map<string, RemoteFile>

  datatype Outcome = Done | Died | Raised

  /** One past the last slash: `rfind("/") + 1`. */
  function LastSlash(p: string): (i: nat)
    ensures i <= |p|
  {
    if p == [] then 0 else if p[|p| - 1] == '/' then |p| else LastSlash(p[..|p| - 1])
  }

  function Dirname(p: string): string
  {
    var head := p[..LastSlash(p)];
    if StripTrailingSlashes(head) == "" then head else StripTrailingSlashes(head)
  }

  predicate Permitted(path: string, sandbox: string)
  {
    sandbox == "" || IsUnderRemoteRoot(path, sandbox)
  }

  function Guard(path: string, sandbox: string): Link
  {
    if Permitted(path, sandbox) then To(path) else Barred
  }

  function ParentLink(f: RemoteFile, desc: string, sandbox: string): Link
  {
    if f.parent.Malformed? || f.parent.path == "" then Absent
    else Guard(PosixJoinNorm(Dirname(desc), NormalizeRemote(f.parent.path)), sandbox)
  }

  /** `stem` is the stem of the local descriptor name, used when no extent is named. */
  function ExtentLink(f: RemoteFile, desc: string, sandbox: string, stem: string): Link
  {
    if f.extent.Malformed? then Absent
    else if f.extent.path != "" then Guard(PosixJoinNorm(Dirname(desc), NormalizeRemote(f.extent.path)), sandbox)
    else Guard(Normpath(PosixJoin(Dirname(desc), stem + "-flat.vmdk")), sandbox)
  }

  /** The graph the walk sees. */
  function Resolve(fs: Remote, sandbox: string, stems: string -> string): Graph
  {
    map d | d in fs ::
      Node(ParentLink(fs[d], d, sandbox), ExtentLink(fs[d], d, sandbox, stems(d)), fs[d].extent.Malformed?,
           fs[d].streams)
  }

  function Sandbox(desc: string, given: string): string
  {
    if given != "" then NormalizeRemote(given) else Dirname(NormalizeRemote(desc))
  }

  /** The fetch of an existing, permitted descriptor. */
  function Fetch(g: Graph, top: string, fetchAll: bool): (seq<Access>, Outcome)
    requires top in g
  {
    if !g[top].streams then ([Probe(top), Stream(top)], Raised)
    else
      var e := ExtentAccesses(g, top);
      if e.raised then ([Probe(top), Stream(top)] + e.log, Raised)
      else if !fetchAll then ([Probe(top), Stream(top)] + e.log, Done)
      else
        var w := Walk(g, top, {});
        ([Probe(top), Stream(top)] + e.log + w.log, if w.raised then Raised else Done)
  }

  /** Everything the fetch of `desc` does; `given` is the sandbox root, "" if none. */
  function Plan(fs: Remote, desc: string, given: string, fetchAll: bool,
                stems: string -> string): (seq<Access>, Outcome)
  {
    var top := NormalizeRemote(Strip(desc));
    var sandbox := Sandbox(Strip(desc), given);
    if Strip(desc) == "" || !Permitted(top, sandbox) then ([], Died)
    else if top !in fs then ([Probe(top)], Died)
    else Fetch(Resolve(fs, sandbox, stems), top, fetchAll)
  }

  method FetchFrom(g: Graph, top: string, fetchAll: bool) returns (log: seq<Access>, outcome: Outcome)
    requires top in g
    ensures (log, outcome) == Fetch(g, top, fetchAll)
  {
    log := [Probe(top), Stream(top)];
    if !g[top].streams {
      return log, Raised;
    }
    var more, raised := FetchExtent(g, top);
    log := log + more;
    if raised {
      return log, Raised;
    }
    if fetchAll {
      more, raised := WalkLoop(g, top);
      log := log + more;
      if raised {
        return log, Raised;
      }
    }
    outcome := Done;
  }

  /** `fetch_descriptor_and_extent` */
  method FetchDescriptorAndExtent(fs: Remote, desc: string, given: string, fetchAll: bool, stems: string -> string)
    returns (log: seq<Access>, outcome: Outcome)
    ensures (log, outcome) == Plan(fs, desc, given, fetchAll, stems)
  {
    var stripped := Strip(desc);
    if stripped == "" {
      return [], Died;
    }
    var top := NormalizeRemote(stripped);
    var sandbox := if given != "" then NormalizeRemote(given) else Dirname(top);
    assert sandbox == Sandbox(stripped, given);
    if sandbox != "" && !IsUnderRemoteRoot(top, sandbox) {
      assert !Permitted(top, sandbox);
      return [], Died;
    }
    assert Permitted(top, sandbox);
    if top !in fs {
      return [Probe(top)], Died;
    }
    log, outcome := FetchFrom(Resolve(fs, sandbox, stems), top, fetchAll);
  }

  // ----- sandboxing

  /** Normalised, with forward slashes, and passed by the sandbox test. */
  predicate Sound(p: string, sandbox: string)
  {
    NoBackslash(p) && Normpath(p) == p && Permitted(p, sandbox)
  }

  lemma {:induction false} StripTrailingNoBackslash(s: string)
    requires NoBackslash(s)
    ensures NoBackslash(StripTrailingSlashes(s))
  {
    if s != [] && s[|s| - 1] == '/' { StripTrailingNoBackslash(s[..|s| - 1]); }
  }

  lemma DirnameNoBackslash(p: string)
    requires NoBackslash(p)
    ensures NoBackslash(Dirname(p))
  {
    StripTrailingNoBackslash(p[..LastSlash(p)]);
  }

  lemma NormpathTidy(t: string)
    requires NoBackslash(t)
    ensures NoBackslash(Normpath(t)) && Normpath(Normpath(t)) == Normpath(t)
  {
    NormpathNoBackslash(t);
    NormpathIdempotent(t);
  }

  lemma JoinNormTidy(a: string, b: string)
    ensures NoBackslash(PosixJoinNorm(a, b)) && Normpath(PosixJoinNorm(a, b)) == PosixJoinNorm(a, b)
  {
    hide NormalizeRemote, Normpath;
    NormalizeRemoteShape(a);
    NormalizeRemoteShape(b);
    var r := NormalizeRemote(b);
    NormpathTidy(if "/" <= r then r else PosixJoin(NormalizeRemote(a), r));
  }

  lemma GuardIsSound(p: string, sandbox: string)
    requires NoBackslash(p) && Normpath(p) == p
    ensures Guard(p, sandbox).To? ==> Sound(Guard(p, sandbox).path, sandbox)
  {
  }

  lemma ParentLinkIsSound(f: RemoteFile, desc: string, sandbox: string)
    ensures ParentLink(f, desc, sandbox).To? ==> Sound(ParentLink(f, desc, sandbox).path, sandbox)
  {
    if f.parent.Named? {
      var p := PosixJoinNorm(Dirname(desc), NormalizeRemote(f.parent.path));
      JoinNormTidy(Dirname(desc), NormalizeRemote(f.parent.path));
      GuardIsSound(p, sandbox);
    }
  }

  lemma ExtentLinkIsSound(f: RemoteFile, desc: string, sandbox: string, stem: string)
    requires NoBackslash(desc) && NoBackslash(stem)
    ensures ExtentLink(f, desc, sandbox, stem).To? ==> Sound(ExtentLink(f, desc, sandbox, stem).path, sandbox)
  {
    if f.extent.Named? {
      if f.extent.path != "" {
        var e := PosixJoinNorm(Dirname(desc), NormalizeRemote(f.extent.path));
        JoinNormTidy(Dirname(desc), NormalizeRemote(f.extent.path));
        GuardIsSound(e, sandbox);
      } else {
        var t := PosixJoin(Dirname(desc), stem + "-flat.vmdk");
        DirnameNoBackslash(desc);
        NormpathTidy(t);
        GuardIsSound(Normpath(t), sandbox);
      }
    }
  }

  lemma FetchIsSound(g: Graph, top: string, fetchAll: bool, good: string -> bool)
    requires top in g && good(top)
    requires forall d | d in g && good(d) :: g[d].parent.To? ==> good(g[d].parent.path)
    requires forall d | d in g && good(d) :: g[d].extent.To? ==> good(g[d].extent.path)
    ensures forall a | a in Fetch(g, top, fetchAll).0 :: good(a.path)
  {
    WalkFollowsLinks(g, top, {}, good);
  }

  /** For every remote filesystem and every parent/extent graph, cyclic or not, every
      path probed or streamed is normalised and was passed by the sandbox test. Local
      stems come from names reduced to [A-Za-z0-9._-], so they hold no backslash. */
  lemma EveryAccessIsSound(fs: Remote, desc: string, given: string, fetchAll: bool, stems: string -> string)
    requires forall d :: NoBackslash(stems(d))
    ensures forall a | a in Plan(fs, desc, given, fetchAll, stems).0 :: Sound(a.path, Sandbox(Strip(desc), given))
  {
    var top := NormalizeRemote(Strip(desc));
    var sandbox := Sandbox(Strip(desc), given);
    NormalizeRemoteShape(Strip(desc));
    if Permitted(top, sandbox) && top in fs {
      var g := Resolve(fs, sandbox, stems);
      var good := p => Sound(p, sandbox);
      forall d | d in g && good(d)
        ensures g[d].parent.To? ==> good(g[d].parent.path)
        ensures g[d].extent.To? ==> good(g[d].extent.path)
      {
        ParentLinkIsSound(fs[d], d, sandbox);
        ExtentLinkIsSound(fs[d], d, sandbox, stems(d));
      }
      FetchIsSound(g, top, fetchAll, good);
    }
  }

  lemma NormpathAbsolute(t: string)
    requires "/" <= t
    ensures "/" <= Normpath(t)
  {
    ParseIsNormal(t);
    RenderShape(Parse(t));
  }

  lemma NormalizeAbsolute(t: string)
    requires "/" <= t
    ensures "/" <= NormalizeRemote(t)
  {
    StripLeftKeeps(t);
    StripRightTrims(t);
    assert StripRight(t) != [] by { if StripRight(t) == [] { StripRightKeepsSolid(t); } }
    NormpathAbsolute(Forward(Strip(t)));
  }

  lemma {:induction false} StripRightKeepsSolid(t: string)
    requires t != [] && !IsSpace(t[0])
    ensures StripRight(t) != []
  {
    if IsSpace(t[|t| - 1]) { StripRightKeepsSolid(t[..|t| - 1]); }
  }

  lemma {:induction false} LastSlashIsPast(p: string)
    requires p != [] && p[0] == '/'
    ensures LastSlash(p) > 0
  {
    if p[|p| - 1] != '/' { LastSlashIsPast(p[..|p| - 1]); }
  }

  lemma {:induction false} StripTrailingIsPrefix(p: string)
    ensures StripTrailingSlashes(p) <= p
  {
    if p != [] && p[|p| - 1] == '/' { StripTrailingIsPrefix(p[..|p| - 1]); }
  }

  lemma DirnameAbsolute(p: string)
    requires "/" <= p
    ensures "/" <= Dirname(p)
  {
    LastSlashIsPast(p);
    StripTrailingIsPrefix(p[..LastSlash(p)]);
  }

  lemma JoinNormAbsolute(a: string, b: string)
    requires "/" <= a
    ensures "/" <= PosixJoinNorm(a, b)
  {
    hide NormalizeRemote, Normpath;
    NormalizeAbsolute(a);
    var r := NormalizeRemote(b);
    NormpathAbsolute(if "/" <= r then r else PosixJoin(NormalizeRemote(a), r));
  }

  lemma LinksAreAbsolute(f: RemoteFile, desc: string, sandbox: string, stem: string)
    requires "/" <= desc
    ensures ParentLink(f, desc, sandbox).To? ==> "/" <= ParentLink(f, desc, sandbox).path
    ensures ExtentLink(f, desc, sandbox, stem).To? ==> "/" <= ExtentLink(f, desc, sandbox, stem).path
  {
    hide PosixJoinNorm, NormalizeRemote, Normpath, Permitted, Dirname;
    DirnameAbsolute(desc);
    if f.parent.Named? { JoinNormAbsolute(Dirname(desc), NormalizeRemote(f.parent.path)); }
    if f.extent.Named? {
      JoinNormAbsolute(Dirname(desc), NormalizeRemote(f.extent.path));
      NormpathAbsolute(PosixJoin(Dirname(desc), stem + "-flat.vmdk"));
    }
  }

  /** From an absolute descriptor the fetch stays on absolute paths. */
  lemma EveryAccessIsAbsolute(fs: Remote, desc: string, given: string, fetchAll: bool, stems: string -> string)
    requires "/" <= NormalizeRemote(Strip(desc))
    ensures forall a | a in Plan(fs, desc, given, fetchAll, stems).0 :: "/" <= a.path
  {
    hide NormalizeRemote, Permitted, ParentLink, ExtentLink;
    var top := NormalizeRemote(Strip(desc));
    var sandbox := Sandbox(Strip(desc), given);
    if Permitted(top, sandbox) && top in fs {
      var g := Resolve(fs, sandbox, stems);
      var good := p => "/" <= p;
      forall d | d in g && good(d)
        ensures g[d].parent.To? ==> good(g[d].parent.path)
        ensures g[d].extent.To? ==> good(g[d].extent.path)
      {
        LinksAreAbsolute(fs[d], d, sandbox, stems(d));
      }
      FetchIsSound(g, top, fetchAll, good);
    }
  }

  /** Containment, access by access. With a root that, as the test reads it, has
      components, every accessed path lies under that one once it is stripped too; a path
      without outer whitespace lies there as it is, and so does every path of a fetch
      from an absolute descriptor, except that root followed by whitespace. When the
      sandbox's own text is trimmed, it is the root meant. */
  lemma FetchStaysInSandbox(fs: Remote, desc: string, given: string, fetchAll: bool, stems: string -> string,
                            a: Access)
    requires forall d :: NoBackslash(stems(d))
    requires a in Plan(fs, desc, given, fetchAll, stems).0
    ensures var sandbox := Sandbox(Strip(desc), given);
            var root := NormalizeRemote(sandbox);
            && (sandbox != "" && Parse(root).comps != [] ==>
                  && Inside(Parse(NormalizeRemote(a.path)), Parse(root))
                  && (Trimmed(a.path) ==> Inside(Parse(a.path), Parse(root)))
                  && ("/" <= NormalizeRemote(Strip(desc)) ==>
                        Inside(Parse(a.path), Parse(root)) || SpacedRoot(a.path, sandbox)))
            && ("/" <= NormalizeRemote(Strip(desc)) && "/" <= sandbox && Trimmed(sandbox) &&
                Parse(sandbox).comps != [] ==>
                  Inside(Parse(a.path), Parse(sandbox)) || SpacedRoot(a.path, sandbox))
  {
    var sandbox := Sandbox(Strip(desc), given);
    EveryAccessIsSound(fs, desc, given, fetchAll, stems);
    SandboxShape(desc, given);
    if "/" <= NormalizeRemote(Strip(desc)) { EveryAccessIsAbsolute(fs, desc, given, fetchAll, stems); }
    hide Plan, NormalizeRemote, Parse, Inside, Normpath, IsUnderRemoteRoot, Sandbox;
    if sandbox != "" && Parse(NormalizeRemote(sandbox)).comps != [] {
      UnderRemoteRootExactly(a.path, sandbox);
      if Trimmed(a.path) { TrimmedIsFixed(a.path); }
      if "/" <= NormalizeRemote(Strip(desc)) { MisjudgedExactly(a.path, sandbox); }
    }
    if "/" <= NormalizeRemote(Strip(desc)) && "/" <= sandbox && Trimmed(sandbox) && Parse(sandbox).comps != [] {
      RootIsKeptExactly(sandbox);
    }
  }

  /** The sandbox is a normalised path with forward slashes, unless it is switched off. */
  lemma SandboxShape(desc: string, given: string)
    ensures var sandbox := Sandbox(Strip(desc), given);
            sandbox != "" && "/" <= sandbox ==> Tidy(sandbox)
  {
    if given != "" {
      NormalizeRemoteShape(given);
    } else {
      NormalizeRemoteShape(Strip(desc));
      DirnameIsNormal(NormalizeRemote(Strip(desc)));
      DirnameNoBackslash(NormalizeRemote(Strip(desc)));
    }
  }

  lemma {:induction false} DirnameOf(head: string, w: string)
    requires NoSlash(w) && head != "" && head[|head| - 1] != '/'
    ensures Dirname(head + "/" + w) == head
  {
    LastSlashOf(head + "/", w);
    assert head + "/" + w == (head + "/") + w;
    assert (head + "/" + w)[..|head| + 1] == head + "/";
    assert (head + "/")[..|head|] == head;
    assert StripTrailingSlashes(head) == head;
    assert StripTrailingSlashes(head + "/") == StripTrailingSlashes(head);
  }

  lemma {:induction false} LastSlashOf(head: string, w: string)
    requires NoSlash(w) && head != "" && head[|head| - 1] == '/'
    ensures LastSlash(head + w) == |head|
  {
    if w == "" {
      assert head + w == head;
    } else {
      assert (head + w)[..|head + w| - 1] == head + w[..|w| - 1];
      LastSlashOf(head, w[..|w| - 1]);
    }
  }

  lemma LastSlashOfWord(w: string)
    requires NoSlash(w)
    ensures LastSlash(w) == 0
    decreases |w|
  {
    if w != "" { LastSlashOfWord(w[..|w| - 1]); }
  }

  /** The directory part of a normal path is empty or normal. */
  lemma DirnameIsNormal(p: string)
    requires Normpath(p) == p
    ensures Dirname(p) != "" ==> Normpath(Dirname(p)) == Dirname(p)
  {
    ParseIsNormal(p);
    var q := Parse(p);
    assert Render(q) == p;
    hide Parse, Normpath, Reduce, Split, Render, Dirname;
    var up := Path(q.slashes, if q.comps == [] then [] else q.comps[..|q.comps| - 1]);
    DirnameOfRender(q, up);
    NormpathOfRender(up);
  }

  /** The directory part of a normal path is `up`, or nothing for a single relative word. */
  lemma DirnameOfRender(q: Path, up: Path)
    requires Normal(q) && up == Path(q.slashes, if q.comps == [] then [] else q.comps[..|q.comps| - 1])
    ensures Normal(up) && (Dirname(Render(q)) == Render(up) || Dirname(Render(q)) == "")
    ensures q.slashes > 0 ==> Dirname(Render(q)) == Render(up)
  {
    hide Dirname, Render, Join;
    if |q.comps| <= 1 {
      var w := if q.comps == [] && q.slashes == 0 then "." else Join(q.comps);
      RenderedWord(q, up, w);
      WordDirname(q.slashes, w);
    } else {
      RenderedBelow(q, up);
      DirnameOf(Render(up), q.comps[|q.comps| - 1]);
    }
  }

  lemma RenderedBelow(q: Path, up: Path)
    requires Normal(q) && |q.comps| > 1 && up == Path(q.slashes, q.comps[..|q.comps| - 1])
    ensures var w := q.comps[|q.comps| - 1];
            && NoSlash(w) && Render(q) == Render(up) + "/" + w
            && Render(up) != "" && Render(up)[|Render(up)| - 1] != '/'
  {
    var n := |q.comps| - 1;
    assert q.comps == up.comps + [q.comps[n]];
    JoinSnoc(up.comps, q.comps[n]);
    JoinEnd(up.comps);
    hide Join;
  }

  lemma RenderedWord(q: Path, up: Path, w: string)
    requires Normal(q) && |q.comps| <= 1 && up == Path(q.slashes, [])
    requires w == if q.comps == [] && q.slashes == 0 then "." else Join(q.comps)
    ensures Render(q) == Slashes(q.slashes) + w && NoSlash(w)
    ensures q.slashes > 0 ==> Render(up) == Slashes(q.slashes)
  {
    JoinNothing();
    RenderShape(up);
    if q.comps != [] { assert Join(q.comps) == q.comps[0]; }
    assert Slashes(1) == "/" && Slashes(2) == "//" && Slashes(0) + "." == ".";
  }

  lemma NormpathOfRender(q: Path)
    requires Normal(q)
    ensures Normpath(Render(q)) == Render(q)
  {
    ParseRender(q);
  }

  /** The directory part of a single word behind n slashes is those slashes. */
  lemma WordDirname(n: nat, w: string)
    requires n <= 2 && NoSlash(w)
    ensures Dirname(Slashes(n) + w) == Slashes(n)
  {
    if n == 0 {
      assert Slashes(0) + w == w;
      LastSlashOfWord(w);
    } else {
      LastSlashOf(Slashes(n), w);
      assert (Slashes(n) + w)[..n] == Slashes(n);
      assert n == 2 ==> Slashes(2)[..1] == Slashes(1);
      assert Slashes(1)[..0] == "";
    }
  }

  // ----- where references lead, and what is fetched

  /** The directory part of an absolute path drops the last component and nothing else. */
  lemma DirnameExactly(desc: string)
    requires Tidy(desc)
    ensures var q := Parse(desc);
            && Tidy(Dirname(desc))
            && Parse(Dirname(desc)) == Path(q.slashes, if q.comps == [] then [] else q.comps[..|q.comps| - 1])
  {
    AbsoluteShape(desc);
    var q := Parse(desc);
    var up := Path(q.slashes, if q.comps == [] then [] else q.comps[..|q.comps| - 1]);
    DirnameOfRender(q, up);
    DirnameNoBackslash(desc);
    DirnameAbsolute(desc);
    NormpathOfRender(up);
    ParseRender(up);
  }

  /** The sandbox of a fetch: the root given, normalised, or else the directory of the
      descriptor. */
  lemma SandboxExactly(desc: string, given: string)
    ensures given != "" ==> Sandbox(desc, given) == NormalizeRemote(given)
    ensures var top := NormalizeRemote(desc);
            given == "" && "/" <= top ==>
              && Tidy(Sandbox(desc, given))
              && Parse(Sandbox(desc, given)).slashes == Parse(top).slashes
              && Parse(Sandbox(desc, given)).comps ==
                 if Parse(top).comps == [] then [] else Parse(top).comps[..|Parse(top).comps| - 1]
  {
    hide NormalizeRemote, Parse, Dirname;
    NormalizeRemoteShape(desc);
    if given == "" && "/" <= NormalizeRemote(desc) { DirnameExactly(NormalizeRemote(desc)); }
  }

  /** The path a reference in a descriptor leads to: along its own text, from the root or
      from the directory of the descriptor. */
  function Target(desc: string, rel: string): Path
  {
    var t, q := Forward(Strip(rel)), Parse(desc);
    var dir := if q.comps == [] then [] else q.comps[..|q.comps| - 1];
    if "/" <= t then Path(LeadingSlashes(t), Follow([], Split(t))) else Path(q.slashes, Follow(dir, Split(t)))
  }

  /** A parent or extent that is named is fetched from where its name leads, or refused:
      for every absolute descriptor in a directory whose text is trimmed, and every name
      in which no whitespace surfaces when it is normalised. */
  lemma LinksLead(f: RemoteFile, desc: string, sandbox: string, stem: string, rel: string)
    requires Tidy(desc) && Trimmed(Dirname(desc)) && rel != ""
    requires OuterTrimmed(Parse(Forward(Strip(rel))))
    ensures f.parent == Named(rel) ==> ParentLink(f, desc, sandbox) == Guard(Render(Target(desc, rel)), sandbox)
    ensures f.extent == Named(rel) ==> ExtentLink(f, desc, sandbox, stem) == Guard(Render(Target(desc, rel)), sandbox)
  {
    DirnameExactly(desc);
    var joined := PosixJoinNorm(Dirname(desc), NormalizeRemote(rel));
    JoinNormTidy(Dirname(desc), NormalizeRemote(rel));
    hide Parse, NormalizeRemote, OuterTrimmed, Trimmed, Guard, Dirname, Follow, Split, PosixJoinNorm, Strip, Forward;
    ReferenceLeads(Dirname(desc), rel);
    assert joined == Render(Parse(joined));
  }

  /** What cannot be parsed, or is not named, ends the walk as a parent; as an extent the
      first raises and the second stands for the default. */
  lemma UnnamedLinks(fs: Remote, d: string, sandbox: string, stems: string -> string)
    requires d in fs
    ensures var n := Resolve(fs, sandbox, stems)[d];
            && (n.parent == Absent <==> fs[d].parent.Malformed? || fs[d].parent.path == "")
            && (n.broken <==> fs[d].extent.Malformed?) && (n.extent == Absent <==> n.broken)
            && n.streams == fs[d].streams
  {
    hide NormalizeRemote, PosixJoinNorm, Normpath, Permitted;
  }

  /** A descriptor that names no extent has the one named after it, in its directory. */
  lemma DefaultExtent(f: RemoteFile, desc: string, sandbox: string, stem: string)
    requires Tidy(desc) && NoSlash(stem) && f.extent == Named("")
    ensures var q := Parse(desc);
            var dir := if q.comps == [] then [] else q.comps[..|q.comps| - 1];
            ExtentLink(f, desc, sandbox, stem) == Guard(Render(Path(q.slashes, dir + [stem + "-flat.vmdk"])), sandbox)
  {
    DirnameExactly(desc);
    var w := stem + "-flat.vmdk";
    FlatIsAWord(stem);
    hide Dirname, Guard;
    JoinLeads(Dirname(desc), w);
    SplitWord(w);
    FollowNames(Parse(Dirname(desc)).comps, [w]);
  }

  lemma FlatIsAWord(stem: string)
    requires NoSlash(stem)
    ensures var w := stem + "-flat.vmdk"; Component(w) && w != ".." && !("/" <= w)
  {
    var w := stem + "-flat.vmdk";
    assert |w| >= 10 && |"."| == 1 && |".."| == 2;
    assert forall i | 0 <= i < |"-flat.vmdk"| :: "-flat.vmdk"[i] != '/';
    assert NoSlash(w) ==> w[0] != '/';
    assert forall i | 0 <= i < |w| :: w[i] == if i < |stem| then stem[i] else "-flat.vmdk"[i - |stem|];
  }

  /** What the fetch of a permitted, existing descriptor streams, in order, and how it ends:
      the descriptor and its extent, then, if the chain is asked for, the ascent with its
      extents. It is done exactly when everything it reached could be copied. */
  lemma FetchExactly(g: Graph, top: string, fetchAll: bool)
    requires top in g
    ensures forall d | d in Ascent(g, top, {}) :: d in g
    ensures var up := if fetchAll && Copies(g, top) then Ascent(g, top, {}) else [];
            && Streams(Fetch(g, top, fetchAll).0) == WithExtents(g, [top] + up)
            && ProbesFirst(g, Fetch(g, top, fetchAll).0)
            && (Fetch(g, top, fetchAll).1 == Done <==> forall d | d in [top] + up :: Copies(g, d))
            && Fetch(g, top, fetchAll).1 != Died
  {
    hide Walk, Ascent, Copies, Streams, ProbesFirst, WithExtents;
    FetchIsVisitAndWalk(g, top, fetchAll);
    WalkStreamsExactly(g, top, {});
    WalkProbesFirst(g, top, {});
    VisitStreams(g, top);
    VisitProbesFirst(g, top);
    RaisedIsNotCopied(g, top);
    var up := if fetchAll && Copies(g, top) then Ascent(g, top, {}) else [];
    WithExtentsCons(g, top, up);
    hide Visit;
    if fetchAll && Copies(g, top) {
      StreamsAppend(Visit(g, top).log, Walk(g, top, {}).log);
      ProbesFirstAppend(g, Visit(g, top).log, Walk(g, top, {}).log);
      WalkRaisesExactly(g, top);
    } else {
      assert [top] + up == [top];
    }
  }

  lemma FetchIsVisitAndWalk(g: Graph, top: string, fetchAll: bool)
    requires top in g
    ensures var (log, outcome) := Fetch(g, top, fetchAll);
            if fetchAll && !Visit(g, top).raised
            then log == Visit(g, top).log + Walk(g, top, {}).log
                && outcome == if Walk(g, top, {}).raised then Raised else Done
            else log == Visit(g, top).log && outcome == if Visit(g, top).raised then Raised else Done
  {
    hide Walk;
  }

  lemma WalkRaisesExactly(g: Graph, top: string)
    requires top in g
    ensures forall d | d in Ascent(g, top, {}) :: d in g
    ensures Walk(g, top, {}).raised <==> exists d :: d in Ascent(g, top, {}) && !Copies(g, d)
  {
    hide Walk, Ascent, Copies;
    WalkVisitsAscent(g, top, {});
    AscentCopies(g, top, {});
    var up := Ascent(g, top, {});
    forall d | d in up && d != Last(up) ensures Copies(g, d) {
      var i :| 0 <= i < |up| && up[i] == d;
      assert up[..|up| - 1][i] == d;
    }
  }

  /** When the fetch gives up before it streams anything: exactly without a descriptor, with
      one the sandbox refuses, or with one that is not there, which is the only one probed. */
  lemma DiesExactly(fs: Remote, desc: string, given: string, fetchAll: bool, stems: string -> string)
    ensures var (log, outcome) := Plan(fs, desc, given, fetchAll, stems);
            var top := NormalizeRemote(Strip(desc));
            && (outcome == Died <==>
                  Strip(desc) == "" || !Permitted(top, Sandbox(Strip(desc), given)) || top !in fs)
            && (outcome == Died ==> Streams(log) == [] && (log == [] || log == [Probe(top)]))
            && (outcome == Died && Strip(desc) != "" && Permitted(top, Sandbox(Strip(desc), given))
                ==> log == [Probe(top)])
            && (outcome != Died ==>
                  && top in fs
                  && (log, outcome) == Fetch(Resolve(fs, Sandbox(Strip(desc), given), stems), top, fetchAll))
  {
    hide NormalizeRemote, Permitted, Sandbox, Resolve, Fetch;
    var top := NormalizeRemote(Strip(desc));
    assert [Probe(top)][1..] == [];
    if top in fs {
      var g := Resolve(fs, Sandbox(Strip(desc), given), stems);
      ResolvedKeys(fs, Sandbox(Strip(desc), given), stems);
      FetchExactly(g, top, fetchAll);
    }
  }

  lemma ResolvedKeys(fs: Remote, sandbox: string, stems: string -> string)
    ensures Resolve(fs, sandbox, stems).Keys == fs.Keys
  {
  }

  // ----- when the fetch leaves the sandbox

  lemma EveryStreamExists(g: Graph, top: string, fetchAll: bool)
    requires top in g
    ensures forall a | a in Fetch(g, top, fetchAll).0 && a.Stream? :: a.path in g
  {
    WalkStreamsExist(g, top, {});
  }

  lemma {:induction false} WalkStreamsExist(g: Graph, cur: string, seen: set<string>)
    requires cur in g
    ensures forall a | a in Walk(g, cur, seen).log && a.Stream? :: a.path in g
    decreases |g.Keys - seen|
  {
    if StepsUp(g, cur, seen) {
      hide Walk;
      var p := g[cur].parent.path;
      SeenGrows(g, seen, p);
      WalkStreamsExist(g, p, seen + {p});
      WalkStep(g, cur, seen);
    }
  }

  /** The fetch streams a file that is not under the sandbox it computed. */
  ghost predicate Leaks(fs: Remote, desc: string, given: string, fetchAll: bool, stems: string -> string)
  {
    exists a | a in Plan(fs, desc, given, fetchAll, stems).0 ::
      a.Stream? && !Inside(Parse(a.path), Parse(Sandbox(Strip(desc), given)))
  }

  /** The fetch gets started: an absolute, permitted, existing descriptor. */
  predicate Started(names: set<string>, desc: string, given: string)
  {
    var top := NormalizeRemote(Strip(desc));
    Strip(desc) != "" && top in names && "/" <= top && Permitted(top, Sandbox(Strip(desc), given))
  }

  /** A name outside the sandbox that the test lets pass. */
  predicate Escapes(p: string, sandbox: string)
  {
    NoBackslash(p) && Normpath(p) == p && Permitted(p, sandbox) && !Inside(Parse(p), Parse(sandbox))
  }

  /** Whatever the descriptor and the files say, a leak needs such a name on the host. */
  lemma LeakNeedsEscape(fs: Remote, desc: string, given: string, fetchAll: bool, stems: string -> string)
    returns (p: string)
    requires forall d :: NoBackslash(stems(d))
    requires Leaks(fs, desc, given, fetchAll, stems)
    ensures p in fs && Escapes(p, Sandbox(Strip(desc), given))
    ensures "/" <= NormalizeRemote(Strip(desc)) ==> "/" <= p
  {
    hide Inside, Parse, NormalizeRemote, Normpath, Permitted, Fetch;
    var sandbox := Sandbox(Strip(desc), given);
    var a :| a in Plan(fs, desc, given, fetchAll, stems).0 && a.Stream? && !Inside(Parse(a.path), Parse(sandbox));
    EveryStreamExists(Resolve(fs, sandbox, stems), NormalizeRemote(Strip(desc)), fetchAll);
    EveryAccessIsSound(fs, desc, given, fetchAll, stems);
    if "/" <= NormalizeRemote(Strip(desc)) { EveryAccessIsAbsolute(fs, desc, given, fetchAll, stems); }
    p := a.path;
  }

  /** A reference that two rounds of stripping and normalising take to `p`. */
  function Bait(p: string): string
  {
    p + "/ /."
  }

  lemma BaitIsTaken(p: string)
    requires NoBackslash(p) && Normpath(p) == p && "/" <= p && Parse(p).comps != []
    ensures NormalizeRemote(NormalizeRemote(Bait(p))) == p
  {
    var q := Parse(p);
    AbsoluteShape(p);
    var q2 := Path(q.slashes, q.comps + [" "]);
    BaitText(p, q);
    hide Parse, Render, Reduce, Push, Bait, Normal, Normpath;
    SpacedPass(p, q, q2);
  }

  lemma SpacedWords(q: Path, words: seq<string>)
    requires Normal(q) && q.comps != [] && words == q.comps + [" ", "."]
    ensures Normal(Path(q.slashes, q.comps + [" "])) && Readable(words)
  {
    assert |" "| == 1 && |"."| == 1 && NoSlash(" ") && NoSlash(".");
    assert words[0] == q.comps[0];
    assert forall w | w in words :: w in q.comps || w == " " || w == ".";
  }

  lemma SpacedTexts(p: string, q: Path)
    requires Normal(q) && Render(q) == p && q.comps != []
    ensures Text(q.slashes, q.comps + [" ", "."]) == Bait(p)
    ensures Render(Path(q.slashes, q.comps + [" "])) == p + "/ "
  {
    var q2 := Path(q.slashes, q.comps + [" "]);
    JoinSnoc(q.comps, " ");
    JoinSnoc(q2.comps, ".");
    hide Join;
    assert q.comps + [" ", "."] == q2.comps + ["."];
    assert p == Text(q.slashes, q.comps);
    assert Render(q2) == Text(q.slashes, q2.comps);
  }

  lemma BaitIsClean(p: string)
    requires NoBackslash(p) && "/" <= p
    ensures Strip(Bait(p)) == Bait(p) && NoBackslash(Bait(p)) && NoBackslash(p + "/ ")
  {
    StripTrims(Bait(p));
  }

  lemma BaitText(p: string, q: Path)
    requires NoBackslash(p) && q == Parse(p) && Normal(q) && Render(q) == p && q.slashes > 0 && q.comps != []
    ensures var q2 := Path(q.slashes, q.comps + [" "]);
            Normal(q2) && NoBackslash(Render(q2)) && NormalizeRemote(Bait(p)) == Render(q2)
  {
    var q2 := Path(q.slashes, q.comps + [" "]);
    var words := q.comps + [" ", "."];
    RenderShape(q);
    assert "/" <= p;
    SpacedWords(q, words);
    SpacedTexts(p, q);
    BaitIsClean(p);
    hide Bait, Render, Reduce, Parse, Normal, Readable, Strip, Text;
    NormalParts(q2);
    ParseText(q.slashes, words);
    assert words == q2.comps + ["."];
    ReduceSnoc(true, q2.comps, ".");
    ForwardIsIdentity(Bait(p));
    assert Push(true, q2.comps, ".") == q2.comps;
  }

  lemma NormalParts(q: Path)
    requires Normal(q)
    ensures q.slashes <= 2 && NormalComps(q.slashes > 0, q.comps)
  {
  }

  lemma SpacedPass(p: string, q: Path, q2: Path)
    requires Normal(q) && Render(q) == p && q.slashes > 0 && NoBackslash(Render(q2))
    requires q2 == Path(q.slashes, q.comps + [" "]) && Normal(q2)
    ensures NormalizeRemote(Render(q2)) == p
  {
    hide Render, Parse, Normal, NormalizeRemote, Reduce;
    ParseRender(q2);
    SecondPass(Render(q2), q2, q.comps, " ");
    assert StripRight(" ") == "";
    RootShape(Render(q2));
  }

  /** A reference that leads to `p` from every directory. */
  function Reference(p: string): string
  {
    if Parse(p).comps == [] then p else Bait(p)
  }

  lemma ReferenceIsTaken(p: string)
    requires Tidy(p)
    ensures NormalizeRemote(NormalizeRemote(Reference(p))) == p && Reference(p) != ""
  {
    if Parse(p).comps == [] {
      AbsoluteShape(p);
      RenderTrimmed(Parse(p));
      TrimmedIsFixed(p);
    } else {
      BaitIsTaken(p);
    }
  }

  lemma ReferenceLinks(f: RemoteFile, p: string, desc: string, sandbox: string, stem: string)
    requires f.extent == Named(Reference(p)) && Tidy(p) && Permitted(p, sandbox)
    ensures ExtentLink(f, desc, sandbox, stem) == To(p)
  {
    hide Parse, Normpath, Permitted, NormalizeRemote, Reference;
    ReferenceIsTaken(p);
  }

  /** A descriptor that names `p` as its extent has it streamed. */
  lemma ExtentIsStreamed(g: Graph, top: string, p: string, fetchAll: bool)
    requires top in g && p in g && g[top].extent == To(p)
    requires forall d | d in g :: !g[d].broken && g[d].streams
    ensures Stream(p) in Fetch(g, top, fetchAll).0
  {
    hide Walk;
    var e := ExtentAccesses(g, top);
    assert e.log[1] == Stream(p);
    assert Stream(p) in [Probe(top), Stream(top)] + e.log;
  }

  lemma EscapeLeaks(names: set<string>, desc: string, given: string, fetchAll: bool, stems: string -> string,
                    p: string)
    returns (fs: Remote)
    requires Started(names, desc, given) && p in names && "/" <= p && Escapes(p, Sandbox(Strip(desc), given))
    ensures fs.Keys == names && Leaks(fs, desc, given, fetchAll, stems)
  {
    hide Inside, Parse, NormalizeRemote, Normpath, Permitted, Fetch, Reference, ParentLink, ExtentLink;
    var sandbox := Sandbox(Strip(desc), given);
    var f := RemoteFile(Named(""), Named(Reference(p)), true);
    fs := map n | n in names :: f;
    var g := Resolve(fs, sandbox, stems);
    var top := NormalizeRemote(Strip(desc));
    ReferenceLinks(f, p, top, sandbox, stems(top));
    ExtentIsStreamed(g, top, p, fetchAll);
    assert Stream(p) in Plan(fs, desc, given, fetchAll, stems).0;
  }

  /** The sandbox holds exactly as far as the names on the host allow. Some contents of
      the files make a fetch stream one that is not under the sandbox, if and only if a
      name there passes the test without being under it. */
  lemma LeaksExactly(names: set<string>, desc: string, given: string, fetchAll: bool, stems: string -> string)
    requires Started(names, desc, given) && forall d :: NoBackslash(stems(d))
    ensures (exists fs: Remote :: fs.Keys == names && Leaks(fs, desc, given, fetchAll, stems)) <==>
            exists p :: p in names && "/" <= p && Escapes(p, Sandbox(Strip(desc), given))
  {
    hide Escapes;
    if fs: Remote :| fs.Keys == names && Leaks(fs, desc, given, fetchAll, stems) {
      var p := LeakNeedsEscape(fs, desc, given, fetchAll, stems);
      assert p in names && Escapes(p, Sandbox(Strip(desc), given));
    }
    if p :| p in names && "/" <= p && Escapes(p, Sandbox(Strip(desc), given)) {
      var fs := EscapeLeaks(names, desc, given, fetchAll, stems, p);
      assert fs.Keys == names && Leaks(fs, desc, given, fetchAll, stems);
    }
  }

  /** For a sandbox with a component whose text is trimmed, the names that escape are
      exactly the sandbox followed by whitespace. */
  lemma TrimmedSandboxEscapes(p: string, sandbox: string)
    requires Tidy(sandbox) && Trimmed(sandbox) && Parse(sandbox).comps != [] && Tidy(p)
    ensures Escapes(p, sandbox) <==> SpacedRoot(p, sandbox)
  {
    hide Inside, Parse, NormalizeRemote, Normpath, IsUnderRemoteRoot, Trimmed;
    TrimmedIsFixed(sandbox);
    if SpacedRoot(p, sandbox) {
      TrailingSpaceIsMisjudged(p, sandbox);
    } else {
      RootIsKeptExactly(sandbox);
    }
  }

  /** With /r as the sandbox, a file named like /r and a space beside it is streamed. */
  lemma SpacedSiblingLeaks(fetchAll: bool, stems: string -> string)
    requires forall d :: NoBackslash(stems(d))
    ensures exists fs: Remote :: fs.Keys == {"/r/x", "/r "} && Leaks(fs, "/r/x", "/r", fetchAll, stems)
  {
    SiblingEscapes();
    hide Escapes, Started;
    assert "/r " in {"/r/x", "/r "};
    LeaksExactly({"/r/x", "/r "}, "/r/x", "/r", fetchAll, stems);
  }

  lemma SiblingEscapes()
    ensures Strip("/r/x") == "/r/x" && Sandbox("/r/x", "/r") == "/r"
    ensures Started({"/r/x", "/r "}, "/r/x", "/r") && "/" <= "/r " && Escapes("/r ", "/r")
  {
    RootLiterals();
    SpaceIsStripped();
    ChildPasses();
    hide Parse, Normpath, NormalizeRemote, Strip, IsUnderRemoteRoot, Escapes;
    TrimmedSandboxEscapes("/r ", "/r");
  }

  /** With the descriptor "/a/ /x" and no root given, the sandbox is "/a/ ", the test
      guards /a instead, and /a/y is streamed. */
  lemma SpacedSandboxLeaks(fetchAll: bool, stems: string -> string)
    requires forall d :: NoBackslash(stems(d))
    ensures Sandbox(Strip("/a/ /x"), "") == "/a/ "
    ensures exists fs: Remote :: fs.Keys == {"/a/ /x", "/a/y"} && Leaks(fs, "/a/ /x", "", fetchAll, stems)
  {
    StraySandbox();
    hide Escapes, Started, Sandbox;
    assert "/a/y" in {"/a/ /x", "/a/y"};
    LeaksExactly({"/a/ /x", "/a/y"}, "/a/ /x", "", fetchAll, stems);
  }

  lemma StraySandbox()
    ensures Sandbox(Strip("/a/ /x"), "") == "/a/ "
    ensures Started({"/a/ /x", "/a/y"}, "/a/ /x", "") && "/" <= "/a/y" && Escapes("/a/y", "/a/ ")
  {
    StrayStarts();
    hide Started, Sandbox, Strip, Escapes;
    StrayEscapes();
  }

  lemma StrayStarts()
    ensures Sandbox(Strip("/a/ /x"), "") == "/a/ " && Started({"/a/ /x", "/a/y"}, "/a/ /x", "")
  {
    StrayLiterals();
    StrayTop();
    hide Parse, Normpath, NormalizeRemote, Strip, Dirname, IsUnderRemoteRoot;
    GuardedInstead("/a/ /x");
  }

  lemma StrayEscapes()
    ensures "/" <= "/a/y" && Escapes("/a/y", "/a/ ")
  {
    StrayLiterals();
    StrayWords();
    StrayTop();
    hide Parse, Normpath, NormalizeRemote, IsUnderRemoteRoot;
    assert ["a", " "][1] != ["a", "y"][1];
    GuardedInstead("/a/y");
  }

  lemma StrayTop()
    ensures Strip("/a/ /x") == "/a/ /x" == NormalizeRemote("/a/ /x") && NormalizeRemote("/a/y") == "/a/y"
    ensures Dirname("/a/ /x") == "/a/ "
  {
    StrayLiterals();
    StrayClean();
    hide Parse, Normpath, Dirname, NormalizeRemote, Strip, NoBackslash, Trimmed;
    TrimmedIsFixed("/a/ /x");
    TrimmedIsFixed("/a/y");
    DirnameOf("/a/ ", "x");
  }

  lemma StrayClean()
    ensures NoBackslash("/a/ /x") && NoBackslash("/a/y") && Trimmed("/a/ /x") && Trimmed("/a/y")
    ensures NoSlash("x") && "/a/ " + "/" + "x" == "/a/ /x" && Strip("/a/ /x") == "/a/ /x"
  {
    StripTrims("/a/ /x");
  }

  lemma StrayLiterals()
    ensures Parse("/a/ /x") == Path(1, ["a", " ", "x"]) && Normpath("/a/ /x") == "/a/ /x"
    ensures Parse("/a/y") == Path(1, ["a", "y"]) && Normpath("/a/y") == "/a/y"
    ensures Parse("/a/ ") == Path(1, ["a", " "]) && Normpath("/a/ ") == "/a/ "
  {
    StrayWords();
    hide Join, Parse, Normpath, Render, Normal;
    LiteralPath("/a/ /x", ["a", " ", "x"]);
    LiteralPath("/a/y", ["a", "y"]);
    LiteralPath("/a/ ", ["a", " "]);
  }

  lemma StrayWords()
    ensures Normal(Path(1, ["a", " ", "x"])) && Normal(Path(1, ["a", "y"])) && Normal(Path(1, ["a", " "]))
    ensures "/" + Join(["a", " ", "x"]) == "/a/ /x"
    ensures "/" + Join(["a", "y"]) == "/a/y" && "/" + Join(["a", " "]) == "/a/ "
    ensures "y" != " "
  {
    StrayNames();
    JoinSnoc([], "a");
    JoinSnoc(["a"], " ");
    JoinSnoc(["a"], "y");
    JoinSnoc(["a", " "], "x");
    hide Join, Normal;
    assert [] + ["a"] == ["a"] && ["a"] + [" "] == ["a", " "] && ["a"] + ["y"] == ["a", "y"];
    assert ["a", " "] + ["x"] == ["a", " ", "x"];
  }

  lemma StrayNames()
    ensures Normal(Path(1, ["a", " ", "x"])) && Normal(Path(1, ["a", "y"])) && Normal(Path(1, ["a", " "]))
    ensures "y" != " "
  {
    assert |"a"| == 1 && |" "| == 1 && |"x"| == 1 && |"y"| == 1 && "y"[0] != ' ';
    assert NoSlash("a") && NoSlash(" ") && NoSlash("x") && NoSlash("y");
    assert Component("a") && Component(" ") && Component("x") && Component("y");
    hide Component, NoSlash;
  }

  /** The test takes the root "/a/ " for /a. */
  lemma GuardedInstead(p: string)
    requires NormalizeRemote(p) == p && Inside(Parse(p), Path(1, ["a"]))
    ensures IsUnderRemoteRoot(p, "/a/ ")
  {
    StrayRoot();
    hide Parse, Normpath, NormalizeRemote;
    UnderRemoteRootExactly(p, "/a/ ");
  }

  lemma StrayRoot()
    ensures Parse(NormalizeRemote("/a/ ")) == Path(1, ["a"])
  {
    StrayLiterals();
    var q := Path(1, ["a", " "]);
    ParseIsNormal("/a/ ");
    assert NoBackslash("/a/ ") && ["a"] + [" "] == ["a", " "] && StripRight(" ") == "";
    assert Push(true, ["a"], "") == ["a"];
    hide Parse, Render, Reduce, NormalizeRemote, Normal, StripRight, Push;
    SecondPass("/a/ ", q, ["a"], " ");
  }

  lemma ChildPasses()
    ensures Strip("/r/x") == "/r/x" && NormalizeRemote("/r/x") == "/r/x" && NormalizeRemote("/r") == "/r"
    ensures IsUnderRemoteRoot("/r/x", "/r")
  {
    RootLiterals();
    ChildLiteral();
    StripTrims("/r/x");
    hide Parse, Normpath, IsUnderRemoteRoot;
    TrimmedIsFixed("/r");
    TrimmedIsFixed("/r/x");
    hide NormalizeRemote, Strip;
    UnderRemoteRootExactly("/r/x", "/r");
  }

  lemma SpaceIsStripped()
    ensures Strip("/r ") == "/r"
  {
    assert "/r "[..2] == "/r";
    assert StripRight("/r ") == StripRight("/r") == "/r";
  }

  lemma ChildLiteral()
    ensures Parse("/r/x") == Path(1, ["r", "x"]) && Normpath("/r/x") == "/r/x"
  {
    var q := Path(1, ["r", "x"]);
    assert |"r"| == 1 && |"x"| == 1 && NoSlash("r") && NoSlash("x");
    assert Normal(q);
    assert Join(["r", "x"]) == "r/x";
    RenderShape(q);
    assert "/" + "r/x" == "/r/x";
    ParseRender(q);
  }
}
