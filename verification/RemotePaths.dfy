/** POSIX path normalisation and the containment tests of
    h2kvm/converters/fetch.py and h2kvm/converters/flatten.py. */
module RemotePaths {
  import opened Texts

  // ----- splitting at slashes

  function Split(s: string): (r: seq<string>)
    ensures r != []
  {
    if s == [] then [[]]
    else
      var rest := Split(s[1..]);
      if s[0] == '/' then [[]] + rest else [[s[0]] + rest[0]] + rest[1..]
  }

  function Join(comps: seq<string>): string
  {
    if comps == [] then []
    else if |comps| == 1 then comps[0]
    else comps[0] + "/" + Join(comps[1..])
  }

  predicate NoSlash(w: string)
  {
    forall i | 0 <= i < |w| :: w[i] != '/'
  }

  lemma {:induction false} SplitWord(w: string)
    requires NoSlash(w)
    ensures Split(w) == [w]
  {
    if w != [] {
      SplitWord(w[1..]);
      assert [w[0]] + w[1..] == w;
    }
  }

  lemma {:induction false} SplitAfterWord(w: string, t: string)
    requires NoSlash(w)
    ensures Split(w + "/" + t) == [w] + Split(t)
  {
    var s := w + "/" + t;
    if w == [] {
      assert s[1..] == t;
    } else {
      SplitAfterWord(w[1..], t);
      assert s[1..] == w[1..] + "/" + t;
      assert [s[0]] + w[1..] == w;
    }
  }

  lemma {:induction false} SplitJoin(comps: seq<string>)
    requires comps != [] && forall w | w in comps :: NoSlash(w)
    ensures Split(Join(comps)) == comps
  {
    if |comps| == 1 {
      SplitWord(comps[0]);
    } else {
      SplitAfterWord(comps[0], Join(comps[1..]));
      SplitJoin(comps[1..]);
    }
  }

  lemma {:induction false} SplitPieces(s: string)
    ensures forall w | w in Split(s) :: NoSlash(w)
  {
    if s != [] {
      SplitPieces(s[1..]);
      var rest := Split(s[1..]);
      assert rest[0] in rest;
      forall w | w in Split(s) ensures NoSlash(w) {
        if w in rest[1..] { assert w in rest; }
      }
    }
  }

  // ----- normpath

  /** `slashes` is 0 for a relative path; POSIX keeps exactly two leading slashes. */
  datatype Path = Path(slashes: nat, comps: seq<string>)

  function LeadingSlashes(p: string): nat
  {
    if !("/" <= p) then 0
    else if "//" <= p && !("///" <= p) then 2
    else 1
  }

  /** One component against the stack of components kept so far. */
  function Push(rooted: bool, stack: seq<string>, comp: string): seq<string>
  {
    if comp == "" || comp == "." then stack
    else if comp != ".." || (!rooted && stack == []) || (stack != [] && stack[|stack| - 1] == "..")
    then stack + [comp]
    else if stack != [] then stack[..|stack| - 1]
    else stack
  }

  function Reduce(rooted: bool, stack: seq<string>, comps: seq<string>): seq<string>
    decreases |comps|
  {
    if comps == [] then stack else Reduce(rooted, Push(rooted, stack, comps[0]), comps[1..])
  }

  function Parse(p: string): Path
  {
    Path(LeadingSlashes(p), Reduce(LeadingSlashes(p) > 0, [], Split(p)))
  }

  function Slashes(n: nat): string
  {
    seq(n, _ => '/')
  }

  function Render(q: Path): string
  {
    if q.slashes == 0 && q.comps == [] then "." else Slashes(q.slashes) + Join(q.comps)
  }

  function Normpath(p: string): string
  {
    Render(Parse(p))
  }

  predicate Component(w: string)
  {
    w != "" && w != "." && NoSlash(w)
  }

  /** `..` occurs only at the front of a relative path, and never in an absolute one. */
  predicate NormalComps(rooted: bool, comps: seq<string>)
  {
    && (forall i | 0 <= i < |comps| :: Component(comps[i]))
    && (forall i | 0 <= i < |comps| && comps[i] == ".." :: !rooted && forall j | 0 <= j < i :: comps[j] == "..")
  }

  predicate Normal(q: Path)
  {
    q.slashes <= 2 && NormalComps(q.slashes > 0, q.comps)
  }

  lemma {:induction false} ReduceIsNormal(rooted: bool, stack: seq<string>, comps: seq<string>)
    requires NormalComps(rooted, stack) && forall w | w in comps :: NoSlash(w)
    ensures NormalComps(rooted, Reduce(rooted, stack, comps))
    decreases |comps|
  {
    if comps != [] {
      assert comps[0] in comps;
      ReduceIsNormal(rooted, Push(rooted, stack, comps[0]), comps[1..]);
    }
  }

  lemma ParseIsNormal(p: string)
    ensures Normal(Parse(p))
  {
    SplitPieces(p);
    ReduceIsNormal(LeadingSlashes(p) > 0, [], Split(p));
  }

  lemma {:induction false} ReduceNormal(rooted: bool, stack: seq<string>, comps: seq<string>)
    requires NormalComps(rooted, stack + comps)
    ensures Reduce(rooted, stack, comps) == stack + comps
    decreases |comps|
  {
    if comps == [] {
      assert stack + comps == stack;
    } else {
      var all := stack + comps;
      assert all[|stack|] == comps[0];
      if comps[0] == ".." && stack != [] { assert all[|stack| - 1] == ".."; }
      assert Push(rooted, stack, comps[0]) == stack + [comps[0]];
      assert stack + [comps[0]] + comps[1..] == all;
      ReduceNormal(rooted, stack + [comps[0]], comps[1..]);
    }
  }

  lemma JoinStart(comps: seq<string>)
    requires comps != [] && comps[0] != []
    ensures Join(comps) != [] && Join(comps)[0] == comps[0][0]
  {
  }

  lemma LeadingSlashesByIndex(t: string)
    ensures LeadingSlashes(t) ==
            if |t| == 0 || t[0] != '/' then 0
            else if |t| >= 2 && t[1] == '/' && (|t| == 2 || t[2] != '/') then 2
            else 1
  {
    if |t| >= 3 { assert t[..3] == [t[0], t[1], t[2]]; }
    if |t| >= 2 { assert t[..2] == [t[0], t[1]]; }
    if |t| >= 1 { assert t[..1] == [t[0]]; }
  }

  lemma RenderLeadingSlashes(q: Path)
    requires Normal(q)
    ensures LeadingSlashes(Render(q)) == q.slashes
  {
    var t := Render(q);
    if q.comps == [] {
      assert Join(q.comps) == [];
    } else {
      JoinStart(q.comps);
      assert t[q.slashes] == q.comps[0][0];
    }
    assert forall i | 0 <= i < q.slashes :: t[i] == '/';
    LeadingSlashesByIndex(t);
  }

  lemma ReduceSkips(rooted: bool, comps: seq<string>)
    requires comps != [] && (comps[0] == "" || comps[0] == ".")
    ensures Reduce(rooted, [], comps) == Reduce(rooted, [], comps[1..])
  {
  }

  lemma ReduceAfterSlash(rooted: bool, t: string)
    ensures Reduce(rooted, [], Split("/" + t)) == Reduce(rooted, [], Split(t))
  {
    SplitAfterWord([], t);
    assert [] + "/" + t == "/" + t;
    assert Split("/" + t)[1..] == Split(t);
    ReduceSkips(rooted, Split("/" + t));
  }

  lemma ReduceJoined(rooted: bool, comps: seq<string>)
    requires NormalComps(rooted, comps)
    ensures Reduce(rooted, [], Split(Join(comps))) == comps
  {
    if comps == [] {
      ReduceSkips(rooted, Split([]));
    } else {
      SplitJoin(comps);
      ReduceNormal(rooted, [], comps);
      assert [] + comps == comps;
    }
  }

  /** Reading back a rendered normal path gives the same path. */
  lemma ParseRender(q: Path)
    requires Normal(q)
    ensures Parse(Render(q)) == q
  {
    hide Split, Reduce, Join, LeadingSlashes, Render;
    RenderLeadingSlashes(q);
    var rooted, tail := q.slashes > 0, Join(q.comps);
    RenderShape(q);
    if q.slashes == 0 && q.comps == [] {
      ReduceDot();
    } else {
      ReduceJoined(rooted, q.comps);
      ReduceAfterSlash(rooted, tail);
      ReduceAfterSlash(rooted, "/" + tail);
    }
  }

  lemma RenderShape(q: Path)
    requires Normal(q)
    ensures q.slashes == 0 && q.comps == [] ==> Render(q) == "."
    ensures q.slashes == 0 && q.comps != [] ==> Render(q) == Join(q.comps)
    ensures q.slashes == 1 ==> Render(q) == "/" + Join(q.comps)
    ensures q.slashes == 2 ==> Render(q) == "/" + ("/" + Join(q.comps))
  {
    hide Join;
  }

  lemma ReduceDot()
    ensures Reduce(false, [], Split(".")) == []
  {
    SplitWord(".");
    ReduceSkips(false, ["."]);
  }

  /** normpath is idempotent, and a normalised path reads back as the same components. */
  lemma NormpathIdempotent(p: string)
    ensures Normpath(Normpath(p)) == Normpath(p)
    ensures Parse(Normpath(p)) == Parse(p)
    ensures LeadingSlashes(p) > 0 ==> ".." !in Parse(p).comps
  {
    ParseIsNormal(p);
    ParseRender(Parse(p));
  }

  // ----- what a path means

  /** Follow the components literally from a directory; `..` at the top stays there. */
  function Follow(at: seq<string>, comps: seq<string>): seq<string>
    decreases |comps|
  {
    if comps == [] then at
    else if comps[0] == "" || comps[0] == "." then Follow(at, comps[1..])
    else if comps[0] == ".." then Follow(if at == [] then [] else at[..|at| - 1], comps[1..])
    else Follow(at + [comps[0]], comps[1..])
  }

  lemma {:induction false} FollowAppend(at: seq<string>, x: seq<string>, y: seq<string>)
    ensures Follow(at, x + y) == Follow(Follow(at, x), y)
    decreases |x|
  {
    if x == [] {
      assert x + y == y;
    } else {
      assert (x + y)[1..] == x[1..] + y;
      FollowAppend(if x[0] == "" || x[0] == "." then at
                   else if x[0] == ".." then (if at == [] then [] else at[..|at| - 1])
                   else at + [x[0]], x[1..], y);
    }
  }

  lemma PushKeepsMeaning(at: seq<string>, rooted: bool, stack: seq<string>, comp: string)
    requires rooted ==> at == []
    requires NormalComps(rooted, stack)
    ensures Follow(at, Push(rooted, stack, comp)) == Follow(Follow(at, stack), [comp])
  {
    FollowAppend(at, stack, [comp]);
    if comp == ".." && stack != [] && stack[|stack| - 1] != ".." {
      var n := |stack| - 1;
      assert stack == stack[..n] + [stack[n]];
      FollowAppend(at, stack[..n], [stack[n]]);
      var here := Follow(at, stack[..n]);
      assert (here + [stack[n]])[..|here|] == here;
    }
  }

  lemma {:induction false} ReduceKeepsMeaning(at: seq<string>, rooted: bool, stack: seq<string>, comps: seq<string>)
    requires rooted ==> at == []
    requires NormalComps(rooted, stack) && forall w | w in comps :: NoSlash(w)
    ensures Follow(at, Reduce(rooted, stack, comps)) == Follow(Follow(at, stack), comps)
    decreases |comps|
  {
    if comps != [] {
      var next := Push(rooted, stack, comps[0]);
      assert comps[0] in comps;
      PushKeepsMeaning(at, rooted, stack, comps[0]);
      ReduceKeepsMeaning(at, rooted, next, comps[1..]);
      FollowAppend(Follow(at, stack), [comps[0]], comps[1..]);
      assert [comps[0]] + comps[1..] == comps;
    }
  }

  /** normpath preserves meaning: the normalised path leads, from the root when absolute
      and from every directory when relative, where the original text leads. */
  lemma NormpathKeepsMeaning(p: string, cwd: seq<string>)
    ensures var at := if LeadingSlashes(p) > 0 then [] else cwd;
            Follow(at, Split(p)) == Follow(at, Parse(Normpath(p)).comps)
  {
    var at := if LeadingSlashes(p) > 0 then [] else cwd;
    NormpathIdempotent(p);
    SplitPieces(p);
    ReduceKeepsMeaning(at, LeadingSlashes(p) > 0, [], Split(p));
  }

  /** So the components of an absolute path are where following its text leads. */
  lemma AbsoluteLeads(p: string)
    requires LeadingSlashes(p) > 0
    ensures Parse(p).comps == Follow([], Split(p))
  {
    NormpathKeepsMeaning(p, []);
    NormpathIdempotent(p);
    ParseIsNormal(p);
    FollowNames([], Parse(p).comps);
  }

  // ----- containment on strings and on components

  lemma WordPrefix(x: string, s: string, y: string, t: string)
    requires NoSlash(x) && NoSlash(y)
    ensures x + "/" + s <= y + "/" + t <==> x == y && s <= t
  {
    var l, r := x + "/" + s, y + "/" + t;
    assert l[|x|] == '/' && (forall i | 0 <= i < |x| :: l[i] == x[i] != '/');
    assert r[|y|] == '/' && (forall i | 0 <= i < |y| :: r[i] == y[i] != '/');
    if l <= r {
      assert l == r[..|l|];
      assert r[|x|] == '/' && l[..|x|] == r[..|x|];
      assert |x| == |y|;
      assert x == l[..|x|] && y == r[..|y|];
      assert s == l[|x| + 1..] && t == r[|x| + 1..];
    }
    if x == y && s <= t {
      assert r == l + t[|s|..];
    }
  }

  lemma NoWordHasSlash(x: string, y: string)
    requires NoSlash(y)
    ensures !(x + "/" <= y)
  {
    assert (x + "/")[|x|] == '/';
  }

  lemma {:induction false} JoinPrefix(a: seq<string>, b: seq<string>)
    requires a != [] && (forall w | w in a :: NoSlash(w)) && (forall w | w in b :: NoSlash(w))
    ensures Join(a) + "/" <= Join(b) <==> |a| < |b| && a <= b
  {
    JoinCons(a);
    JoinCons(b);
    hide Join;
    if |b| <= 1 {
      NoWordHasSlash(Join(a), Join(b));
    } else {
      PrefixCons(a, b);
      if |a| == 1 {
        WordPrefix(a[0], [], b[0], Join(b[1..]));
        assert a[0] + "/" + [] == Join(a) + "/";
      } else {
        WordPrefix(a[0], Join(a[1..]) + "/", b[0], Join(b[1..]));
        assert a[0] + "/" + (Join(a[1..]) + "/") == Join(a) + "/";
        JoinPrefix(a[1..], b[1..]);
      }
    }
  }

  lemma JoinCons(comps: seq<string>)
    ensures comps == [] ==> Join(comps) == []
    ensures |comps| == 1 ==> Join(comps) == comps[0]
    ensures |comps| > 1 ==> Join(comps) == comps[0] + "/" + Join(comps[1..])
  {
  }

  lemma PrefixCons(a: seq<string>, b: seq<string>)
    requires a != [] && b != []
    ensures a <= b <==> a[0] == b[0] && a[1..] <= b[1..]
  {
    if a[0] == b[0] && a[1..] <= b[1..] {
      assert forall i | 0 <= i < |a| :: i == 0 || a[i] == a[1..][i - 1] == b[1..][i - 1] == b[i];
    }
  }

  /** Component-wise containment. */
  predicate Inside(p: Path, root: Path)
  {
    p.slashes == root.slashes && root.comps <= p.comps
  }

  lemma SlashesPrefix(m: nat, x: string, n: nat, y: string)
    requires x != [] && x[0] != '/' && (y == [] || y[0] != '/')
    ensures Slashes(m) + x <= Slashes(n) + y <==> m == n && x <= y
  {
    var l, r := Slashes(m) + x, Slashes(n) + y;
    assert l[m] != '/' && forall i | 0 <= i < m :: l[i] == '/';
    assert (n < |r| ==> r[n] != '/') && forall i | 0 <= i < n :: r[i] == '/';
    if l <= r {
      assert r[m] == l[m];
      assert m == n;
      assert x == l[m..] && y == r[m..];
    }
    if m == n && x <= y { assert r == l + y[|x|..]; }
  }

  /** The string test `path == root or path.startswith(root + "/")` is exactly
      component-wise containment, for every normal root that has a component. */
  lemma StringTestIsContainment(p: Path, root: Path)
    requires Normal(p) && Normal(root) && root.comps != []
    ensures (Render(p) == Render(root) || Render(root) + "/" <= Render(p)) <==> Inside(p, root)
  {
    var x, y := Join(root.comps) + "/", Join(p.comps);
    JoinStart(root.comps);
    if p.comps != [] { JoinStart(p.comps); }
    JoinPrefix(root.comps, p.comps);
    assert Render(root) + "/" == Slashes(root.slashes) + x;
    ParseRender(p);
    ParseRender(root);
    if p.slashes == 0 && p.comps == [] {
      assert |Render(root) + "/"| > |Render(p)|;
    } else {
      SlashesPrefix(root.slashes, x, p.slashes, y);
    }
    if Inside(p, root) && |p.comps| == |root.comps| { assert p.comps == root.comps; }
  }

  // ----- fetch.py

  function Forward(s: string): (r: string)
    ensures |r| == |s| && forall i | 0 <= i < |s| :: r[i] == (if s[i] == '\\' then '/' else s[i])
  {
    seq(|s|, i requires 0 <= i < |s| => if s[i] == '\\' then '/' else s[i])
  }

  function NormalizeRemote(p: string): string
  {
    Normpath(Forward(Strip(p)))
  }

  function PosixJoin(a: string, b: string): string
  {
    if "/" <= b then b
    else if a == [] || a[|a| - 1] == '/' then a + b
    else a + "/" + b
  }

  function PosixJoinNorm(baseDir: string, rel: string): string
  {
    var b, r := NormalizeRemote(baseDir), NormalizeRemote(rel);
    if "/" <= r then Normpath(r) else Normpath(PosixJoin(b, r))
  }

  function StripTrailingSlashes(s: string): string
  {
    if s != [] && s[|s| - 1] == '/' then StripTrailingSlashes(s[..|s| - 1]) else s
  }

  predicate IsUnderRemoteRoot(path: string, root: string)
  {
    root == "" ||
    var p, r := NormalizeRemote(path), NormalizeRemote(root);
    r == "/" || p == r || StripTrailingSlashes(r) + "/" <= p
  }

  lemma {:induction false} JoinEnd(comps: seq<string>)
    requires comps != [] && forall i | 0 <= i < |comps| :: Component(comps[i])
    ensures Join(comps) != [] && Join(comps)[|Join(comps)| - 1] != '/'
  {
    if |comps| == 1 {
      assert comps[0][|comps[0]| - 1] in comps[0];
    } else {
      JoinEnd(comps[1..]);
    }
  }

  lemma RootedTest(p: Path, r: Path)
    requires Normal(p) && Normal(r) && r.comps != []
    ensures StripTrailingSlashes(Render(r)) == Render(r) && Render(r) != "/"
    ensures (Render(p) == Render(r) || StripTrailingSlashes(Render(r)) + "/" <= Render(p)) <==> Inside(p, r)
  {
    JoinEnd(r.comps);
    var t := Render(r);
    assert t[|t| - 1] == Join(r.comps)[|Join(r.comps)| - 1];
    StringTestIsContainment(p, r);
  }

  lemma DoubleSlashTest(p: Path)
    requires Normal(p)
    ensures (Render(p) == "//" || StripTrailingSlashes("//") + "/" <= Render(p)) <==> p.slashes > 0
  {
    assert "//"[..1] == "/" && "/"[..0] == "";
    assert StripTrailingSlashes("//") == StripTrailingSlashes("/") == "";
    assert "" + "/" == "/";
    RenderLeadingSlashes(p);
    assert LeadingSlashes(Render(p)) > 0 <==> "/" <= Render(p);
  }

  lemma DotTest(p: Path)
    requires Normal(p)
    ensures (Render(p) == "." || StripTrailingSlashes(".") + "/" <= Render(p)) <==> p == Path(0, [])
  {
    ParseRender(p);
    ParseRender(Path(0, []));
    RenderLeadingSlashes(p);
    if p.slashes == 0 && p.comps != [] {
      assert Render(p) == Join(p.comps);
      DotComponent(p.comps);
    }
  }

  lemma DotComponent(comps: seq<string>)
    requires comps != [] && Component(comps[0])
    ensures !("./" <= Join(comps))
  {
    var w, t := comps[0], Join(comps);
    assert w <= t;
    assert |w| >= 2 ==> t[1] == w[1] != '/';
    assert |w| == 1 ==> w == [w[0]] && t[0] == w[0] != '.';
  }

  /** What `_is_under_remote_root` decides about the normalised texts: containment by
      components for a root with components; everything for `/`; every absolute path
      for `//`; only itself for `.`. */
  lemma UnderRemoteRootExactly(path: string, root: string)
    requires root != ""
    ensures var p, r := Parse(NormalizeRemote(path)), Parse(NormalizeRemote(root));
            IsUnderRemoteRoot(path, root) <==>
            if r.comps != [] then Inside(p, r)
            else if r.slashes == 1 then true
            else if r.slashes == 2 then p.slashes > 0
            else p == r
  {
    var pt, rt := Forward(Strip(path)), Forward(Strip(root));
    var p, r := Parse(pt), Parse(rt);
    NormpathIdempotent(pt);
    NormpathIdempotent(rt);
    ParseIsNormal(pt);
    ParseIsNormal(rt);
    assert Join([]) == [];
    if r.comps != [] {
      RootedTest(p, r);
    } else if r.slashes == 2 {
      assert Render(r) == "//";
      DoubleSlashTest(p);
    } else if r.slashes == 0 {
      DotTest(p);
    } else {
      assert Render(r) == "/";
    }
  }

  // ----- characters and length under normpath

  predicate NoBackslash(s: string)
  {
    forall i | 0 <= i < |s| :: s[i] != '\\'
  }

  lemma {:induction false} SplitNoBackslash(s: string)
    requires NoBackslash(s)
    ensures forall w | w in Split(s) :: NoBackslash(w)
  {
    if s != [] {
      SplitNoBackslash(s[1..]);
      var rest := Split(s[1..]);
      assert rest[0] in rest;
      forall w | w in Split(s) ensures NoBackslash(w) {
        if w in rest[1..] { assert w in rest; }
      }
    }
  }

  lemma {:induction false} ReduceOnlyKeeps(rooted: bool, stack: seq<string>, comps: seq<string>)
    ensures forall w | w in Reduce(rooted, stack, comps) :: w in stack || w in comps
    decreases |comps|
  {
    if comps != [] { ReduceOnlyKeeps(rooted, Push(rooted, stack, comps[0]), comps[1..]); }
  }

  lemma {:induction false} JoinNoBackslash(comps: seq<string>)
    requires forall w | w in comps :: NoBackslash(w)
    ensures NoBackslash(Join(comps))
  {
    if |comps| == 1 {
      assert comps[0] in comps;
    } else if |comps| > 1 {
      assert comps[0] in comps;
      JoinNoBackslash(comps[1..]);
    }
  }

  lemma NormpathNoBackslash(p: string)
    requires NoBackslash(p)
    ensures NoBackslash(Normpath(p))
  {
    SplitNoBackslash(p);
    ReduceOnlyKeeps(LeadingSlashes(p) > 0, [], Split(p));
    JoinNoBackslash(Parse(p).comps);
  }

  /** Characters plus one separator per component. */
  function Weight(comps: seq<string>): nat
  {
    if comps == [] then 0 else |comps[0]| + 1 + Weight(comps[1..])
  }

  lemma {:induction false} WeightAppend(x: seq<string>, y: seq<string>)
    ensures Weight(x + y) == Weight(x) + Weight(y)
  {
    if x == [] {
      assert x + y == y;
    } else {
      assert (x + y)[1..] == x[1..] + y;
      WeightAppend(x[1..], y);
    }
  }

  lemma {:induction false} SplitWeight(s: string)
    ensures Weight(Split(s)) == |s| + 1
  {
    if s != [] {
      SplitWeight(s[1..]);
      var rest := Split(s[1..]);
      assert Split(s)[1..] == if s[0] == '/' then rest else rest[1..];
    }
  }

  lemma {:induction false} JoinWeight(comps: seq<string>)
    ensures comps != [] ==> |Join(comps)| + 1 == Weight(comps)
  {
    if |comps| > 1 { JoinWeight(comps[1..]); }
  }

  lemma {:induction false} ReduceWeight(rooted: bool, stack: seq<string>, comps: seq<string>)
    ensures Weight(Reduce(rooted, stack, comps)) <= Weight(stack) + Weight(comps)
    decreases |comps|
  {
    if comps != [] {
      var next := Push(rooted, stack, comps[0]);
      WeightAppend(stack, [comps[0]]);
      if stack != [] {
        var n := |stack| - 1;
        assert stack == stack[..n] + [stack[n]];
        WeightAppend(stack[..n], [stack[n]]);
      }
      assert Weight([comps[0]]) == |comps[0]| + 1;
      ReduceWeight(rooted, next, comps[1..]);
    }
  }

  lemma NormpathShrinks(p: string)
    ensures p != "" ==> |Normpath(p)| <= |p|
  {
    var n := LeadingSlashes(p);
    LeadingSlashesByIndex(p);
    var rest := p[n..];
    SplitWeight(rest);
    ReduceWeight(n > 0, [], Split(rest));
    if n > 0 {
      ReduceAfterSlash(true, p[1..]);
      assert "/" + p[1..] == p;
      if n == 2 { ReduceAfterSlash(true, rest); assert "/" + rest == p[1..]; }
    }
    assert Parse(p).comps == Reduce(n > 0, [], Split(rest));
    JoinWeight(Parse(p).comps);
  }

  /** The normalised path of a path. */
  lemma NormalizeRemoteShape(p: string)
    ensures NoBackslash(NormalizeRemote(p))
    ensures Normpath(NormalizeRemote(p)) == NormalizeRemote(p)
  {
    NormpathNoBackslash(Forward(Strip(p)));
    NormpathIdempotent(Forward(Strip(p)));
  }

  lemma ForwardIsIdentity(s: string)
    requires NoBackslash(s)
    ensures Forward(s) == s
  {
  }

  /** A path that is normal, free of backslashes and trimmed is left alone. */
  lemma TrimmedIsFixed(q: string)
    requires NoBackslash(q) && Normpath(q) == q && Trimmed(q)
    ensures NormalizeRemote(q) == q
  {
    StripTrims(q);
    ForwardIsIdentity(q);
  }

  /** The last character of a non-empty text is whitespace. */
  predicate EndsInSpace(w: string)
  {
    w != [] && IsSpace(w[|w| - 1])
  }

  /** A component list whose text neither begins nor ends with whitespace. */
  predicate OuterTrimmed(q: Path)
  {
    q.comps != [] ==>
      && (q.slashes == 0 ==> q.comps[0] != [] ==> !IsSpace(q.comps[0][0]))
      && !EndsInSpace(q.comps[|q.comps| - 1])
  }

  lemma {:induction false} JoinSnoc(front: seq<string>, w: string)
    ensures Join(front + [w]) == if front == [] then w else Join(front) + "/" + w
  {
    if front != [] {
      JoinSnoc(front[1..], w);
      assert (front + [w])[1..] == front[1..] + [w];
    } else {
      assert front + [w] == [w];
    }
  }

  lemma JoinLast(comps: seq<string>)
    requires comps != [] && comps[|comps| - 1] != []
    ensures var w := comps[|comps| - 1]; Join(comps) != [] && Join(comps)[|Join(comps)| - 1] == w[|w| - 1]
  {
    var n := |comps| - 1;
    assert comps == comps[..n] + [comps[n]];
    JoinSnoc(comps[..n], comps[n]);
  }

  lemma RenderTrimmed(q: Path)
    requires Normal(q)
    ensures Trimmed(Render(q)) <==> OuterTrimmed(q)
  {
    hide Join;
    RenderShape(q);
    if q.comps != [] {
      JoinStart(q.comps);
      JoinLast(q.comps);
    } else {
      assert Join(q.comps) == [] by { JoinNothing(); }
    }
  }

  lemma JoinNothing()
    ensures Join([]) == []
  {
  }

  /** `_normalize_remote_path` strips before it normalises, so it is not idempotent: a
      second pass changes nothing exactly when, among the components the input keeps, the
      first of a relative path does not begin with whitespace and the last does not end
      with it. */
  lemma NormalizeRemoteIdempotentExactly(p: string)
    ensures NormalizeRemote(NormalizeRemote(p)) == NormalizeRemote(p) <==> OuterTrimmed(Parse(Forward(Strip(p))))
  {
    var q := NormalizeRemote(p);
    ParseIsNormal(Forward(Strip(p)));
    RenderTrimmed(Parse(Forward(Strip(p))));
    NormalizeRemoteShape(p);
    StripTrims(q);
    if Trimmed(q) {
      TrimmedIsFixed(q);
    } else {
      StripShortens(q);
      NormpathShrinks(Forward(Strip(q)));
      if Strip(q) == [] {
        assert Forward(Strip(q)) == [];
        SplitWord([]);
        assert NormalizeRemote(q) == "." && Trimmed(".");
      }
    }
  }

  lemma {:induction false} SplitKeepsChars(s: string)
    ensures forall w, c | w in Split(s) && c in w :: c in s
  {
    if s != [] { SplitKeepsChars(s[1..]); }
  }

  /** So without inner whitespace one pass is enough. */
  lemma NoInnerSpaceIsStable(p: string)
    requires forall c | c in Strip(p) :: !IsSpace(c)
    ensures NormalizeRemote(NormalizeRemote(p)) == NormalizeRemote(p)
  {
    var t := Forward(Strip(p));
    ForwardHasNoSpace(Strip(p));
    hide IsSpace, NormalizeRemote, Parse, OuterTrimmed, Strip, Forward;
    NormalizeRemoteIdempotentExactly(p);
    SpacelessIsTrimmed(t);
  }

  lemma ForwardHasNoSpace(s: string)
    requires forall c | c in s :: !IsSpace(c)
    ensures forall c | c in Forward(s) :: !IsSpace(c)
  {
    forall c | c in Forward(s) ensures !IsSpace(c) {
      var i :| 0 <= i < |s| && Forward(s)[i] == c;
      assert s[i] in s;
    }
  }

  lemma ParseKeepsChars(t: string)
    ensures forall w, c | w in Parse(t).comps && c in w :: c in t
  {
    SplitKeepsChars(t);
    ReduceOnlyKeeps(LeadingSlashes(t) > 0, [], Split(t));
  }

  lemma SpacelessIsTrimmed(t: string)
    requires forall c | c in t :: !IsSpace(c)
    ensures OuterTrimmed(Parse(t))
  {
    hide IsSpace, Parse;
    ParseKeepsChars(t);
    ParseIsNormal(t);
    var q := Parse(t);
    if q.comps != [] {
      var first, last := q.comps[0], q.comps[|q.comps| - 1];
      assert first in q.comps && last in q.comps;
      assert first[0] in first && last[|last| - 1] in last;
    }
  }

  lemma StripShortens(q: string)
    requires !Trimmed(q)
    ensures |Strip(q)| < |q|
  {
    StripLeftTrims(q);
    StripRightTrims(StripLeft(q));
    StripTrims(q);
  }

  lemma InnerSpaceSurfaces()
    ensures NormalizeRemote("./ x") == " x" && NormalizeRemote(" x") == "x"
  {
    hide Normpath;
    assert Strip("./ x") == "./ x" && Forward("./ x") == "./ x";
    assert StripLeft(" x") == StripLeft("x") == "x" by { assert " x"[1..] == "x"; }
    assert Strip(" x") == "x" && Forward("x") == "x";
    assert "./" + " x" == "./ x" && |"x"| == 1 && |" x"| == 2 && " x"[0] != '.';
    WordIsNormal("x");
    WordIsNormal(" x");
  }

  lemma WordIsNormal(w: string)
    requires Component(w) && w != ".."
    ensures Normpath(w) == w && Normpath("./" + w) == w
  {
    hide Split, Reduce;
    var q := Path(0, [w]);
    ParseRender(q);
    RenderShape(q);
    assert "." + "/" + w == "./" + w;
    SplitAfterWord(".", w);
    SplitWord(w);
    assert Split("./" + w) == [".", w] && [".", w][1..] == [w];
    ReduceSkips(false, [".", w]);
    LeadingSlashesByIndex("./" + w);
    assert LeadingSlashes("./" + w) == 0 == LeadingSlashes(w);
    assert Parse("./" + w) == Parse(w);
  }

  // ----- what the sandbox test does with an absolute path

  /** The text of words between slashes, behind leading slashes. */
  function Text(slashes: nat, words: seq<string>): string
  {
    Slashes(slashes) + Join(words)
  }

  /** Words that read back from their text: only a single word may be empty. */
  predicate Readable(words: seq<string>)
  {
    && words != []
    && (forall w | w in words :: NoSlash(w))
    && (words[0] == "" ==> |words| == 1)
  }

  lemma TextSlashes(n: nat, words: seq<string>)
    requires n <= 2 && Readable(words)
    ensures LeadingSlashes(Text(n, words)) == n
  {
    var t := Text(n, words);
    assert forall i | 0 <= i < n :: t[i] == '/';
    LeadingSlashesByIndex(t);
    if words[0] == "" {
      assert words == [""] && Join(words) == "";
    } else {
      JoinStart(words);
      assert words[0] in words;
      assert t[n] == words[0][0] != '/';
    }
  }

  /** Reading a text reduces its words. */
  lemma ParseText(n: nat, words: seq<string>)
    requires n <= 2 && Readable(words)
    ensures Parse(Text(n, words)) == Path(n, Reduce(n > 0, [], words))
  {
    hide Split, Reduce, Join, LeadingSlashes;
    TextSlashes(n, words);
    SplitJoin(words);
    var t := Join(words);
    ReduceAfterSlash(n > 0, t);
    ReduceAfterSlash(n > 0, "/" + t);
    assert Text(n, words) == (if n == 0 then t else if n == 1 then "/" + t else "/" + ("/" + t));
  }

  lemma TextInjective(n: nat, a: seq<string>, m: nat, b: seq<string>)
    requires n <= 2 && m <= 2 && Readable(a) && Readable(b)
    ensures Text(n, a) == Text(m, b) <==> n == m && a == b
  {
    hide Join, Split, LeadingSlashes, Readable;
    if Text(n, a) == Text(m, b) {
      TextSlashes(n, a);
      TextSlashes(m, b);
      assert Text(n, a)[n..] == Join(a) && Text(m, b)[m..] == Join(b);
      UnjoinBoth(a, b);
    }
  }

  lemma UnjoinBoth(a: seq<string>, b: seq<string>)
    requires Readable(a) && Readable(b) && Join(a) == Join(b)
    ensures a == b
  {
    hide Join, Split;
    SplitJoin(a);
    SplitJoin(b);
  }

  lemma {:induction false} StripRightAppend(head: string, w: string)
    requires head != [] && !IsSpace(head[|head| - 1])
    ensures StripRight(head + w) == head + StripRight(w)
  {
    hide IsSpace;
    if w == [] {
      assert head + w == head;
    } else if IsSpace(w[|w| - 1]) {
      StripRightAppend(head, w[..|w| - 1]);
      assert (head + w)[..|head + w| - 1] == head + w[..|w| - 1];
    }
  }

  lemma StripLeftKeeps(s: string)
    requires s != [] && !IsSpace(s[0])
    ensures StripLeft(s) == s
  {
  }

  /** Stripping an absolute path touches only the end of its last component. */
  lemma StripText(n: nat, front: seq<string>, last: string)
    requires n > 0
    ensures Strip(Text(n, front + [last])) == Text(n, front + [StripRight(last)])
  {
    var head := Slashes(n) + if front == [] then "" else Join(front) + "/";
    TextSnoc(n, front, last);
    TextSnoc(n, front, StripRight(last));
    assert head[0] == '/' && head[|head| - 1] == '/' && (head + last)[0] == '/';
    hide Join, Text, Slashes, StripLeft, StripRight;
    StripLeftKeeps(head + last);
    StripRightAppend(head, last);
  }

  lemma TextSnoc(n: nat, front: seq<string>, w: string)
    ensures Text(n, front + [w]) == Slashes(n) + (if front == [] then "" else Join(front) + "/") + w
  {
    JoinSnoc(front, w);
    hide Join;
  }

  lemma StrippedWord(w: string)
    ensures StripRight(w) <= w && (StripRight(w) == w <==> !EndsInSpace(w))
  {
    StripRightTrims(w);
  }

  lemma ReduceSnoc(rooted: bool, front: seq<string>, w: string)
    requires NormalComps(rooted, front)
    ensures Reduce(rooted, [], front + [w]) == Push(rooted, front, w)
  {
    ReduceConcat(rooted, [], front, [w]);
    ReduceNormal(rooted, [], front);
    assert [] + front == front;
  }

  /** What the second normalisation makes of a normal absolute path. */
  lemma SecondPass(p: string, q: Path, front: seq<string>, last: string)
    requires NoBackslash(p) && q == Parse(p) && p == Render(q) && Normal(q)
    requires q.slashes > 0 && q.comps == front + [last]
    ensures Strip(p) == Text(q.slashes, front + [StripRight(last)])
    ensures Readable(front + [StripRight(last)])
    ensures Parse(NormalizeRemote(p)) == Path(q.slashes, Push(true, front, StripRight(last)))
  {
    hide Join, Split, Reduce, Push, LeadingSlashes;
    assert p == Text(q.slashes, front + [last]);
    StripText(q.slashes, front, last);
    WordsStayReadable(q, front, last);
    ParseText(q.slashes, front + [StripRight(last)]);
    ReduceSnoc(true, front, StripRight(last));
    StripTrims(p);
    StripNoBackslash(p);
    ForwardIsIdentity(Strip(p));
    NormpathIdempotent(Strip(p));
  }

  lemma WordsStayReadable(q: Path, front: seq<string>, last: string)
    requires Normal(q) && q.comps == front + [last]
    ensures Readable(front + [StripRight(last)]) && NormalComps(q.slashes > 0, front)
  {
    StrippedWord(last);
    assert last == q.comps[|front|];
    assert forall i | 0 <= i < |front| :: front[i] == q.comps[i];
    assert forall w | w in front + [StripRight(last)] :: w in front || w == StripRight(last);
  }

  lemma StripNoBackslash(p: string)
    requires NoBackslash(p)
    ensures NoBackslash(Strip(p))
  {
    StripTrims(p);
    forall i | 0 <= i < |Strip(p)| ensures Strip(p)[i] != '\\' {
      assert Strip(p)[i] in Strip(p);
    }
  }

  lemma SnocInjective(a: seq<string>, x: string, b: seq<string>, y: string)
    ensures a + [x] == b + [y] <==> a == b && x == y
  {
    if a + [x] == b + [y] {
      assert |a| == |b|;
      assert a == (a + [x])[..|a|] && b == (b + [y])[..|b|];
      assert x == (a + [x])[|a|] && y == (b + [y])[|b|];
    }
  }

  /** The components alone: `w` is what stripping leaves of the last of `front + [last]`. */
  lemma StrippedComponents(front: seq<string>, last: string, w: string, root: seq<string>)
    requires NormalComps(true, front + [last]) && NormalComps(true, root) && root != [] && w <= last
    ensures root <= Push(true, front, w) <==>
            || front + [w] == root
            || (root <= front + [last] && front + [w] != root + [".."] && (w == last || front + [last] != root))
  {
    var n := |front|;
    assert (front + [last])[n] == last;
    assert forall i | 0 <= i < n :: (front + [last])[i] == front[i];
    if front + [w] == root { assert root[n] == w; }
    assert root <= front + [last] <==> root <= front || root == front + [last];
    SnocInjective(front, w, root, "..");
    if w != "" && w != "." && w != ".." {
      assert Push(true, front, w) == front + [w];
      assert root <= front + [w] <==> root <= front || root == front + [w];
      assert front + [w] == front + [last] <==> w == last by {
        if front + [w] == front + [last] { assert (front + [w])[n] == w; }
      }
    } else if w == ".." {
      assert last != "..";
      assert Push(true, front, w) == if n == 0 then [] else front[..n - 1];
    }
  }

  /** What the test decides about a normal absolute path, exactly, for a root with a
      component. It reads the path stripped: so it also passes the root followed by
      whitespace, and it refuses a `..` followed by whitespace right below the root, and
      a root that itself ends with whitespace. */
  lemma SandboxTestExactly(p: string, root: string)
    requires NoBackslash(p) && Normpath(p) == p && "/" <= p
    requires root != "" && Parse(NormalizeRemote(root)).comps != []
    ensures var r := NormalizeRemote(root);
            IsUnderRemoteRoot(p, root) <==>
            || Strip(p) == r
            || (Inside(Parse(p), Parse(r)) && Strip(p) != r + "/.." && (Trimmed(p) || p != r))
  {
    hide Inside, Trimmed, IsUnderRemoteRoot, Reduce, Split, Join, LeadingSlashes, NormalizeRemote;
    var q, r := Parse(p), Parse(NormalizeRemote(root));
    UnderRemoteRootExactly(p, root);
    AbsoluteShape(p);
    RootShape(root);
    if q.comps == [] {
      BarePath(p, q, r, NormalizeRemote(root));
    } else {
      var n := |q.comps| - 1;
      var front, last := q.comps[..n], q.comps[n];
      var w := StripRight(last);
      assert q.comps == front + [last];
      SecondPass(p, q, front, last);
      StrippedWord(last);
      RootTexts(r, front + [w], q.slashes);
      RenderTrimmed(q);
      TestOnComponents(q, front, last, w, r);
    }
  }

  lemma AbsoluteShape(p: string)
    requires Normpath(p) == p && "/" <= p
    ensures var q := Parse(p); Normal(q) && 0 < q.slashes && Render(q) == p
  {
    ParseIsNormal(p);
  }

  lemma RootShape(root: string)
    ensures var r := Parse(NormalizeRemote(root)); Normal(r) && Render(r) == NormalizeRemote(root)
  {
    NormalizeRemoteShape(root);
    ParseIsNormal(NormalizeRemote(root));
  }

  /** `/` and `//` are under no root with a component. */
  lemma BarePath(p: string, q: Path, r: Path, rText: string)
    requires NoBackslash(p) && q == Parse(p) && Normal(q) && Render(q) == p && q.slashes > 0 && q.comps == []
    requires Normal(r) && r.comps != [] && rText == Render(r)
    ensures Parse(NormalizeRemote(p)) == q && Strip(p) != rText && !Inside(q, r)
  {
    RenderTrimmed(q);
    TrimmedIsFixed(p);
    StripTrims(p);
    ParseRender(r);
  }

  /** Equality with the texts of the root, as equality of words. */
  lemma RootTexts(r: Path, words: seq<string>, n: nat)
    requires Normal(r) && r.comps != [] && n <= 2 && Readable(words)
    ensures Text(n, words) == Render(r) <==> n == r.slashes && words == r.comps
    ensures Text(n, words) == Render(r) + "/.." <==> n == r.slashes && words == r.comps + [".."]
  {
    hide Join;
    assert Render(r) == Text(r.slashes, r.comps);
    JoinSnoc(r.comps, "..");
    assert Render(r) + "/.." == Text(r.slashes, r.comps + [".."]);
    assert NoSlash("..");
    TextInjective(n, words, r.slashes, r.comps);
    TextInjective(n, words, r.slashes, r.comps + [".."]);
  }

  lemma TestOnComponents(q: Path, front: seq<string>, last: string, w: string, r: Path)
    requires Normal(q) && Normal(r) && q.slashes > 0 && r.comps != []
    requires q.comps == front + [last] && w <= last && (w == last <==> !EndsInSpace(last))
    ensures Inside(Path(q.slashes, Push(true, front, w)), r) <==>
            || (q.slashes == r.slashes && front + [w] == r.comps)
            || (Inside(q, r) && !(q.slashes == r.slashes && front + [w] == r.comps + [".."]) &&
                (OuterTrimmed(q) || Render(q) != Render(r)))
  {
    hide Push, NormalComps, Render;
    if q.slashes == r.slashes {
      StrippedComponents(front, last, w, r.comps);
      assert q.comps[|q.comps| - 1] == last;
      if q.comps == r.comps { assert q == r; }
      if Render(q) == Render(r) {
        ParseRender(q);
        ParseRender(r);
      }
    }
  }

  /** So, as to the directory the test makes of the root, it errs towards passing in one
      way only: an absolute path it passes is under that directory component by
      component, unless it is that directory followed by whitespace. */
  lemma MisjudgedExactly(p: string, root: string)
    requires NoBackslash(p) && Normpath(p) == p && "/" <= p
    requires root != "" && Parse(NormalizeRemote(root)).comps != []
    requires IsUnderRemoteRoot(p, root)
    ensures var r := NormalizeRemote(root);
            Inside(Parse(p), Parse(r)) <==> !(p != r && Strip(p) == r)
  {
    hide Inside, Trimmed, IsUnderRemoteRoot, Reduce, Split, Join, LeadingSlashes, NormalizeRemote;
    SandboxTestExactly(p, root);
    AbsoluteShape(p);
    RootShape(root);
    var q, r := Parse(p), Parse(NormalizeRemote(root));
    if p == NormalizeRemote(root) {
      InsideItself(q);
    } else if Strip(p) == NormalizeRemote(root) {
      SpacedRootIsOutside(p, q, r);
    }
  }

  // ----- where a joined reference leads

  lemma JoinedSlashes(dir: string, r: string)
    requires Normpath(dir) == dir && "/" <= dir && !("/" <= r)
    ensures LeadingSlashes(PosixJoin(dir, r)) == LeadingSlashes(dir) > 0
  {
    AbsoluteShape(dir);
    var q := Parse(dir);
    RenderShape(q);
    JoinNothing();
    if q.comps != [] {
      JoinStart(q.comps);
      assert dir[q.slashes] == q.comps[0][0] != '/';
    }
    hide Join, Parse, Normpath, Render;
    var t := PosixJoin(dir, r);
    assert forall i | 0 <= i < |dir| :: t[i] == dir[i];
    assert |t| > |dir| && dir[|dir| - 1] == '/' ==> t[|dir|] == r[0];
    LeadingSlashesByIndex(dir);
    LeadingSlashesByIndex(t);
  }

  lemma JoinedFollow(dir: string, r: string)
    requires Normpath(dir) == dir && "/" <= dir && !("/" <= r)
    ensures Follow([], Split(PosixJoin(dir, r))) == Follow(Follow([], Split(dir)), Split(r))
  {
    hide Normpath, Split;
    if dir[|dir| - 1] == '/' {
      var head := dir[..|dir| - 1];
      assert dir == head + "/" + "" && PosixJoin(dir, r) == head + "/" + r;
      SplitConcat(head, "");
      SplitConcat(head, r);
      SplitNothing();
      FollowAppend([], Split(head), Split(r));
      FollowAppend([], Split(head), [""]);
      FollowEmpty(Follow([], Split(head)));
    } else {
      assert PosixJoin(dir, r) == dir + "/" + r;
      SplitConcat(dir, r);
      FollowAppend([], Split(dir), Split(r));
    }
  }

  lemma SplitNothing()
    ensures Split("") == [""]
  {
  }

  lemma FollowEmpty(at: seq<string>)
    ensures Follow(at, [""]) == at
  {
    assert [""][1..] == [];
  }

  /** A relative reference joined onto an absolute directory leads where following its
      text from that directory leads. */
  lemma JoinLeads(dir: string, r: string)
    requires Normpath(dir) == dir && "/" <= dir && !("/" <= r)
    ensures Parse(PosixJoin(dir, r)) == Path(Parse(dir).slashes, Follow(Parse(dir).comps, Split(r)))
  {
    JoinedSlashes(dir, r);
    JoinedFollow(dir, r);
    AbsoluteLeads(dir);
    AbsoluteLeads(PosixJoin(dir, r));
  }

  /** Where a reference in a file of the directory leads: from the root if it is absolute,
      from the directory otherwise, along its own text. That is the text stripped and
      with forward slashes, and no whitespace may surface when it is normalised. */
  lemma ReferenceLeads(dir: string, rel: string)
    requires Tidy(dir) && Trimmed(dir)
    requires OuterTrimmed(Parse(Forward(Strip(rel))))
    ensures var t := Forward(Strip(rel));
            Parse(PosixJoinNorm(dir, NormalizeRemote(rel))) ==
            if "/" <= t then Path(LeadingSlashes(t), Follow([], Split(t)))
            else Path(Parse(dir).slashes, Follow(Parse(dir).comps, Split(t)))
  {
    hide Split, Follow, OuterTrimmed, Trimmed, Reduce;
    var t := Forward(Strip(rel));
    var r := NormalizeRemote(rel);
    TrimmedIsFixed(dir);
    NormalizeRemoteIdempotentExactly(rel);
    NormpathIdempotent(t);
    ParseIsNormal(t);
    RenderLeadingSlashes(Parse(t));
    hide NormalizeRemote, Parse, Normpath, Strip, Forward;
    if "/" <= t {
      AbsoluteLeads(t);
      NormpathIdempotent(r);
    } else {
      NormpathKeepsMeaning(t, Parse(dir).comps);
      NormpathKeepsMeaning(r, Parse(dir).comps);
      NormpathIdempotent(PosixJoin(dir, r));
      JoinLeads(dir, r);
    }
  }

  /** The root followed by whitespace. */
  predicate SpacedRoot(p: string, root: string)
  {
    p != NormalizeRemote(root) && Strip(p) == NormalizeRemote(root)
  }

  /** A normalised absolute path with forward slashes, as the fetch accesses them. */
  predicate Tidy(p: string)
  {
    NoBackslash(p) && Normpath(p) == p && "/" <= p
  }

  /** The test passes nothing outside the root but the spaced root. */
  ghost predicate Keeps(root: string)
  {
    forall p | Tidy(p) && IsUnderRemoteRoot(p, root) :: Inside(Parse(p), Parse(root)) || SpacedRoot(p, root)
  }

  /** Here the root is the one given, not what the test makes of it. The two differ when
      the root's last component ends in whitespace, and then the test guards another
      directory; so the root is kept exactly when its text is trimmed. */
  lemma RootIsKeptExactly(root: string)
    requires Tidy(root) && Parse(root).comps != []
    ensures Keeps(root) <==> Trimmed(root)
  {
    hide Inside, IsUnderRemoteRoot, Reduce, Split, Join, LeadingSlashes, NormalizeRemote, Trimmed;
    AbsoluteShape(root);
    if Trimmed(root) {
      TrimmedIsFixed(root);
      forall p | Tidy(p) && IsUnderRemoteRoot(p, root) ensures Inside(Parse(p), Parse(root)) || SpacedRoot(p, root) {
        MisjudgedExactly(p, root);
      }
    } else {
      var p := Stray(root);
    }
  }

  /** A path right below the directory the test guards instead. */
  lemma Stray(root: string) returns (p: string)
    requires Tidy(root) && Parse(root).comps != [] && !Trimmed(root)
    ensures Tidy(p) && IsUnderRemoteRoot(p, root) && !Inside(Parse(p), Parse(root)) && !SpacedRoot(p, root)
  {
    hide Reduce, Split, Join, LeadingSlashes, NormalizeRemote, IsUnderRemoteRoot, Trimmed, Push, IsSpace;
    AbsoluteShape(root);
    var q := Parse(root);
    RenderTrimmed(q);
    var n := |q.comps| - 1;
    var front, last := q.comps[..n], q.comps[n];
    var w := StripRight(last);
    assert q.comps == front + [last];
    SecondPass(root, q, front, last);
    StrippedWord(last);
    var guarded := Path(q.slashes, Push(true, front, w));
    RootShape(root);
    NormalizeRemoteShape(root);
    p := BelowGuarded(guarded);
    UnderRemoteRootExactly(p, root);
    StrayIsOutside(q, front, last, w);
  }

  lemma BelowGuarded(r: Path) returns (p: string)
    requires Normal(r) && r.slashes > 0 && NoBackslash(Render(r))
    ensures Tidy(p) && Parse(p) == Path(r.slashes, r.comps + ["x"])
    ensures NormalizeRemote(p) == p && Strip(p) == p && p != Render(r)
  {
    var q := Path(r.slashes, r.comps + ["x"]);
    assert |"x"| == 1 && NoSlash("x");
    NormalSnoc(r, "x");
    p := Render(q);
    JoinSnoc(r.comps, "x");
    hide Join, Parse, Reduce, Split;
    RenderShape(r);
    RenderShape(q);
    JoinNothing();
    assert p == if r.comps == [] then Render(r) + "x" else Render(r) + "/x";
    ParseRender(q);
    RenderTrimmed(q);
    assert OuterTrimmed(q) by { assert q.comps[|r.comps|] == "x"; }
    assert Normpath(p) == p && "/" <= p;
    TrimmedIsFixed(p);
    StripTrims(p);
  }

  lemma NormalSnoc(r: Path, w: string)
    requires Normal(r) && r.slashes > 0 && Component(w) && w != ".."
    ensures Normal(Path(r.slashes, r.comps + [w]))
  {
    var comps := r.comps + [w];
    assert comps[|r.comps|] == w;
    assert forall i | 0 <= i < |r.comps| :: comps[i] == r.comps[i];
  }

  lemma StrayIsOutside(q: Path, front: seq<string>, last: string, w: string)
    requires q.comps == front + [last] && EndsInSpace(last) && w <= last && w != last
    ensures !Inside(Path(q.slashes, Push(true, front, w) + ["x"]), q)
  {
    assert |"x"| == 1 && !IsSpace("x"[0]) && last != "x";
    var n := |front|;
    var below := Push(true, front, w) + ["x"];
    assert q.comps[n] == last;
    assert |below| > n ==> below[n] == "x" || below[n] == w;
  }

  /** The root "/a/.. " has two components, but the test reads it as `/` and passes
      everything. */
  lemma DotsRootAdmitsAll(p: string)
    ensures Tidy("/a/.. ") && Parse("/a/.. ").comps == ["a", ".. "]
    ensures IsUnderRemoteRoot(p, "/a/.. ")
  {
    DotsLiteral();
    assert ["a"] + [".. "] == ["a", ".. "];
    hide Parse, Render, Reduce, Join, StripRight, Normpath, NormalizeRemote, Push;
    SecondPass("/a/.. ", Path(1, ["a", ".. "]), ["a"], ".. ");
    UnderRemoteRootExactly(p, "/a/.. ");
  }

  lemma DotsLiteral()
    ensures Tidy("/a/.. ") && Parse("/a/.. ") == Path(1, ["a", ".. "]) && Normal(Path(1, ["a", ".. "]))
    ensures Render(Path(1, ["a", ".. "])) == "/a/.. "
    ensures StripRight(".. ") == ".." && Push(true, ["a"], "..") == []
  {
    assert |"a"| == 1 && |".. "| == 3 && |".."| == 2 && NoSlash("a") && NoSlash(".. ") && "a" != "..";
    assert StripRight(".. ") == StripRight("..") == ".." by { assert ".. "[..2] == ".."; }
    assert ["a"][..0] == [];
    assert Normal(Path(1, ["a", ".. "]));
    JoinCons(["a", ".. "]);
    assert ["a", ".. "][1..] == [".. "];
    assert Join(["a", ".. "]) == "a" + "/" + ".. ";
    hide Join, Parse, Normpath, Render;
    LiteralPath("/a/.. ", ["a", ".. "]);
  }

  /** An absolute path written out. */
  lemma LiteralPath(text: string, words: seq<string>)
    requires words != [] && Normal(Path(1, words)) && text == "/" + Join(words)
    ensures Parse(text) == Path(1, words) && Normpath(text) == text && Render(Path(1, words)) == text
  {
    hide Join, Parse;
    RenderShape(Path(1, words));
    ParseRender(Path(1, words));
  }

  lemma InsideItself(q: Path)
    ensures Inside(q, q)
  {
  }

  lemma SpacedRootIsOutside(p: string, q: Path, r: Path)
    requires NoBackslash(p) && q == Parse(p) && Normal(q) && Render(q) == p && q.slashes > 0
    requires Normal(r) && r.comps != [] && Strip(p) == Render(r) && p != Render(r)
    ensures !Inside(q, r)
  {
    if q.comps == [] {
      BarePath(p, q, r, Render(r));
    } else {
      hide Parse, Render, Normal;
      var n := |q.comps| - 1;
      var front, last := q.comps[..n], q.comps[n];
      assert q.comps == front + [last];
      SecondPass(p, q, front, last);
      AtMostTwo(q);
      RootTexts(r, front + [StripRight(last)], q.slashes);
      SameLengthPrefix(r.comps, q.comps);
      assert q != r;
    }
  }

  lemma SameLengthPrefix(a: seq<string>, b: seq<string>)
    requires |a| == |b|
    ensures a <= b <==> a == b
  {
  }

  lemma AtMostTwo(q: Path)
    requires Normal(q)
    ensures q.slashes <= 2
  {
  }

  /** The root followed by whitespace does pass, for every root whose text is trimmed. */
  lemma TrailingSpaceIsMisjudged(p: string, root: string)
    requires Tidy(p) && SpacedRoot(p, root)
    requires root != "" && Parse(NormalizeRemote(root)).comps != []
    ensures IsUnderRemoteRoot(p, root) && !Inside(Parse(p), Parse(NormalizeRemote(root)))
  {
    hide Inside, Trimmed, IsUnderRemoteRoot, Reduce, Split, Join, LeadingSlashes, NormalizeRemote;
    SandboxTestExactly(p, root);
    MisjudgedExactly(p, root);
  }

  lemma SpacedRootPasses()
    ensures IsUnderRemoteRoot("/r ", "/r") && !Inside(Parse("/r "), Parse("/r"))
  {
    RootLiterals();
    assert "/r "[..2] == "/r";
    assert StripRight("/r ") == StripRight("/r") == "/r";
    TrimmedIsFixed("/r");
    hide Inside, IsUnderRemoteRoot, NormalizeRemote, Parse, Normpath;
    TrailingSpaceIsMisjudged("/r ", "/r");
  }

  lemma RootLiterals()
    ensures Parse("/r") == Path(1, ["r"]) && Normpath("/r") == "/r" && Normpath("/r ") == "/r "
  {
    assert |"r"| == 1 && |"r "| == 2 && NoSlash("r ") && NoSlash("r");
    var q, p := Path(1, ["r"]), Path(1, ["r "]);
    assert Normal(q) && Normal(p);
    RenderShape(q);
    RenderShape(p);
    assert "/" + "r" == "/r" && "/" + "r " == "/r ";
    ParseRender(q);
    ParseRender(p);
  }

  // ----- flatten.py

  function StripLeadingSlashes(s: string): string
  {
    if s != [] && s[0] == '/' then StripLeadingSlashes(s[1..]) else s
  }

  function NormRelPath(p: string): string
  {
    var s := Forward(Normpath(StripLeadingSlashes(Forward(Strip(p)))));
    if s == "." || s == "" then "" else s
  }

  datatype Joined = Accepted(path: string) | Refused

  /** `_safe_join_remote`; `Refused` is its ValueError. */
  function SafeJoinRemote(baseDir: string, rel: string): Joined
  {
    var base := StripTrailingSlashes(Normpath(baseDir));
    var r := NormRelPath(rel);
    if r == "" then Refused
    else
      var candidate := Normpath(PosixJoin(base, r));
      if candidate != base && !(base + "/" <= candidate) then Refused else Accepted(candidate)
  }

  /** The relative path `rel` denotes: its components after stripping. */
  function Relative(rel: string): Path
  {
    Parse(StripLeadingSlashes(Forward(Strip(rel))))
  }

  lemma {:induction false} StripLeadingNoBackslash(s: string)
    requires NoBackslash(s)
    ensures NoBackslash(StripLeadingSlashes(s)) && LeadingSlashes(StripLeadingSlashes(s)) == 0
  {
    if s != [] && s[0] == '/' { StripLeadingNoBackslash(s[1..]); } else { LeadingSlashesByIndex(s); }
  }

  lemma RelativeShape(rel: string)
    ensures Relative(rel).slashes == 0 && Normal(Relative(rel))
    ensures NormRelPath(rel) == if Relative(rel).comps == [] then "" else Render(Relative(rel))
  {
    var t := StripLeadingSlashes(Forward(Strip(rel)));
    StripLeadingNoBackslash(Forward(Strip(rel)));
    ParseIsNormal(t);
    NormpathNoBackslash(t);
    ForwardIsIdentity(Normpath(t));
    ParseRender(Relative(rel));
    ParseRender(Path(0, []));
    assert Split("") == [[]];
    assert Parse("") == Path(0, []);
  }

  lemma {:induction false} SplitConcat(a: string, b: string)
    ensures Split(a + "/" + b) == Split(a) + Split(b)
  {
    var t := a + "/" + b;
    if a == [] {
      assert t[1..] == b;
    } else {
      assert t[1..] == a[1..] + "/" + b;
      SplitConcat(a[1..], b);
    }
  }

  lemma {:induction false} ReduceConcat(rooted: bool, stack: seq<string>, x: seq<string>, y: seq<string>)
    ensures Reduce(rooted, stack, x + y) == Reduce(rooted, Reduce(rooted, stack, x), y)
    decreases |x|
  {
    if x == [] {
      assert x + y == y;
    } else {
      assert (x + y)[1..] == x[1..] + y;
      ReduceConcat(rooted, Push(rooted, stack, x[0]), x[1..], y);
    }
  }

  /** Joining a relative path onto a base pushes its components onto the base's. */
  lemma ParseJoined(base: Path, r: Path)
    requires Normal(base) && base.comps != [] && Normal(r) && r.slashes == 0 && r.comps != []
    ensures Parse(PosixJoin(Render(base), Render(r))) ==
            Path(base.slashes, Reduce(base.slashes > 0, base.comps, r.comps))
  {
    hide Split, Reduce, Join, LeadingSlashes, Render, PosixJoin;
    var a, b := Render(base), Render(r);
    JoinedText(base, r);
    SplitConcat(a, b);
    ParseRender(base);
    ReduceConcat(base.slashes > 0, [], Split(a), Split(b));
    RenderShape(r);
    SplitJoin(r.comps);
  }

  lemma JoinedText(base: Path, r: Path)
    requires Normal(base) && base.comps != [] && Normal(r) && r.slashes == 0 && r.comps != []
    ensures var t := Render(base) + "/" + Render(r);
            PosixJoin(Render(base), Render(r)) == t && LeadingSlashes(t) == base.slashes
  {
    hide Join;
    var a, b := Render(base), Render(r);
    RenderLeadingSlashes(base);
    RenderLeadingSlashes(r);
    JoinStart(base.comps);
    JoinEnd(base.comps);
    assert a[base.slashes] == Join(base.comps)[0];
    assert a[|a| - 1] == Join(base.comps)[|Join(base.comps)| - 1];
    var t := a + "/" + b;
    LeadingSlashesByIndex(a);
    LeadingSlashesByIndex(b);
    LeadingSlashesByIndex(t);
  }

  /** What `_safe_join_remote` accepts, exactly: a base and a path that both have
      components, when pushing the path onto the base keeps the base's components. */
  lemma SafeJoinExactly(baseDir: string, rel: string)
    ensures var b, r := Parse(baseDir), Relative(rel);
            var c := Path(b.slashes, Reduce(b.slashes > 0, b.comps, r.comps));
            SafeJoinRemote(baseDir, rel) ==
            if b.comps != [] && r.comps != [] && b.comps <= c.comps then Accepted(Render(c)) else Refused
  {
    var b, r := Parse(baseDir), Relative(rel);
    ParseIsNormal(baseDir);
    RelativeShape(rel);
    if r.comps != [] {
      if b.comps != [] {
        RootedTest(b, b);
        ParseJoined(b, r);
        var text := PosixJoin(Render(b), Render(r));
        ParseIsNormal(text);
        StringTestIsContainment(Parse(text), b);
      } else {
        BareBaseRefuses(b, r);
      }
    }
  }

  lemma BareBaseRefuses(b: Path, r: Path)
    requires Normal(b) && b.comps == [] && Normal(r) && r.slashes == 0 && r.comps != []
    ensures var base := StripTrailingSlashes(Render(b));
            var candidate := Normpath(PosixJoin(base, Render(r)));
            candidate != base && !(base + "/" <= candidate)
  {
    RenderLeadingSlashes(r);
    ParseRender(r);
    assert Join([]) == [];
    if b.slashes == 0 {
      assert Render(b) == ".";
      var t := "." + "/" + Render(r);
      SplitWord(".");
      SplitConcat(".", Render(r));
      assert Split(t)[1..] == Split(Render(r));
      ReduceSkips(false, Split(t));
      LeadingSlashesByIndex(t);
      assert Parse(t) == r;
      DotTest(r);
      ParseRender(Path(0, []));
    } else {
      assert "//"[..1] == "/" && "/"[..0] == "";
      assert StripTrailingSlashes("//") == StripTrailingSlashes("/") == "";
      assert Render(b) == (if b.slashes == 1 then "/" else "//");
      assert [] + Render(r) == Render(r);
      LeadingSlashesByIndex(Render(r));
    }
  }

  /** The result is the base or a component-wise descendant, and cannot climb: if the
      base has no `..`, neither has the result. */
  lemma SafeJoinStaysInside(baseDir: string, rel: string)
    requires SafeJoinRemote(baseDir, rel).Accepted?
    ensures var c := Parse(SafeJoinRemote(baseDir, rel).path);
            && Inside(c, Parse(baseDir))
            && (".." !in Parse(baseDir).comps ==> ".." !in c.comps)
  {
    hide SafeJoinRemote, Parse, Render, Relative, Reduce;
    SafeJoinExactly(baseDir, rel);
    ParseIsNormal(baseDir);
    RelativeShape(rel);
    var b, r := Parse(baseDir), Relative(rel);
    ReduceIsNormal(b.slashes > 0, b.comps, r.comps);
    var c := Path(b.slashes, Reduce(b.slashes > 0, b.comps, r.comps));
    ParseRender(c);
    assert c.comps[0] == b.comps[0] && b.comps[0] in b.comps;
  }

  lemma {:induction false} FollowNames(at: seq<string>, names: seq<string>)
    requires forall i | 0 <= i < |names| :: Component(names[i]) && names[i] != ".."
    ensures Follow(at, names) == at + names
    decreases |names|
  {
    if names != [] { FollowNames(at + [names[0]], names[1..]); }
  }

  lemma {:induction false} FollowUps(at: seq<string>, ups: seq<string>)
    requires (forall i | 0 <= i < |ups| :: ups[i] == "..") && |ups| <= |at|
    ensures Follow(at, ups) == at[..|at| - |ups|]
    decreases |ups|
  {
    if ups != [] { FollowUps(at[..|at| - 1], ups[1..]); }
  }

  lemma {:induction false} FollowOnlyMeets(at: seq<string>, comps: seq<string>)
    ensures forall w | w in Follow(at, comps) :: w in at || w in comps
    decreases |comps|
  {
    if comps != [] {
      FollowOnlyMeets(at, comps[1..]);
      FollowOnlyMeets(if at == [] then [] else at[..|at| - 1], comps[1..]);
      FollowOnlyMeets(at + [comps[0]], comps[1..]);
    }
  }

  lemma {:induction false} WordsWeighLess(comps: seq<string>)
    ensures forall w | w in comps :: |w| < Weight(comps)
  {
    if comps != [] { WordsWeighLess(comps[1..]); }
  }

  /** From every directory, what `c` leads to lies in or below what `b` leads to. */
  ghost predicate StaysBelow(b: seq<string>, c: seq<string>)
  {
    forall at :: Follow(at, b) <= Follow(at, c)
  }

  lemma NamesStayBelow(b: seq<string>, c: seq<string>)
    requires b <= c && forall i | |b| <= i < |c| :: Component(c[i]) && c[i] != ".."
    ensures StaysBelow(b, c)
  {
    var tail := c[|b|..];
    assert c == b + tail;
    forall at ensures Follow(at, b) <= Follow(at, c) {
      FollowAppend(at, b, tail);
      FollowNames(Follow(at, b), tail);
    }
  }

  /** `..` once more than there is: from some directory it leads out. */
  lemma UpsClimb(b: seq<string>, r: seq<string>)
    requires (forall i | 0 <= i < |b| :: b[i] == "..") && r != [] && r[0] == ".."
    ensures !StaysBelow(b, b + r)
  {
    hide Weight;
    var w: string := seq(Weight(r), _ => 'w');
    var at: seq<string> := seq(|b| + 1, _ => w);
    WordsWeighLess(r);
    FollowAppend(at, b, r);
    FollowUps(at, b);
    assert Follow(at, b) == [w];
    assert Follow([w], r) == Follow([], r[1..]);
    FollowOnlyMeets([], r[1..]);
    assert w !in r;
    assert w !in Follow(at, b + r);
    assert Follow(at, b)[0] == w;
  }

  /** Containment in the sense of where paths lead. It holds for every accepted join but
      one kind: a base ending in `..`, so made of them, extended by a path that begins
      with one more. */
  lemma SafeJoinStaysBelowExactly(baseDir: string, rel: string)
    requires SafeJoinRemote(baseDir, rel).Accepted?
    ensures var b := Parse(baseDir).comps;
            b != [] && Relative(rel).comps != [] &&
            (StaysBelow(b, Parse(SafeJoinRemote(baseDir, rel).path).comps) <==>
             !(b[|b| - 1] == ".." && Relative(rel).comps[0] == ".."))
  {
    hide SafeJoinRemote, Parse, Render, Relative, Reduce, StaysBelow;
    SafeJoinExactly(baseDir, rel);
    ParseIsNormal(baseDir);
    RelativeShape(rel);
    var base, r := Parse(baseDir), Relative(rel);
    ReduceIsNormal(base.slashes > 0, base.comps, r.comps);
    ParseRender(Path(base.slashes, Reduce(base.slashes > 0, base.comps, r.comps)));
    JoinedBelow(base.slashes > 0, base.comps, r.comps);
  }

  lemma JoinedBelow(rooted: bool, b: seq<string>, r: seq<string>)
    requires NormalComps(rooted, b) && NormalComps(false, r) && b != [] && r != []
    requires b <= Reduce(rooted, b, r)
    ensures StaysBelow(b, Reduce(rooted, b, r)) <==> !(b[|b| - 1] == ".." && r[0] == "..")
  {
    hide Reduce, StaysBelow;
    var c := Reduce(rooted, b, r);
    if b[|b| - 1] == ".." && r[0] == ".." {
      assert forall i | 0 <= i < |b| :: b[i] == "..";
      assert NormalComps(rooted, b + r);
      ReduceNormal(rooted, b, r);
      UpsClimb(b, r);
    } else {
      ReduceIsNormal(rooted, b, r);
      if r[0] != ".." {
        assert forall i | 0 <= i < |r| :: r[i] != "..";
        assert forall w | w in r :: Component(w) && w != "..";
        ReduceNames(rooted, b, r);
      }
      NamesStayBelow(b, c);
    }
  }

  /** The base is `..`, the path `../x`: accepted, and from /a/b it leads to /x, which is
      not below /a. */
  lemma UpwardBaseIsClimbed()
    ensures SafeJoinRemote("..", "../x") == Accepted("../../x")
    ensures Follow(["a", "b"], [".."]) == ["a"] && Follow(["a", "b"], ["..", "..", "x"]) == ["x"]
  {
    UpTexts();
    FollowUpLiterals();
    hide Follow;
    ReduceUp();
    hide Parse, Relative, Render, Reduce;
    SafeJoinExactly("..", "../x");
  }

  lemma FollowUpLiterals()
    ensures Follow(["a", "b"], [".."]) == ["a"] && Follow(["a", "b"], ["..", "..", "x"]) == ["x"]
  {
    FollowUps(["a", "b"], [".."]);
    assert ["a", "b"][..1] == ["a"];
    FollowUps(["a", "b"], ["..", ".."]);
    FollowAppend(["a", "b"], ["..", ".."], ["x"]);
    assert |"x"| == 1 && |"."| == 1 && "x"[0] != "."[0];
    assert Follow([], ["x"]) == ["x"];
    assert ["..", ".."] + ["x"] == ["..", "..", "x"];
  }

  lemma ReduceUp()
    ensures Reduce(false, [".."], ["..", "x"]) == ["..", "..", "x"]
  {
    UpsAreNormal();
    ReduceNormal(false, [".."], ["..", "x"]);
    assert [".."] + ["..", "x"] == ["..", "..", "x"];
  }

  lemma UpsAreNormal()
    ensures Normal(Path(0, [".."])) && Normal(Path(0, ["..", "x"])) && Normal(Path(0, ["..", "..", "x"]))
  {
    assert |"x"| == 1 && NoSlash("x") && NoSlash("..") && |".."| == 2;
  }

  lemma UpJoins()
    ensures Join([".."]) == ".." && Join(["..", "x"]) == "../x" && Join(["..", "..", "x"]) == "../../x"
  {
    assert ["..", "x"][1..] == ["x"] && ["..", "..", "x"][1..] == ["..", "x"];
    assert ".." + "/" + "x" == "../x" && ".." + "/" + "../x" == "../../x";
  }

  lemma PlainIsKept(t: string)
    requires t != [] && Trimmed(t) && NoBackslash(t) && t[0] != '/'
    ensures StripLeadingSlashes(Forward(Strip(t))) == t
  {
    StripTrims(t);
    ForwardIsIdentity(t);
  }

  lemma UpTexts()
    ensures Parse("..") == Path(0, [".."]) && Relative("../x") == Path(0, ["..", "x"])
    ensures Render(Path(0, ["..", "..", "x"])) == "../../x"
  {
    PlainIsKept("../x");
    hide Join, Parse, Render, Normal, Split, Reduce, Strip, Forward, StripLeadingSlashes;
    UpsAreNormal();
    UpJoins();
    RenderShape(Path(0, [".."]));
    RenderShape(Path(0, ["..", "x"]));
    RenderShape(Path(0, ["..", "..", "x"]));
    ParseRender(Path(0, [".."]));
    ParseRender(Path(0, ["..", "x"]));
  }

  lemma {:induction false} ReduceNames(rooted: bool, stack: seq<string>, names: seq<string>)
    requires forall w | w in names :: Component(w) && w != ".."
    ensures Reduce(rooted, stack, names) == stack + names
    decreases |names|
  {
    if names == [] {
      assert stack + names == stack;
    } else {
      assert names[0] in names;
      ReduceNames(rooted, stack + [names[0]], names[1..]);
      assert stack + [names[0]] + names[1..] == stack + names;
    }
  }

  /** Every relative path without `..` is accepted, under every base with a component,
      and lands exactly below it. */
  lemma SafeJoinAcceptsDescendants(baseDir: string, rel: string)
    requires Parse(baseDir).comps != [] && Relative(rel).comps != [] && ".." !in Relative(rel).comps
    ensures SafeJoinRemote(baseDir, rel) ==
            Accepted(Render(Path(Parse(baseDir).slashes, Parse(baseDir).comps + Relative(rel).comps)))
  {
    SafeJoinExactly(baseDir, rel);
    RelativeShape(rel);
    ReduceNames(Parse(baseDir).slashes > 0, Parse(baseDir).comps, Relative(rel).comps);
  }
}
