/** Alias canonicalisation, the fold over files and the per-VM fan-out of
    h2kvm/config/config_loader.py. Files are given as parsed mappings whose keys are
    already normalised (module ConfigKeys). */
module ConfigAliases {
  import opened ConfigMerge
  import opened Texts

  const GOVC: seq<(string, string)> := [
    ("GOVC_URL", "govc_url"),
    ("GOVC_USERNAME", "govc_user"),
    ("GOVC_USER", "govc_user"),
    ("GOVC_PASSWORD", "govc_password"),
    ("GOVC_PASSWORD_ENV", "govc_password_env"),
    ("GOVC_INSECURE", "govc_insecure"),
    ("GOVC_DATACENTER", "govc_datacenter"),
    ("GOVC_DATASTORE", "govc_ds"),
    ("GOVC_DS", "govc_ds"),
    ("GOVC_FOLDER", "govc_folder"),
    ("GOVC_CLUSTER", "govc_cluster"),
    ("GOVC_RESOURCE_POOL", "govc_resource_pool")
  ]

  function LinkPair(d: Conf, a: string, b: string): Conf
  {
    if a in d && b !in d then d[b := d[a]]
    else if b in d && a !in d then d[a := d[b]]
    else d
  }

  function LinkGovc(d: Conf, table: seq<(string, string)>): Conf
    decreases |table|, d
  {
    if table == [] then d
    else
      var (src, dst) := table[0];
      LinkGovc(if src in d && dst !in d then d[dst := d[src]] else d, table[1..])
  }

  function CleanControlPlane(d: Conf): Conf
  {
    if "vs_control_plane" in d && d["vs_control_plane"].Leaf? && d["vs_control_plane"].scalar.Str?
    then d["vs_control_plane" := Leaf(Str(Lower(Strip(d["vs_control_plane"].scalar.s))))]
    else d
  }

  function LinkPairs(d: Conf): Conf
  {
    LinkPair(LinkPair(LinkPair(d, "command", "cmd"), "vs_action", "action"), "vs_control_plane", "control_plane")
  }

  function Canonical(d: Conf): Conf
  {
    CleanControlPlane(LinkGovc(LinkPairs(d), GOVC))
  }

  lemma LinkPairsIs(d: Conf)
    ensures LinkPairs(d) ==
            LinkPair(LinkPair(LinkPair(d, "command", "cmd"), "vs_action", "action"),
                     "vs_control_plane", "control_plane")
  {
  }

  lemma LinkGovcStep(d: Conf, table: seq<(string, string)>, i: nat)
    requires i <= |table|
    ensures i == |table| ==> LinkGovc(d, table[i..]) == d
    ensures i < |table| ==>
              var (src, dst) := table[i];
              LinkGovc(d, table[i..]) ==
              LinkGovc(if src in d && dst !in d then d[dst := d[src]] else d, table[i + 1..])
  {
    if i < |table| { assert table[i..][0] == table[i] && table[i..][1..] == table[i + 1..]; }
  }

  /** `_canonicalize_aliases` mutates its argument; here it is the local `d`. */
  method CanonicalizeAliases(given: Conf) returns (d: Conf)
    ensures d == Canonical(given)
  {
    hide LinkGovc, LinkPairs;
    d := given;
    if "command" in d && "cmd" !in d {
      d := d["cmd" := d["command"]];
    } else if "cmd" in d && "command" !in d {
      d := d["command" := d["cmd"]];
    }
    if "vs_action" in d && "action" !in d {
      d := d["action" := d["vs_action"]];
    } else if "action" in d && "vs_action" !in d {
      d := d["vs_action" := d["action"]];
    }
    if "vs_control_plane" in d && "control_plane" !in d {
      d := d["control_plane" := d["vs_control_plane"]];
    } else if "control_plane" in d && "vs_control_plane" !in d {
      d := d["vs_control_plane" := d["control_plane"]];
    }
    assert d == LinkPairs(given) by { LinkPairsIs(given); }
    var table := GOVC;
    assert table[0..] == table;
    for i := 0 to |table|
      invariant LinkGovc(d, table[i..]) == LinkGovc(LinkPairs(given), GOVC)
    {
      var (src, dst) := table[i];
      LinkGovcStep(d, table, i);
      if src in d && dst !in d {
        d := d[dst := d[src]];
      }
    }
    LinkGovcStep(d, table, |table|);
    if "vs_control_plane" in d && d["vs_control_plane"].Leaf? && d["vs_control_plane"].scalar.Str? {
      d := d["vs_control_plane" := Leaf(Str(Lower(Strip(d["vs_control_plane"].scalar.s))))];
    }
  }

  // ----- fixed points

  predicate Linked(d: Conf, a: string, b: string)
  {
    a in d <==> b in d
  }

  predicate GovcLinked(d: Conf, table: seq<(string, string)>)
  {
    forall i | 0 <= i < |table| :: table[i].0 in d ==> table[i].1 in d
  }

  predicate ControlPlaneClean(d: Conf)
  {
    "vs_control_plane" in d && d["vs_control_plane"].Leaf? && d["vs_control_plane"].scalar.Str? ==>
      Lower(Strip(d["vs_control_plane"].scalar.s)) == d["vs_control_plane"].scalar.s
  }

  predicate Settled(d: Conf)
  {
    && Linked(d, "command", "cmd")
    && Linked(d, "vs_action", "action")
    && Linked(d, "vs_control_plane", "control_plane")
    && GovcLinked(d, GOVC)
    && ControlPlaneClean(d)
  }

  predicate LowerCaseGovc(k: string)
  {
    |k| > 4 && k[0] == 'g' && k[1] == 'o' && k[2] == 'v' && k[3] == 'c'
  }

  lemma GovcTargets()
    ensures forall i | 0 <= i < |GOVC| :: LowerCaseGovc(GOVC[i].1) && !LowerCaseGovc(GOVC[i].0)
  {
  }

  /** Linking the GOVC names only adds govc_* keys, and leaves every source linked. */
  lemma {:induction false} LinkGovcLinks(d: Conf, table: seq<(string, string)>)
    requires forall i | 0 <= i < |table| :: LowerCaseGovc(table[i].1) && !LowerCaseGovc(table[i].0)
    ensures var r := LinkGovc(d, table);
            && GovcLinked(r, table)
            && d.Keys <= r.Keys
            && (forall k | k in r && k !in d :: LowerCaseGovc(k))
            && (forall k | k in d :: r[k] == d[k])
            && (GovcLinked(d, table) ==> r == d)
    decreases |table|, d
  {
    if table != [] {
      var (src, dst) := table[0];
      var d1 := if src in d && dst !in d then d[dst := d[src]] else d;
      LinkGovcLinks(d1, table[1..]);
      var r := LinkGovc(d, table);
      assert r == LinkGovc(d1, table[1..]);
      forall i | 0 <= i < |table|
        ensures table[i].0 in r ==> table[i].1 in r
      {
        if i > 0 { assert table[i] == table[1..][i - 1]; }
      }
      if GovcLinked(d, table) {
        assert table[0].0 in d ==> table[0].1 in d;
        forall i | 0 <= i < |table[1..]|
          ensures table[1..][i].0 in d ==> table[1..][i].1 in d
        {
          assert table[1..][i] == table[i + 1];
        }
      }
    }
  }

  predicate PairName(k: string)
  {
    k in ["command", "cmd", "vs_action", "action", "vs_control_plane", "control_plane"]
  }

  lemma PairNamesAreNotGovc(k: string)
    requires PairName(k)
    ensures !LowerCaseGovc(k)
  {
  }

  /** The value the pair ends up with at `k`, where `other` is the other name. */
  function Given(d: Conf, k: string, other: string): Lookup
  {
    if k in d then Found(d[k]) else if other in d then Found(d[other]) else Missing
  }

  function Get(d: Conf, k: string): Lookup
  {
    if k in d then Found(d[k]) else Missing
  }

  lemma LinkPairGet(d: Conf, a: string, b: string, k: string)
    ensures Get(LinkPair(d, a, b), k) ==
            if k == a then Given(d, a, b) else if k == b then Given(d, b, a) else Get(d, k)
  {
  }

  /** Three pairs of six different names, linked one after the other. */
  lemma ThreePairsGet(d: Conf, a1: string, b1: string, a2: string, b2: string, a3: string, b3: string, k: string)
    requires a1 !in [b1, a2, b2, a3, b3] && b1 !in [a2, b2, a3, b3]
    requires a2 !in [b2, a3, b3] && b2 !in [a3, b3] && a3 != b3
    ensures Get(LinkPair(LinkPair(LinkPair(d, a1, b1), a2, b2), a3, b3), k) ==
            if k == a1 then Given(d, a1, b1) else if k == b1 then Given(d, b1, a1)
            else if k == a2 then Given(d, a2, b2) else if k == b2 then Given(d, b2, a2)
            else if k == a3 then Given(d, a3, b3) else if k == b3 then Given(d, b3, a3)
            else Get(d, k)
  {
    hide LinkPair, Given, Get;
    var d1 := LinkPair(d, a1, b1);
    var d2 := LinkPair(d1, a2, b2);
    GivenByGet(d, a2, b2);
    GivenByGet(d1, a2, b2);
    GivenByGet(d, a3, b3);
    GivenByGet(d2, a3, b3);
    assert Get(d1, a2) == Get(d, a2) && Get(d1, b2) == Get(d, b2) by {
      LinkPairGet(d, a1, b1, a2);
      LinkPairGet(d, a1, b1, b2);
    }
    forall q
      ensures Get(d1, q) == if q == a1 then Given(d, a1, b1) else if q == b1 then Given(d, b1, a1) else Get(d, q)
    {
      LinkPairGet(d, a1, b1, q);
    }
    forall q
      ensures Get(d2, q) == if q == a2 then Given(d1, a2, b2) else if q == b2 then Given(d1, b2, a2) else Get(d1, q)
    {
      LinkPairGet(d1, a2, b2, q);
    }
    assert Get(d2, a3) == Get(d, a3) && Get(d2, b3) == Get(d, b3);
    LinkPairGet(d2, a3, b3, k);
  }

  lemma GivenByGet(d: Conf, k: string, other: string)
    ensures Given(d, k, other) == if Get(d, k).Found? then Get(d, k) else Get(d, other)
    ensures Given(d, other, k) == if Get(d, other).Found? then Get(d, other) else Get(d, k)
  {
  }

  lemma PairNamesDiffer()
    ensures "command" !in ["cmd", "vs_action", "action", "vs_control_plane", "control_plane"]
    ensures "cmd" !in ["vs_action", "action", "vs_control_plane", "control_plane"]
    ensures "vs_action" !in ["action", "vs_control_plane", "control_plane"]
    ensures "action" !in ["vs_control_plane", "control_plane"] && "vs_control_plane" != "control_plane"
  {
    assert |"cmd"| == 3 && |"command"| == 7 && |"action"| == 6 && |"vs_action"| == 9;
    assert |"control_plane"| == 13 && |"vs_control_plane"| == 16;
  }

  /** What the six paired names hold once the pairs are linked. */
  function PairGet(d: Conf, k: string): Lookup
  {
    if k == "command" then Given(d, "command", "cmd") else if k == "cmd" then Given(d, "cmd", "command")
    else if k == "vs_action" then Given(d, "vs_action", "action")
    else if k == "action" then Given(d, "action", "vs_action")
    else if k == "vs_control_plane" then Given(d, "vs_control_plane", "control_plane")
    else if k == "control_plane" then Given(d, "control_plane", "vs_control_plane")
    else Get(d, k)
  }

  lemma PairGetByName(d: Conf)
    ensures PairGet(d, "cmd") == Given(d, "cmd", "command") && PairGet(d, "command") == Given(d, "command", "cmd")
    ensures PairGet(d, "action") == Given(d, "action", "vs_action")
    ensures PairGet(d, "vs_action") == Given(d, "vs_action", "action")
    ensures PairGet(d, "control_plane") == Given(d, "control_plane", "vs_control_plane")
    ensures PairGet(d, "vs_control_plane") == Given(d, "vs_control_plane", "control_plane")
  {
    hide Given, Get;
    PairNamesDiffer();
  }

  lemma LinkPairsGet(d: Conf, k: string)
    ensures Get(LinkPairs(d), k) == PairGet(d, k)
  {
    hide LinkPair, Given, Get;
    PairNamesDiffer();
    ThreePairsGet(d, "command", "cmd", "vs_action", "action", "vs_control_plane", "control_plane", k);
  }

  /** What canonicalisation does to each of the paired names. */
  lemma CanonicalPairs(d: Conf)
    ensures Get(Canonical(d), "cmd") == Given(d, "cmd", "command")
    ensures Get(Canonical(d), "command") == Given(d, "command", "cmd")
    ensures Get(Canonical(d), "action") == Given(d, "action", "vs_action")
    ensures Get(Canonical(d), "vs_action") == Given(d, "vs_action", "action")
    ensures Get(Canonical(d), "control_plane") == Given(d, "control_plane", "vs_control_plane")
    ensures Get(LinkGovc(LinkPairs(d), GOVC), "vs_control_plane") == Given(d, "vs_control_plane", "control_plane")
  {
    hide Canonical, LinkPairs, LinkGovc, Given, Get, PairGet, PairName;
    PairNamesDiffer();
    PairNames();
    PairGetByName(d);
    CanonicalAt(d, "cmd");
    CanonicalAt(d, "command");
    CanonicalAt(d, "action");
    CanonicalAt(d, "vs_action");
    CanonicalAt(d, "control_plane");
    CanonicalAt(d, "vs_control_plane");
  }

  lemma PairNames()
    ensures PairName("cmd") && PairName("command") && PairName("action") && PairName("vs_action")
    ensures PairName("control_plane") && PairName("vs_control_plane")
  {
  }

  lemma CanonicalAt(d: Conf, k: string)
    requires PairName(k)
    ensures Get(LinkGovc(LinkPairs(d), GOVC), k) == PairGet(d, k)
    ensures k != "vs_control_plane" ==> Get(Canonical(d), k) == PairGet(d, k)
  {
    hide LinkPairs, LinkGovc, Get, PairGet, CleanControlPlane, PairName;
    LinkPairsGet(d, k);
    GovcKeepsPairs(LinkPairs(d));
    if k != "vs_control_plane" { CleanGet(LinkGovc(LinkPairs(d), GOVC), k); }
  }

  lemma CleanGet(d: Conf, k: string)
    requires k != "vs_control_plane"
    ensures Get(CleanControlPlane(d), k) == Get(d, k)
  {
  }

  lemma GovcKeepsPairs(e: Conf)
    ensures forall k | PairName(k) :: Get(LinkGovc(e, GOVC), k) == Get(e, k)
  {
    GovcTargets();
    LinkGovcLinks(e, GOVC);
    forall k | PairName(k) ensures Get(LinkGovc(e, GOVC), k) == Get(e, k) { PairNamesAreNotGovc(k); }
  }

  lemma CanonicalSettles(d: Conf)
    ensures Settled(Canonical(d))
  {
    CanonicalPairs(d);
    GovcTargets();
    LinkGovcLinks(LinkPairs(d), GOVC);
    var e := LinkGovc(LinkPairs(d), GOVC);
    var r := Canonical(d);
    assert r.Keys == e.Keys;
    assert Get(r, "vs_control_plane").Found? <==> Get(e, "vs_control_plane").Found?;
    forall i | 0 <= i < |GOVC| ensures GOVC[i].0 in r ==> GOVC[i].1 in r { }
    if "vs_control_plane" in e && e["vs_control_plane"].Leaf? && e["vs_control_plane"].scalar.Str? {
      StripLowerIdempotent(e["vs_control_plane"].scalar.s);
    }
  }

  /** The fixed points of canonicalisation, and hence its idempotence. */
  lemma CanonicalFixedPoints(d: Conf)
    ensures Canonical(d) == d <==> Settled(d)
    ensures Canonical(Canonical(d)) == Canonical(d)
  {
    CanonicalSettles(d);
    SettledIsFixed(d);
    SettledIsFixed(Canonical(d));
  }

  lemma SettledIsFixed(d: Conf)
    ensures Settled(d) ==> Canonical(d) == d
  {
    if Settled(d) {
      assert LinkPairs(d) == d;
      GovcTargets();
      LinkGovcLinks(d, GOVC);
    }
  }

  /** Merging two canonical configurations gives a canonical one, in every list mode. */
  lemma SettledMerge(x: Conf, y: Conf, mode: ListMode)
    requires Settled(x) && Settled(y)
    ensures Settled(Merge(x, y, mode))
  {
    var m := Merge(x, y, mode);
    forall i | 0 <= i < |GOVC| ensures GOVC[i].0 in m ==> GOVC[i].1 in m { }
    var k := "vs_control_plane";
    if k in y { MergeAt(x, y, k, mode); }
  }

  // ----- what canonicalisation leaves alone, and what it fills in

  /** No alias: canonicalisation neither sets nor changes it. */
  predicate Plain(k: string)
  {
    !PairName(k) && !LowerCaseGovc(k)
  }

  /** A name that is no alias keeps its value, or stays absent; an alias that is given
      keeps its value too, but for `vs_control_plane`, which is cleaned. */
  lemma CanonicalKeeps(d: Conf, k: string)
    requires Plain(k) || (k in d && k != "vs_control_plane")
    ensures Get(Canonical(d), k) == Get(d, k)
  {
    hide LinkPairs, LinkGovc, PairGet;
    LinkPairsGet(d, k);
    KeptByPairs(d, k);
    GovcTargets();
    LinkGovcLinks(LinkPairs(d), GOVC);
    PairNames();
    CleanGet(LinkGovc(LinkPairs(d), GOVC), k);
  }

  lemma KeptByPairs(d: Conf, k: string)
    requires !PairName(k) || k in d
    ensures PairGet(d, k) == Get(d, k)
  {
    PairNames();
  }

  /** The first source of a target that is given, in table order. */
  function FirstGiven(d: Conf, table: seq<(string, string)>, dst: string): Lookup
    decreases |table|
  {
    if table == [] then Missing
    else if table[0].1 == dst && table[0].0 in d then Found(d[table[0].0])
    else FirstGiven(d, table[1..], dst)
  }

  lemma {:induction false} LinkGovcFills(d: Conf, table: seq<(string, string)>, dst: string)
    requires forall i | 0 <= i < |table| :: LowerCaseGovc(table[i].1) && !LowerCaseGovc(table[i].0)
    requires LowerCaseGovc(dst)
    ensures Get(LinkGovc(d, table), dst) == if dst in d then Get(d, dst) else FirstGiven(d, table, dst)
    decreases |table|, d
  {
    if table != [] {
      var (s0, d0) := table[0];
      var d1 := if s0 in d && d0 !in d then d[d0 := d[s0]] else d;
      LinkGovcFills(d1, table[1..], dst);
      forall i | 0 <= i < |table[1..]| ensures table[1..][i].0 in d1 <==> table[1..][i].0 in d {
        assert table[1..][i] == table[i + 1];
      }
      SameSources(d1, d, table[1..], dst);
    }
  }

  lemma {:induction false} SameSources(c: Conf, d: Conf, table: seq<(string, string)>, dst: string)
    requires forall i | 0 <= i < |table| :: Get(c, table[i].0) == Get(d, table[i].0)
    ensures FirstGiven(c, table, dst) == FirstGiven(d, table, dst)
    decreases |table|
  {
    if table != [] {
      assert Get(c, table[0].0) == Get(d, table[0].0);
      forall i | 0 <= i < |table[1..]| ensures Get(c, table[1..][i].0) == Get(d, table[1..][i].0) {
        assert table[1..][i] == table[i + 1];
      }
      SameSources(c, d, table[1..], dst);
    }
  }

  /** A govc_* name keeps the value given for it; otherwise it takes that of the first
      given GOVC_* spelling of the table, and stays absent without one. */
  lemma GovcGiven(d: Conf, dst: string)
    requires LowerCaseGovc(dst)
    ensures Get(Canonical(d), dst) == if dst in d then Get(d, dst) else FirstGiven(d, GOVC, dst)
  {
    hide LinkPairs, LinkGovc, PairGet, Get;
    assert !PairName(dst) by { if PairName(dst) { PairNamesAreNotGovc(dst); } }
    PairNames();
    LinkPairsGet(d, dst);
    GovcIsNoPair(d, dst);
    GovcTargets();
    LinkGovcFills(LinkPairs(d), GOVC, dst);
    CleanGet(LinkGovc(LinkPairs(d), GOVC), dst);
    forall i | 0 <= i < |GOVC| ensures Get(LinkPairs(d), GOVC[i].0) == Get(d, GOVC[i].0) {
      GovcSourceIsPlain(i);
      LinkPairsGet(d, GOVC[i].0);
      KeptByPairs(d, GOVC[i].0);
    }
    SameSources(LinkPairs(d), d, GOVC, dst);
    GetIn(LinkPairs(d), dst);
    GetIn(d, dst);
  }

  lemma GetIn(d: Conf, k: string)
    ensures k in d <==> Get(d, k).Found?
  {
  }

  lemma GovcIsNoPair(d: Conf, k: string)
    requires LowerCaseGovc(k)
    ensures PairGet(d, k) == Get(d, k) && k != "vs_control_plane"
  {
    assert !PairName(k) by { if PairName(k) { PairNamesAreNotGovc(k); } }
    KeptByPairs(d, k);
    PairNames();
  }

  lemma GovcSourceIsPlain(i: nat)
    requires i < |GOVC|
    ensures Plain(GOVC[i].0)
  {
    GovcTargets();
    assert GOVC[i].0[0] == 'G';
  }

  /** Every GOVC_* name stands for its lower-case spelling, but for two that are shortened. */
  lemma GovcNames(i: nat)
    requires i < |GOVC|
    ensures Lower(GOVC[i].0) == match i
                                case 1 => "govc_username"
                                case 7 => "govc_datastore"
                                case _ => GOVC[i].1
    ensures GOVC[1].1 == "govc_user" && GOVC[7].1 == "govc_ds"
  {
    AccountNames();
    PlaceNames();
    GroupNames();
    hide Lower;
  }

  lemma AccountNames()
    ensures Lower("GOVC_URL") == "govc_url" && Lower("GOVC_USERNAME") == "govc_username"
    ensures Lower("GOVC_USER") == "govc_user" && Lower("GOVC_PASSWORD") == "govc_password"
  {
  }

  lemma PlaceNames()
    ensures Lower("GOVC_PASSWORD_ENV") == "govc_password_env" && Lower("GOVC_INSECURE") == "govc_insecure"
    ensures Lower("GOVC_DATACENTER") == "govc_datacenter" && Lower("GOVC_DATASTORE") == "govc_datastore"
  {
  }

  lemma GroupNames()
    ensures Lower("GOVC_DS") == "govc_ds" && Lower("GOVC_FOLDER") == "govc_folder"
    ensures Lower("GOVC_CLUSTER") == "govc_cluster" && Lower("GOVC_RESOURCE_POOL") == "govc_resource_pool"
  {
  }

  // ----- the fold over files

  function LoadAll(files: seq<Conf>): (r: seq<Conf>)
    ensures |r| == |files| && forall i | 0 <= i < |files| :: r[i] == Canonical(files[i])
  {
    seq(|files|, i requires 0 <= i < |files| => Canonical(files[i]))
  }

  /** `load_many` over parsed files; each is canonicalised when loaded, and the
      accumulated configuration once more at the end. */
  method LoadMany(files: seq<Conf>, mode: ListMode) returns (conf: Conf)
    ensures conf == FoldLayers(LoadAll(files), mode)
    ensures Settled(conf)
  {
    hide Canonical, Merge, Settled;
    conf := map[];
    ghost var layers := LoadAll(files);
    FoldSettled(layers, mode);
    if files == [] {
      return;
    }
    for i := 0 to |files|
      invariant conf == FoldLayers(layers[..i], mode)
    {
      var one := CanonicalizeAliases(files[i]);
      assert layers[..i + 1][..i] == layers[..i];
      conf := MergeDicts(conf, one, mode);
    }
    assert layers[..|files|] == layers;
    SettledIsFixed(conf);
    conf := CanonicalizeAliases(conf);
  }

  lemma {:induction false} FoldSettled(layers: seq<Conf>, mode: ListMode)
    requires forall i | 0 <= i < |layers| :: Settled(layers[i]) || exists d :: layers[i] == Canonical(d)
    ensures Settled(FoldLayers(layers, mode))
  {
    if layers != [] {
      var n := |layers| - 1;
      FoldSettled(layers[..n], mode);
      if !Settled(layers[n]) {
        var d :| layers[n] == Canonical(d);
        CanonicalSettles(d);
      }
      SettledMerge(FoldLayers(layers[..n], mode), layers[n], mode);
    }
  }

  /** The final canonicalisation of `load_many` changes nothing. */
  lemma FinalCanonicalisationIsIdentity(files: seq<Conf>, mode: ListMode)
    ensures Canonical(FoldLayers(LoadAll(files), mode)) == FoldLayers(LoadAll(files), mode)
  {
    FoldSettled(LoadAll(files), mode);
    SettledIsFixed(FoldLayers(LoadAll(files), mode));
  }

  /** Both names absent, or both present with one value. */
  predicate Agree(d: Conf, a: string, b: string)
  {
    Get(d, a) == Get(d, b)
  }

  predicate Conflict(d: Conf, a: string, b: string)
  {
    a in d && b in d && d[a] != d[b]
  }

  predicate IsCommandPair(a: string, b: string)
  {
    (a == "cmd" && b == "command") || (a == "action" && b == "vs_action")
  }

  lemma CanonicalAgrees(d: Conf, a: string, b: string)
    requires IsCommandPair(a, b)
    ensures Agree(Canonical(d), a, b) <==> !Conflict(d, a, b)
    ensures Get(Canonical(d), a) == Given(d, a, b)
  {
    CanonicalPairs(d);
  }

  lemma MergeAgrees(x: Conf, y: Conf, a: string, b: string, mode: ListMode)
    requires Agree(x, a, b) && Agree(y, a, b)
    ensures Agree(Merge(x, y, mode), a, b)
  {
    if a in y {
      MergeAt(x, y, a, mode);
      MergeAt(x, y, b, mode);
    }
  }

  lemma LastScalarWins(x: Conf, y: Conf, a: string, mode: ListMode)
    ensures a in y && y[a].Leaf? ==> Get(Merge(x, y, mode), a) == Found(y[a])
    ensures a !in y ==> Get(Merge(x, y, mode), a) == Get(x, a)
  {
    if a in y { MergeAt(x, y, a, mode); }
  }

  /** If no file gives the two names of a pair different values, the loaded
      configuration has one value under both names; and if the last file naming
      either gives a scalar, that scalar is the value. */
  lemma {:induction false} LoadedPairsAgree(files: seq<Conf>, a: string, b: string, mode: ListMode)
    requires IsCommandPair(a, b)
    requires forall i | 0 <= i < |files| :: !Conflict(files[i], a, b)
    ensures Agree(FoldLayers(LoadAll(files), mode), a, b)
    ensures forall i | 0 <= i < |files| && LastNaming(files, i, a, b) && Given(files[i], a, b).value.Leaf? ::
              Get(FoldLayers(LoadAll(files), mode), a) == Given(files[i], a, b)
  {
    if files != [] {
      hide Canonical, Merge;
      var n := |files| - 1;
      LoadedPairsAgree(files[..n], a, b, mode);
      assert LoadAll(files)[..n] == LoadAll(files[..n]);
      var acc := FoldLayers(LoadAll(files[..n]), mode);
      var one := Canonical(files[n]);
      CanonicalAgrees(files[n], a, b);
      MergeAgrees(acc, one, a, b, mode);
      LastScalarWins(acc, one, a, mode);
      forall i | 0 <= i < |files| && LastNaming(files, i, a, b) && Given(files[i], a, b).value.Leaf?
        ensures Get(FoldLayers(LoadAll(files), mode), a) == Given(files[i], a, b)
      {
        if i < n {
          assert LastNaming(files[..n], i, a, b) && files[..n][i] == files[i];
          assert Given(files[n], a, b) == Missing;
        }
      }
    }
  }

  /** Conversely, when the last file naming either gives scalars, the loaded pair agrees
      exactly when that file does not conflict with itself. */
  lemma {:induction false} LoadedPairAgreesExactly(files: seq<Conf>, i: nat, a: string, b: string, mode: ListMode)
    requires IsCommandPair(a, b) && i < |files| && LastNaming(files, i, a, b)
    requires Given(files[i], a, b).value.Leaf? && Given(files[i], b, a).value.Leaf?
    ensures var conf := FoldLayers(LoadAll(files), mode);
            && Get(conf, a) == Given(files[i], a, b) && Get(conf, b) == Given(files[i], b, a)
            && (Agree(conf, a, b) <==> !Conflict(files[i], a, b))
  {
    hide Canonical, Merge;
    var n := |files| - 1;
    var acc, one := FoldLayers(LoadAll(files[..n]), mode), Canonical(files[n]);
    assert LoadAll(files)[..n] == LoadAll(files[..n]);
    CanonicalPairs(files[n]);
    LastScalarWins(acc, one, a, mode);
    LastScalarWins(acc, one, b, mode);
    if i < n {
      assert LastNaming(files[..n], i, a, b) && files[..n][i] == files[i];
      assert Given(files[n], a, b) == Missing;
      LoadedPairAgreesExactly(files[..n], i, a, b, mode);
    }
  }

  predicate LastNaming(files: seq<Conf>, i: nat, a: string, b: string)
    requires i < |files|
  {
    && Given(files[i], a, b).Found?
    && forall j | i < j < |files| :: Given(files[j], a, b) == Missing
  }

  /** How a value of `vs_control_plane` is cleaned. */
  function Cleaned(x: Lookup): Lookup
  {
    match x
    case Found(Leaf(Str(s))) => Found(Leaf(Str(Lower(Strip(s)))))
    case _ => x
  }

  lemma CanonicalControlPlane(d: Conf)
    ensures Get(Canonical(d), "control_plane") == Given(d, "control_plane", "vs_control_plane")
    ensures Get(Canonical(d), "vs_control_plane") == Cleaned(Given(d, "vs_control_plane", "control_plane"))
  {
    CanonicalPairs(d);
  }

  /** The control-plane pair is not like the others: only `vs_control_plane` is stripped
      and lower-cased. So the names end with equal values exactly when what is given for
      `control_plane` is the cleaned form of what is given for the other. */
  lemma ControlPlanePairAgrees(d: Conf)
    ensures Agree(Canonical(d), "control_plane", "vs_control_plane") <==>
            Given(d, "control_plane", "vs_control_plane") == Cleaned(Given(d, "vs_control_plane", "control_plane"))
    ensures !("control_plane" in d && "vs_control_plane" in d) ==>
              (Agree(Canonical(d), "control_plane", "vs_control_plane") <==>
               match Given(d, "control_plane", "vs_control_plane")
               case Found(Leaf(Str(s))) => Lower(Strip(s)) == s
               case _ => true)
  {
    CanonicalControlPlane(d);
  }

  /** Over all files: when the last file naming either gives scalars, the loaded values are
      the ones of that file, and they agree exactly when that file's do. */
  lemma {:induction false} LoadedControlPlane(files: seq<Conf>, i: nat, mode: ListMode)
    requires i < |files| && LastNaming(files, i, "control_plane", "vs_control_plane")
    requires Given(files[i], "control_plane", "vs_control_plane").value.Leaf?
    requires Given(files[i], "vs_control_plane", "control_plane").value.Leaf?
    ensures var conf := FoldLayers(LoadAll(files), mode);
            && Get(conf, "control_plane") == Given(files[i], "control_plane", "vs_control_plane")
            && Get(conf, "vs_control_plane") == Cleaned(Given(files[i], "vs_control_plane", "control_plane"))
            && (Agree(conf, "control_plane", "vs_control_plane") <==>
                Agree(Canonical(files[i]), "control_plane", "vs_control_plane"))
  {
    hide Canonical, Merge;
    var n := |files| - 1;
    var acc, one := FoldLayers(LoadAll(files[..n]), mode), Canonical(files[n]);
    assert LoadAll(files)[..n] == LoadAll(files[..n]);
    CanonicalControlPlane(files[n]);
    CanonicalControlPlane(files[i]);
    LastScalarWins(acc, one, "control_plane", mode);
    LastScalarWins(acc, one, "vs_control_plane", mode);
    if i < n {
      assert LastNaming(files[..n], i, "control_plane", "vs_control_plane") && files[..n][i] == files[i];
      assert Given(files[n], "control_plane", "vs_control_plane") == Missing;
      LoadedControlPlane(files[..n], i, mode);
    }
  }

  /** What the loaded configuration holds at a path that is no alias, by the files as
      given: the leaf of the last file that has a value there or a non-dict above. */
  lemma LoadedLookup(files: seq<Conf>, path: seq<string>, x: Value, mode: ListMode)
    requires path != [] && Plain(path[0]) && Atomic(x, mode)
    ensures At(Dict(FoldLayers(LoadAll(files), mode)), path) == Found(x) <==>
            exists i :: Decides(files, i, path, x)
  {
    hide Canonical, FoldLayers, Covers;
    LastCoveringLayerDecides(LoadAll(files), path, x, mode);
    forall i | 0 <= i < |files|
      ensures At(Dict(LoadAll(files)[i]), path) == At(Dict(files[i]), path)
      ensures Covers(Dict(LoadAll(files)[i]), path) <==> Covers(Dict(files[i]), path)
    {
      CanonicalAtPlain(files[i], path);
    }
    if i :| Decides(LoadAll(files), i, path, x) { assert Decides(files, i, path, x); }
    if i :| Decides(files, i, path, x) { assert Decides(LoadAll(files), i, path, x); }
  }

  lemma CanonicalAtPlain(d: Conf, path: seq<string>)
    requires path != [] && Plain(path[0])
    ensures At(Dict(Canonical(d)), path) == At(Dict(d), path)
    ensures Covers(Dict(Canonical(d)), path) <==> Covers(Dict(d), path)
  {
    CanonicalKeeps(d, path[0]);
    hide Canonical;
    AtByFirstName(Canonical(d), d, path);
  }

  // ----- per-VM fan-out

  datatype Loaded = Configs(confs: seq<Conf>) | Die(file: nat, entry: nat)

  predicate FansOut(conf: Conf)
  {
    "vms" in conf && conf["vms"].List?
  }

  function Entries(conf: Conf): seq<Value>
  {
    if FansOut(conf) then conf["vms"].items else []
  }

  predicate AllEntriesAreDicts(conf: Conf)
  {
    forall i | 0 <= i < |Entries(conf)| :: Entries(conf)[i].Dict?
  }

  /** The configurations one loaded file contributes, before the last canonicalisation. */
  function PerVm(conf: Conf, mode: ListMode): seq<Conf>
    requires AllEntriesAreDicts(conf)
  {
    if FansOut(conf) then
      seq(|Entries(conf)|, i requires 0 <= i < |Entries(conf)| =>
        Merge(conf - {"vms"}, Entries(conf)[i].entries, mode))
    else [conf]
  }

  predicate AllFansAreDicts(loaded: seq<Conf>)
  {
    forall i | 0 <= i < |loaded| :: AllEntriesAreDicts(loaded[i])
  }

  /** What the loaded files contribute, in order. */
  function PerVmAll(loaded: seq<Conf>, mode: ListMode): seq<Conf>
    requires AllFansAreDicts(loaded)
  {
    if loaded == [] then []
    else PerVmAll(loaded[..|loaded| - 1], mode) + PerVm(loaded[|loaded| - 1], mode)
  }

  /** The inner loop of `load_vm_configs`; `bad` is the first entry that is not a mapping. */
  method FanOut(conf: Conf, mode: ListMode) returns (confs: seq<Conf>, bad: nat)
    ensures bad <= |Entries(conf)| && forall j | 0 <= j < bad :: Entries(conf)[j].Dict?
    ensures bad < |Entries(conf)| ==> !Entries(conf)[bad].Dict?
    ensures bad == |Entries(conf)| ==> AllEntriesAreDicts(conf) && confs == PerVm(conf, mode)
  {
    if !FansOut(conf) {
      return [conf], 0;
    }
    var base := conf - {"vms"};
    var vms := conf["vms"].items;
    confs, bad := [], 0;
    while bad < |vms|
      invariant bad <= |vms| && forall j | 0 <= j < bad :: vms[j].Dict?
      invariant |confs| == bad
      invariant forall j | 0 <= j < bad :: confs[j] == Merge(base, vms[j].entries, mode)
    {
      if !vms[bad].Dict? {
        return;
      }
      var one := MergeDicts(base, vms[bad].entries, mode);
      confs := confs + [one];
      bad := bad + 1;
    }
  }

  /** The entry at this place is no mapping, and everything before it is in order. */
  predicate FirstBadEntry(loaded: seq<Conf>, file: nat, entry: nat)
  {
    && file < |loaded| && AllFansAreDicts(loaded[..file])
    && entry < |Entries(loaded[file])|
    && !Entries(loaded[file])[entry].Dict?
    && forall j | 0 <= j < entry :: Entries(loaded[file])[j].Dict?
  }

  /** The outer loop of `load_vm_configs` over loaded files. It dies on the first entry
      that is not a mapping. */
  method FanOutAll(loaded: seq<Conf>, mode: ListMode) returns (r: Loaded)
    ensures r.Configs? <==> AllFansAreDicts(loaded)
    ensures r.Configs? ==> r.confs == PerVmAll(loaded, mode)
    ensures r.Die? ==> FirstBadEntry(loaded, r.file, r.entry)
  {
    hide PerVm, Entries, Merge;
    var confs: seq<Conf> := [];
    for i := 0 to |loaded|
      invariant AllFansAreDicts(loaded[..i])
      invariant confs == PerVmAll(loaded[..i], mode)
    {
      var mine, bad := FanOut(loaded[i], mode);
      if bad < |Entries(loaded[i])| {
        assert !AllEntriesAreDicts(loaded[i]) && !AllFansAreDicts(loaded);
        return Die(i, bad);
      }
      assert loaded[..i + 1][..i] == loaded[..i];
      confs := confs + mine;
    }
    assert loaded[..|loaded|] == loaded;
    r := Configs(confs);
  }

  /** `load_one` on each file, and the closing comprehension of `load_vm_configs`. */
  method CanonicalizeEach(confs: seq<Conf>) returns (out: seq<Conf>)
    ensures out == LoadAll(confs)
  {
    out := [];
    for i := 0 to |confs|
      invariant |out| == i && forall j | 0 <= j < i :: out[j] == Canonical(confs[j])
    {
      var one := CanonicalizeAliases(confs[i]);
      out := out + [one];
    }
  }

  /** `load_vm_configs`: every result is the canonical form of a base overlaid with one
      entry, or of a file without a `vms` list. */
  method LoadVmConfigs(files: seq<Conf>, mode: ListMode) returns (r: Loaded)
    ensures r.Configs? <==> AllFansAreDicts(LoadAll(files))
    ensures r.Configs? ==> r.confs == LoadAll(PerVmAll(LoadAll(files), mode))
    ensures r.Die? ==> FirstBadEntry(LoadAll(files), r.file, r.entry)
  {
    var loaded := CanonicalizeEach(files);
    r := FanOutAll(loaded, mode);
    if r.Configs? {
      var out := CanonicalizeEach(r.confs);
      r := Configs(out);
    }
  }

  // ----- the per-VM configurations, by position and by path

  /** How many configurations the first files contribute. */
  function Before(loaded: seq<Conf>, file: nat): nat
    requires file <= |loaded|
  {
    if file == 0 then 0
    else Before(loaded, file - 1) + if FansOut(loaded[file - 1]) then |Entries(loaded[file - 1])| else 1
  }

  lemma {:induction false} BeforePrefix(loaded: seq<Conf>, n: nat, file: nat)
    requires file <= n <= |loaded|
    ensures Before(loaded[..n], file) == Before(loaded, file)
  {
    if file > 0 { BeforePrefix(loaded, n, file - 1); }
  }

  /** The results come in file order and, within a file, in entry order. */
  lemma {:induction false} PerVmAllAt(loaded: seq<Conf>, mode: ListMode, file: nat, i: nat)
    requires AllFansAreDicts(loaded) && file < |loaded| && i < |PerVm(loaded[file], mode)|
    ensures |PerVmAll(loaded, mode)| == Before(loaded, |loaded|)
    ensures Before(loaded, file) + i < |PerVmAll(loaded, mode)|
    ensures PerVmAll(loaded, mode)[Before(loaded, file) + i] == PerVm(loaded[file], mode)[i]
  {
    var n := |loaded| - 1;
    PerVmAllCount(loaded, mode);
    PerVmAllCount(loaded[..n], mode);
    BeforePrefix(loaded, n, n);
    PerVmAllLast(loaded, n, mode);
    BeforePrefix(loaded, n, file);
    hide PerVmAll, PerVm, Before, AllEntriesAreDicts;
    var front, last := PerVmAll(loaded[..n], mode), PerVm(loaded[n], mode);
    if file < n {
      assert loaded[..n][file] == loaded[file];
      PerVmAllAt(loaded[..n], mode, file, i);
      AppendedAt(front, last, Before(loaded, file) + i);
    } else {
      AppendedAt(front, last, |front| + i);
    }
  }

  lemma AppendedAt(a: seq<Conf>, b: seq<Conf>, k: nat)
    requires k < |a| + |b|
    ensures k < |a + b| && (a + b)[k] == if k < |a| then a[k] else b[k - |a|]
  {
  }

  lemma PerVmAllLast(loaded: seq<Conf>, n: nat, mode: ListMode)
    requires AllFansAreDicts(loaded) && |loaded| == n + 1
    ensures AllFansAreDicts(loaded[..n]) && AllEntriesAreDicts(loaded[n])
    ensures PerVmAll(loaded, mode) == PerVmAll(loaded[..n], mode) + PerVm(loaded[n], mode)
  {
    hide PerVm, AllEntriesAreDicts;
  }

  lemma {:induction false} PerVmAllCount(loaded: seq<Conf>, mode: ListMode)
    requires AllFansAreDicts(loaded)
    ensures |PerVmAll(loaded, mode)| == Before(loaded, |loaded|)
  {
    if loaded != [] {
      var n := |loaded| - 1;
      PerVmAllCount(loaded[..n], mode);
      BeforePrefix(loaded, n, n);
    }
  }

  /** One entry over its file: where the entry says nothing about a path, the file does,
      unless the path begins with `vms`. */
  lemma VmLookup(conf: Conf, i: nat, path: seq<string>, x: Value, mode: ListMode)
    requires FansOut(conf) && AllEntriesAreDicts(conf) && i < |Entries(conf)|
    requires path != [] && Atomic(x, mode)
    ensures At(Dict(PerVm(conf, mode)[i]), path) == Found(x) <==>
            if Covers(Entries(conf)[i], path) then At(Entries(conf)[i], path) == Found(x)
            else path[0] != "vms" && At(Dict(conf), path) == Found(x)
    ensures "vms" in PerVm(conf, mode)[i] <==> "vms" in Entries(conf)[i].entries
  {
    var base := conf - {"vms"};
    var e := Entries(conf)[i];
    assert PerVm(conf, mode)[i] == Merge(base, e.entries, mode);
    MergeOfDicts(Dict(base), e, mode);
    MergeDecides(Dict(base), e, path, x, mode);
    TouchesIsCovers(e, path);
    hide MergeValue, Merge;
    if path[0] != "vms" { AtByFirstName(base, conf, path); }
  }

  lemma VmsIsPlain()
    ensures Plain("vms")
  {
    assert |"vms"| == 3 && |"cmd"| == 3 && |"command"| == 7 && |"vs_action"| == 9 && |"action"| == 6;
    assert |"control_plane"| == 13 && |"vs_control_plane"| == 16 && "vms"[0] != "cmd"[0];
  }

  /** `vms` is no alias, so files fan out as they are given. */
  lemma LoadedFans(d: Conf)
    ensures FansOut(Canonical(d)) <==> FansOut(d)
    ensures Entries(Canonical(d)) == Entries(d)
  {
    VmsIsPlain();
    CanonicalKeeps(d, "vms");
  }

  lemma LoadedBefore(files: seq<Conf>, n: nat)
    requires n <= |files|
    ensures Before(LoadAll(files), n) == Before(files, n)
  {
    hide Canonical, FansOut, Entries;
    if n > 0 {
      LoadedBefore(files, n - 1);
      LoadedFans(files[n - 1]);
    }
  }

  /** The result of `load_vm_configs` at a path that is no alias, by the files as given:
      the configuration of entry i of a file holds what the entry says, and what the file
      says outside its `vms` list where the entry says nothing. */
  lemma LoadedVmLookup(files: seq<Conf>, file: nat, i: nat, path: seq<string>, x: Value, mode: ListMode)
    requires AllFansAreDicts(files) && file < |files| && FansOut(files[file]) && i < |Entries(files[file])|
    requires path != [] && Plain(path[0]) && Atomic(x, mode)
    ensures AllFansAreDicts(LoadAll(files))
    ensures var r := LoadAll(PerVmAll(LoadAll(files), mode));
            var e := Entries(files[file])[i];
            && Before(files, file) + i < |r| == Before(files, |files|)
            && (At(Dict(r[Before(files, file) + i]), path) == Found(x) <==>
                if Covers(e, path) then At(e, path) == Found(x)
                else path[0] != "vms" && At(Dict(files[file]), path) == Found(x))
            && ("vms" in r[Before(files, file) + i] <==> "vms" in e.entries)
  {
    hide Canonical, Covers, FansOut, Entries, PerVm;
    AllLoadedFans(files);
    var loaded := LoadAll(files);
    LoadedFans(files[file]);
    LoadedBefore(files, file);
    LoadedBefore(files, |files|);
    PerVmCount(loaded[file], mode);
    PerVmAllAt(loaded, mode, file, i);
    VmLookup(loaded[file], i, path, x, mode);
    CanonicalAtPlain(files[file], path);
    var one := PerVm(loaded[file], mode)[i];
    CanonicalAtPlain(one, path);
    VmsIsPlain();
    CanonicalKeeps(one, "vms");
    GetIn(Canonical(one), "vms");
    GetIn(one, "vms");
  }

  lemma PerVmCount(conf: Conf, mode: ListMode)
    requires AllEntriesAreDicts(conf)
    ensures |PerVm(conf, mode)| == if FansOut(conf) then |Entries(conf)| else 1
  {
  }

  lemma AllLoadedFans(files: seq<Conf>)
    ensures AllFansAreDicts(LoadAll(files)) <==> AllFansAreDicts(files)
  {
    hide Canonical, Entries;
    forall i | 0 <= i < |files| ensures AllEntriesAreDicts(LoadAll(files)[i]) <==> AllEntriesAreDicts(files[i]) {
      LoadedFans(files[i]);
    }
  }

  /** A file without a `vms` list contributes its canonical form, once. */
  lemma PlainFileIsOneVm(files: seq<Conf>, file: nat, mode: ListMode)
    requires AllFansAreDicts(files) && file < |files| && !FansOut(files[file])
    ensures AllFansAreDicts(LoadAll(files))
    ensures var r := LoadAll(PerVmAll(LoadAll(files), mode));
            Before(files, file) < |r| && r[Before(files, file)] == Canonical(files[file])
  {
    hide Canonical, Entries;
    AllLoadedFans(files);
    LoadedFans(files[file]);
    LoadedBefore(files, file);
    PerVmAllAt(LoadAll(files), mode, file, 0);
    CanonicalFixedPoints(files[file]);
  }

  /** Lists at one path of a file and its entry are combined as the list mode says. */
  lemma VmLists(conf: Conf, i: nat, path: seq<string>, l1: seq<Value>, l2: seq<Value>, mode: ListMode)
    requires FansOut(conf) && AllEntriesAreDicts(conf) && i < |Entries(conf)|
    requires path != [] && path[0] != "vms"
    requires At(Dict(conf), path) == Found(List(l1)) && At(Entries(conf)[i], path) == Found(List(l2))
    ensures At(Dict(PerVm(conf, mode)[i]), path).Found?
    ensures var merged := At(Dict(PerVm(conf, mode)[i]), path).value;
            && merged.List?
            && (mode == Append ==> merged.items == l1 + l2)
            && (mode == ExtendUnique ==> exists at :: KeepsFirsts(merged.items, l1 + l2, {}, at))
            && (mode != Append && mode != ExtendUnique ==> merged.items == l2)
  {
    var base := conf - {"vms"};
    var e := Entries(conf)[i];
    assert PerVm(conf, mode)[i] == Merge(base, e.entries, mode);
    MergeOfDicts(Dict(base), e, mode);
    hide MergeValue, Merge;
    AtByFirstName(base, conf, path);
    MergedLists(Dict(base), e, path, l1, l2, mode);
  }

  /** What base and entry together say at a name, when neither is merged into the other. */
  function Stated(base: Conf, vm: Conf, k: string): Lookup
  {
    if k in vm then Found(vm[k]) else Get(base, k)
  }

  /** The entry gives the name a scalar, or nothing. */
  predicate ScalarAt(vm: Conf, k: string)
  {
    k in vm ==> vm[k].Leaf?
  }

  lemma ScalarOverride(base: Conf, vm: Conf, k: string, mode: ListMode)
    requires ScalarAt(vm, k)
    ensures Get(Merge(base, vm, mode), k) == Stated(base, vm, k)
  {
    if k in vm { MergeAt(base, vm, k, mode); }
  }

  /** Entries are merged uncanonicalised. With scalars in the entry, a pair agrees in the
      per-VM configuration exactly when one of the names is stated nowhere, or base and
      entry state the same at both; the base may conflict with itself. */
  lemma VmPairAgreesExactly(base: Conf, vm: Conf, a: string, b: string, mode: ListMode)
    requires IsCommandPair(a, b) && ScalarAt(vm, a) && ScalarAt(vm, b)
    ensures Agree(Canonical(Merge(base, vm, mode)), a, b) <==>
            || Stated(base, vm, a).Missing? || Stated(base, vm, b).Missing?
            || Stated(base, vm, a) == Stated(base, vm, b)
  {
    CanonicalAgrees(Merge(base, vm, mode), a, b);
    ScalarOverride(base, vm, a, mode);
    ScalarOverride(base, vm, b, mode);
  }

  /** For values of any kind, an agreeing base and an entry: the names agree if and only
      if, over the base's value, what the entry gives them comes out equal. */
  lemma VmPairOverAgreeingBase(base: Conf, vm: Conf, a: string, b: string, mode: ListMode)
    requires IsCommandPair(a, b) && Agree(base, a, b)
    ensures Agree(Canonical(Merge(base, vm, mode)), a, b) <==>
            if a !in base then !Conflict(vm, a, b)
            else Overlaid(base[a], vm, a, mode) == Overlaid(base[a], vm, b, mode)
  {
    var m := Merge(base, vm, mode);
    CanonicalAgrees(m, a, b);
    if a in vm { MergeAt(base, vm, a, mode); }
    if b in vm { MergeAt(base, vm, b, mode); }
  }

  /** Value of a name after an entry is laid over a base where both names hold v. */
  function Overlaid(v: Value, vm: Conf, k: string, mode: ListMode): Value
  {
    if k in vm then MergeValue(v, vm[k], mode) else v
  }

  /** A file with `cmd` at the top and `command` in its one entry: the loaded per-VM
      configuration holds two different commands. */
  lemma OneNameInEachDisagrees(mode: ListMode)
    ensures var vm := map["command" := Leaf(Str("b"))];
            var file := map["cmd" := Leaf(Str("a")), "vms" := List([Dict(vm)])];
            && AllEntriesAreDicts(Canonical(file)) && |PerVm(Canonical(file), mode)| == 1
            && !Agree(LoadAll(PerVm(Canonical(file), mode))[0], "cmd", "command")
  {
    var vm := map["command" := Leaf(Str("b"))];
    var file := map["cmd" := Leaf(Str("a")), "vms" := List([Dict(vm)])];
    assert |"cmd"| == 3 && |"command"| == 7 && |"vms"| == 3 && "vms"[0] == 'v' && "cmd"[0] == 'c';
    CanonicalPairs(file);
    CanonicalKeepsVms(file);
    var base := Canonical(file) - {"vms"};
    assert Get(base, "cmd") == Found(Leaf(Str("a")));
    assert |"a"| == 1 && "a"[0] == 'a' && "b"[0] == 'b';
    hide Canonical, Merge;
    VmPairAgreesExactly(base, vm, "cmd", "command", mode);
    assert PerVm(Canonical(file), mode)[0] == Merge(base, vm, mode);
  }

  lemma VmsIsNoPairName(d: Conf)
    ensures PairGet(d, "vms") == Get(d, "vms") && "vms" != "vs_control_plane"
  {
    hide Given, Get;
    assert |"vms"| == 3 && |"cmd"| == 3 && |"command"| == 7 && |"vs_action"| == 9 && |"action"| == 6;
    assert |"control_plane"| == 13 && |"vs_control_plane"| == 16 && "vms"[0] != "cmd"[0];
  }

  lemma CanonicalKeepsVms(d: Conf)
    requires "vms" in d
    ensures Get(Canonical(d), "vms") == Get(d, "vms")
  {
    hide LinkPairs, LinkGovc, PairGet, Given;
    LinkPairsGet(d, "vms");
    VmsIsNoPairName(d);
    GovcTargets();
    LinkGovcLinks(LinkPairs(d), GOVC);
  }

  /** So in a file that does not conflict with itself, every entry that uses both names
      for one value, or neither, yields a per-VM configuration whose names agree. */
  lemma AliasClosedEntryAgrees(file: Conf, i: nat, a: string, b: string, mode: ListMode)
    requires IsCommandPair(a, b) && !Conflict(file, a, b)
    requires FansOut(Canonical(file)) && AllEntriesAreDicts(Canonical(file))
    requires i < |Entries(Canonical(file))| && Agree(Entries(Canonical(file))[i].entries, a, b)
    ensures Agree(LoadAll(PerVm(Canonical(file), mode))[i], a, b)
  {
    var base := Canonical(file) - {"vms"};
    CanonicalAgrees(file, a, b);
    assert |"vms"| == 3 && "vms"[0] == 'v';
    assert a != "vms" && b != "vms";
    VmPairOverAgreeingBase(base, Entries(Canonical(file))[i].entries, a, b, mode);
  }

  /** An entry overriding one name with a scalar, over a base that has the pair, leaves
      the names in disagreement unless it repeats the base's value. */
  lemma OneNameOverrideDisagrees(base: Conf, vm: Conf, a: string, b: string, mode: ListMode)
    requires IsCommandPair(a, b) && Agree(base, a, b) && a in base
    requires (a in vm && b !in vm && vm[a].Leaf?) || (b in vm && a !in vm && vm[b].Leaf?)
    ensures Agree(Canonical(Merge(base, vm, mode)), a, b) <==> Given(vm, a, b) == Found(base[a])
  {
    VmPairOverAgreeingBase(base, vm, a, b, mode);
  }
}
