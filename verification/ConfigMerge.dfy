/** Configuration values and the deep merge of h2kvm/config/config_loader.py. */
module ConfigMerge {

  /** Scalars of a parsed YAML/JSON document. */
  datatype Scalar = Null | Bool(b: bool) | Int(n: int) | Float(r: real) | Str(s: string)

  /** A dictionary is a map: merging does not depend on insertion order. */
  datatype Value = Leaf(scalar: Scalar) | List(items: seq<Value>) | Dict(entries: Conf)

  type Conf = map<string, Value>

  /** `Other` is any unrecognised `list_mode` string; the code then replaces. */
  datatype ListMode = Replace | Append | ExtendUnique | Other(name: string)

  // ----- extend_unique

  /** What Python hashes and compares a scalar by: True == 1 == 1.0. */
  datatype HashKey = NoneKey | Number(r: real) | Text(s: string)

  function KeyOf(x: Scalar): HashKey
  {
    match x
    case Null => NoneKey
    case Bool(b) => Number(if b then 1.0 else 0.0)
    case Int(n) => Number(n as real)
    case Float(r) => Number(r)
    case Str(s) => Text(s)
  }

  /** Python's equality of scalars: booleans are the numbers 0 and 1. */
  predicate PyEqual(x: Scalar, y: Scalar)
  {
    match (x, y)
    case (Bool(b), Int(n)) => n == if b then 1 else 0
    case (Int(n), Bool(b)) => n == if b then 1 else 0
    case (Bool(b), Float(r)) => r == if b then 1.0 else 0.0
    case (Float(r), Bool(b)) => r == if b then 1.0 else 0.0
    case (Int(n), Float(r)) => n as real == r
    case (Float(r), Int(n)) => n as real == r
    case _ => x == y
  }

  /** Two scalars are duplicates exactly when Python finds them equal. */
  lemma KeysAreEqualExactly(x: Scalar, y: Scalar)
    ensures KeyOf(x) == KeyOf(y) <==> PyEqual(x, y)
  {
  }

  /** Keep the first occurrence of each scalar not in `seen`; lists and dicts are
      unhashable and always kept. */
  function Dedup(items: seq<Value>, seen: set<HashKey>): seq<Value>
  {
    if items == [] then []
    else if items[0].Leaf? then
      var key := KeyOf(items[0].scalar);
      if key in seen then Dedup(items[1..], seen) else [items[0]] + Dedup(items[1..], seen + {key})
    else [items[0]] + Dedup(items[1..], seen)
  }

  lemma DedupStep(items: seq<Value>, i: nat, seen: set<HashKey>)
    requires i <= |items|
    ensures i == |items| ==> Dedup(items[i..], seen) == []
    ensures i < |items| && items[i].Leaf? && KeyOf(items[i].scalar) in seen ==>
              Dedup(items[i..], seen) == Dedup(items[i + 1..], seen)
    ensures i < |items| && items[i].Leaf? && KeyOf(items[i].scalar) !in seen ==>
              Dedup(items[i..], seen) == [items[i]] + Dedup(items[i + 1..], seen + {KeyOf(items[i].scalar)})
    ensures i < |items| && !items[i].Leaf? ==>
              Dedup(items[i..], seen) == [items[i]] + Dedup(items[i + 1..], seen)
  {
    if i < |items| { assert items[i..][0] == items[i] && items[i..][1..] == items[i + 1..]; }
  }

  method DedupLoop(items: seq<Value>) returns (merged: seq<Value>)
    ensures merged == Dedup(items, {})
  {
    hide Dedup, KeyOf;
    merged := [];
    var seen: set<HashKey> := {};
    assert items[0..] == items;
    for i := 0 to |items|
      invariant Dedup(items, {}) == merged + Dedup(items[i..], seen)
    {
      var item := items[i];
      DedupStep(items, i, seen);
      if item.Leaf? {
        if KeyOf(item.scalar) in seen {
          continue;
        }
        seen := seen + {KeyOf(item.scalar)};
      }
      merged := merged + [item];
    }
    DedupStep(items, |items|, seen);
  }

  /** The item at i is kept: it is unhashable, or no earlier scalar and nothing in `seen`
      has its key. */
  predicate IsFirst(items: seq<Value>, i: nat, seen: set<HashKey>)
    requires i < |items|
  {
    items[i].Leaf? ==>
      && KeyOf(items[i].scalar) !in seen
      && forall j | 0 <= j < i && items[j].Leaf? :: KeyOf(items[j].scalar) != KeyOf(items[i].scalar)
  }

  /** `kept` are the items at the positions `at`, in order. */
  ghost predicate Selects(kept: seq<Value>, items: seq<Value>, at: seq<nat>)
  {
    && |at| == |kept|
    && (forall k | 0 <= k < |at| :: at[k] < |items| && kept[k] == items[at[k]])
    && (forall k, l | 0 <= k < l < |at| :: at[k] < at[l])
  }

  /** `kept` are exactly the first occurrences, in order. */
  ghost predicate KeepsFirsts(kept: seq<Value>, items: seq<Value>, seen: set<HashKey>, at: seq<nat>)
  {
    && Selects(kept, items, at)
    && (forall i: nat | i < |items| :: i in at <==> IsFirst(items, i, seen))
  }

  function Shifted(at: seq<nat>): (r: seq<nat>)
    ensures |r| == |at| && forall k | 0 <= k < |at| :: r[k] == at[k] + 1
  {
    seq(|at|, k requires 0 <= k < |at| => at[k] + 1)
  }

  lemma ShiftedIn(at: seq<nat>, i: nat)
    ensures i + 1 in Shifted(at) <==> i in at
    ensures 0 !in Shifted(at)
  {
    if i in at {
      var k :| 0 <= k < |at| && at[k] == i;
      assert Shifted(at)[k] == i + 1;
    }
  }

  /** Dedup keeps first occurrences and every list and dict, in their order, and nothing
      else. */
  lemma {:induction false} DedupKeepsFirsts(items: seq<Value>, seen: set<HashKey>) returns (at: seq<nat>)
    ensures KeepsFirsts(Dedup(items, seen), items, seen, at)
  {
    hide KeyOf;
    if items == [] {
      at := [];
    } else {
      var seen' := if items[0].Leaf? then seen + {KeyOf(items[0].scalar)} else seen;
      var inner := DedupKeepsFirsts(items[1..], seen');
      DedupHead(items, seen);
      hide Dedup, KeepsFirsts;
      at := KeepsHead(Dedup(items[1..], seen'), items, seen, seen', inner);
    }
  }

  lemma KeepsHead(kept: seq<Value>, items: seq<Value>, seen: set<HashKey>, seen': set<HashKey>, inner: seq<nat>)
    returns (at: seq<nat>)
    requires items != [] && seen' == if items[0].Leaf? then seen + {KeyOf(items[0].scalar)} else seen
    requires KeepsFirsts(kept, items[1..], seen', inner)
    ensures KeepsFirsts((if IsFirst(items, 0, seen) then [items[0]] else []) + kept, items, seen, at)
  {
    hide KeyOf, IsFirst;
    var first := IsFirst(items, 0, seen);
    var shifted := Shifted(inner);
    at := if first then [0] + shifted else shifted;
    SelectsShifted(kept, items, inner);
    ShiftedIn(inner, 0);
    if first { SelectsHead(kept, items, shifted); } else { assert [] + kept == kept; }
    forall i: nat | i < |items| ensures i in at <==> IsFirst(items, i, seen) {
      HeadPosition(items, i, seen, seen', inner, at);
    }
    KeepsIs((if first then [items[0]] else []) + kept, items, seen, at);
  }

  lemma KeepsIs(kept: seq<Value>, items: seq<Value>, seen: set<HashKey>, at: seq<nat>)
    requires Selects(kept, items, at) && forall i: nat | i < |items| :: i in at <==> IsFirst(items, i, seen)
    ensures KeepsFirsts(kept, items, seen, at)
  {
    hide Selects, IsFirst;
  }

  lemma HeadPosition(items: seq<Value>, i: nat, seen: set<HashKey>, seen': set<HashKey>, inner: seq<nat>,
                     at: seq<nat>)
    requires i < |items| && seen' == if items[0].Leaf? then seen + {KeyOf(items[0].scalar)} else seen
    requires forall k: nat | k < |items| - 1 :: k in inner <==> IsFirst(items[1..], k, seen')
    requires at == if IsFirst(items, 0, seen) then [0] + Shifted(inner) else Shifted(inner)
    ensures i in at <==> IsFirst(items, i, seen)
  {
    hide KeyOf, IsFirst;
    ShiftedIn(inner, 0);
    if i > 0 {
      assert i - 1 in inner <==> IsFirst(items[1..], i - 1, seen');
      PositionInTail(items, i, seen, seen', inner);
      assert i in [0] + Shifted(inner) <==> i in Shifted(inner);
    }
  }

  lemma PositionInTail(items: seq<Value>, i: nat, seen: set<HashKey>, seen': set<HashKey>, inner: seq<nat>)
    requires 0 < i < |items| && seen' == if items[0].Leaf? then seen + {KeyOf(items[0].scalar)} else seen
    requires i - 1 in inner <==> IsFirst(items[1..], i - 1, seen')
    ensures i in Shifted(inner) <==> IsFirst(items, i, seen)
  {
    hide KeyOf;
    ShiftedIn(inner, i - 1);
    FirstInTail(items, i, seen);
  }

  lemma SelectsShifted(kept: seq<Value>, items: seq<Value>, inner: seq<nat>)
    requires items != [] && Selects(kept, items[1..], inner)
    ensures Selects(kept, items, Shifted(inner))
  {
    var at := Shifted(inner);
    forall k | 0 <= k < |at| ensures at[k] < |items| && kept[k] == items[at[k]] {
      assert items[1..][inner[k]] == items[inner[k] + 1];
    }
  }

  lemma SelectsHead(kept: seq<Value>, items: seq<Value>, at: seq<nat>)
    requires items != [] && Selects(kept, items, at) && 0 !in at
    ensures Selects([items[0]] + kept, items, [0] + at)
  {
    assert forall k | 0 <= k < |at| :: at[k] in at;
  }

  lemma DedupHead(items: seq<Value>, seen: set<HashKey>)
    requires items != []
    ensures var seen' := if items[0].Leaf? then seen + {KeyOf(items[0].scalar)} else seen;
            Dedup(items, seen) == (if IsFirst(items, 0, seen) then [items[0]] else []) + Dedup(items[1..], seen')
  {
    if items[0].Leaf? && KeyOf(items[0].scalar) in seen {
      assert seen + {KeyOf(items[0].scalar)} == seen;
    }
  }

  lemma FirstInTail(items: seq<Value>, i: nat, seen: set<HashKey>)
    requires 0 < i < |items|
    ensures var seen' := if items[0].Leaf? then seen + {KeyOf(items[0].scalar)} else seen;
            IsFirst(items, i, seen) <==> IsFirst(items[1..], i - 1, seen')
  {
    hide KeyOf;
    var tail := items[1..];
    assert tail[i - 1] == items[i];
    assert forall j | 0 <= j < i - 1 :: tail[j] == items[j + 1];
    if IsFirst(items[1..], i - 1, if items[0].Leaf? then seen + {KeyOf(items[0].scalar)} else seen) {
      forall j | 0 <= j < i && items[j].Leaf? && items[i].Leaf?
        ensures KeyOf(items[j].scalar) != KeyOf(items[i].scalar)
      {
        if j > 0 { assert tail[j - 1] == items[j]; }
      }
    }
  }

  /** The scalars of a list, as Python compares them. */
  ghost predicate HasKey(items: seq<Value>, key: HashKey)
  {
    exists i :: 0 <= i < |items| && items[i].Leaf? && KeyOf(items[i].scalar) == key
  }

  /** So no scalar occurs twice, and none is lost. */
  lemma DedupIsASetOfScalars(items: seq<Value>)
    ensures var kept := Dedup(items, {});
            && (forall k, l | 0 <= k < l < |kept| && kept[k].Leaf? && kept[l].Leaf? ::
                  KeyOf(kept[k].scalar) != KeyOf(kept[l].scalar))
            && (forall key :: HasKey(kept, key) <==> HasKey(items, key))
  {
    hide KeyOf, Dedup;
    var kept := Dedup(items, {});
    var at := DedupKeepsFirsts(items, {});
    forall k, l | 0 <= k < l < |kept| && kept[k].Leaf? && kept[l].Leaf?
      ensures KeyOf(kept[k].scalar) != KeyOf(kept[l].scalar)
    {
      assert at[l] in at && IsFirst(items, at[l], {});
    }
    forall key ensures HasKey(kept, key) <==> HasKey(items, key) {
      if HasKey(kept, key) {
        var k :| 0 <= k < |kept| && kept[k].Leaf? && KeyOf(kept[k].scalar) == key;
        assert items[at[k]].Leaf? && KeyOf(items[at[k]].scalar) == key;
      }
      if HasKey(items, key) {
        var i := FirstWithKey(items, key);
        assert i in at;
        var k :| 0 <= k < |at| && at[k] == i;
        assert kept[k] == items[i];
      }
    }
  }

  lemma {:induction false} FirstWithKey(items: seq<Value>, key: HashKey) returns (i: nat)
    requires HasKey(items, key)
    ensures i < |items| && items[i].Leaf? && KeyOf(items[i].scalar) == key && IsFirst(items, i, {})
    decreases |items|
  {
    hide KeyOf;
    i :| i < |items| && items[i].Leaf? && KeyOf(items[i].scalar) == key;
    if exists j: nat :: j < i && items[j].Leaf? && KeyOf(items[j].scalar) == key {
      var earlier := items[..i];
      var j: nat :| j < i && items[j].Leaf? && KeyOf(items[j].scalar) == key;
      assert earlier[j] == items[j];
      i := FirstWithKey(earlier, key);
    }
  }

  function JoinLists(a: seq<Value>, b: seq<Value>, mode: ListMode): seq<Value>
  {
    match mode
    case Append => a + b
    case ExtendUnique => Dedup(a + b, {})
    case _ => b
  }

  lemma {:induction false} DedupLeft(x: seq<Value>, y: seq<Value>, seen: set<HashKey>)
    ensures Dedup(Dedup(x, seen) + y, seen) == Dedup(x + y, seen)
  {
    if x == [] {
      assert x + y == y && Dedup(x, seen) + y == y;
    } else {
      assert (x + y)[1..] == x[1..] + y;
      var seen' := if x[0].Leaf? then seen + {KeyOf(x[0].scalar)} else seen;
      DedupLeft(x[1..], y, seen);
      DedupLeft(x[1..], y, seen');
      assert ([x[0]] + Dedup(x[1..], seen') + y)[1..] == Dedup(x[1..], seen') + y;
    }
  }

  lemma {:induction false} DedupTwice(y: seq<Value>, inner: set<HashKey>, outer: set<HashKey>)
    requires inner <= outer
    ensures Dedup(Dedup(y, inner), outer) == Dedup(y, outer)
  {
    if y != [] {
      if y[0].Leaf? {
        var key := KeyOf(y[0].scalar);
        DedupTwice(y[1..], inner, outer);
        DedupTwice(y[1..], inner + {key}, outer + {key});
        if key in outer { assert outer + {key} == outer; }
      } else {
        DedupTwice(y[1..], inner, outer);
      }
    }
  }

  lemma {:induction false} DedupRight(x: seq<Value>, y: seq<Value>, seen: set<HashKey>)
    ensures Dedup(x + Dedup(y, {}), seen) == Dedup(x + y, seen)
  {
    if x == [] {
      assert x + y == y && x + Dedup(y, {}) == Dedup(y, {});
      DedupTwice(y, {}, seen);
    } else {
      var y' := Dedup(y, {});
      assert (x + y)[1..] == x[1..] + y && (x + y')[1..] == x[1..] + y';
      DedupRight(x[1..], y, seen);
      if x[0].Leaf? { DedupRight(x[1..], y, seen + {KeyOf(x[0].scalar)}); }
    }
  }

  /** All three list modes are associative; `extend_unique` reduces to first-occurrence
      dedup of the whole concatenation. */
  lemma JoinListsAssociative(a: seq<Value>, b: seq<Value>, c: seq<Value>, mode: ListMode)
    ensures JoinLists(JoinLists(a, b, mode), c, mode) == JoinLists(a, JoinLists(b, c, mode), mode)
    ensures mode == ExtendUnique ==> JoinLists(JoinLists(a, b, mode), c, mode) == Dedup(a + b + c, {})
  {
    assert a + b + c == a + (b + c);
    if mode == ExtendUnique {
      DedupLeft(a + b, c, {});
      DedupRight(a, b + c, {});
    }
  }

  // ----- the merge

  function MergeValue(b: Value, v: Value, mode: ListMode): Value
    decreases b
  {
    if b.Dict? && v.Dict? then
      Dict(map k | k in b.entries.Keys + v.entries.Keys ::
             if k !in v.entries then b.entries[k]
             else if k !in b.entries then v.entries[k]
             else MergeValue(b.entries[k], v.entries[k], mode))
    else if b.List? && v.List? then List(JoinLists(b.items, v.items, mode))
    else v
  }

  function Merge(base: Conf, over: Conf, mode: ListMode): (r: Conf)
    ensures r.Keys == base.Keys + over.Keys
  {
    MergeValue(Dict(base), Dict(over), mode).entries
  }

  lemma MergeAt(base: Conf, over: Conf, k: string, mode: ListMode)
    requires k in over
    ensures Merge(base, over, mode)[k] == if k in base then MergeValue(base[k], over[k], mode) else over[k]
  {
  }

  lemma MergeKeeps(base: Conf, over: Conf, mode: ListMode)
    ensures forall k | k in base && k !in over :: Merge(base, over, mode)[k] == base[k]
  {
  }

  /** Values that are not both dictionaries. */
  lemma MergeOfOthers(b: Value, v: Value, mode: ListMode)
    requires !(b.Dict? && v.Dict?)
    ensures !(b.List? && v.List? && (mode == Append || mode == ExtendUnique)) ==> MergeValue(b, v, mode) == v
    ensures b.List? && v.List? && mode == Append ==> MergeValue(b, v, mode) == List(b.items + v.items)
    ensures b.List? && v.List? && mode == ExtendUnique ==>
              MergeValue(b, v, mode) == List(Dedup(b.items + v.items, {}))
  {
  }

  lemma MergeOfDicts(b: Value, v: Value, mode: ListMode)
    requires b.Dict? && v.Dict?
    ensures MergeValue(b, v, mode) == Dict(Merge(b.entries, v.entries, mode))
  {
  }

  /** `Config.merge_dicts`: the loop over the override's items, in any order. */
  method MergeDicts(base: Conf, over: Conf, mode: ListMode) returns (out: Conf)
    ensures out == Merge(base, over, mode)
    decreases Dict(base)
  {
    hide Dedup, Merge, MergeValue, JoinLists;
    out := base;
    var rest := over.Keys;
    MergeKeeps(base, over, mode);
    while rest != {}
      invariant rest <= over.Keys
      invariant out.Keys == base.Keys + (over.Keys - rest)
      invariant forall k | k in rest && k in base :: out[k] == base[k]
      invariant forall k | k in out && k !in rest :: out[k] == Merge(base, over, mode)[k]
    {
      var k :| k in rest;
      var v := over[k];
      rest := rest - {k};
      MergeAt(base, over, k, mode);
      if k in out && out[k].Dict? && v.Dict? {
        assert Dict(out[k].entries) == base[k];
        MergeOfDicts(base[k], v, mode);
        var inner := MergeDicts(out[k].entries, v.entries, mode);
        out := out[k := Dict(inner)];
        continue;
      }
      if k in base && !(base[k].Dict? && v.Dict?) { MergeOfOthers(base[k], v, mode); }
      if k in out && out[k].List? && v.List? {
        if mode == Append {
          out := out[k := List(out[k].items + v.items)];
        } else if mode == ExtendUnique {
          var merged := DedupLoop(out[k].items + v.items);
          out := out[k := List(merged)];
        } else {
          out := out[k := v];
        }
        continue;
      }
      out := out[k := v];
    }
  }

  /** `deep_merge_dict` of h2kvm/core/guest_utils.py is the merge in replace mode. */
  method DeepMergeDict(base: Conf, over: Conf) returns (out: Conf)
    ensures out == Merge(base, over, Replace)
    decreases Dict(base)
  {
    out := base;
    var rest := over.Keys;
    while rest != {}
      invariant rest <= over.Keys
      invariant out.Keys == base.Keys + (over.Keys - rest)
      invariant forall k | k in rest && k in base :: out[k] == base[k]
      invariant forall k | k in out && k !in rest :: out[k] == Merge(base, over, Replace)[k]
    {
      var k :| k in rest;
      var v := over[k];
      rest := rest - {k};
      MergeAt(base, over, k, Replace);
      if k in out && out[k].Dict? && v.Dict? {
        assert Dict(out[k].entries) == base[k];
        MergeOfDicts(base[k], v, Replace);
        var inner := DeepMergeDict(out[k].entries, v.entries);
        out := out[k := Dict(inner)];
      } else {
        out := out[k := v];
      }
    }
  }

  // ----- associativity

  /** `b` sits between two values that would merge with each other. */
  predicate Sandwiched(a: Value, b: Value, c: Value)
  {
    || (a.Dict? && !b.Dict? && c.Dict?)
    || (a.List? && !b.List? && c.List?)
  }

  /** Wherever a layer of another kind is sandwiched, the outer layers add nothing
      to each other. */
  predicate SandwichesAbsorb(a: Value, b: Value, c: Value, mode: ListMode)
    decreases a
  {
    if Sandwiched(a, b, c) then MergeValue(a, c, mode) == c
    else if a.Dict? && b.Dict? && c.Dict? then
      forall k | k in a.entries && k in b.entries && k in c.entries ::
        SandwichesAbsorb(a.entries[k], b.entries[k], c.entries[k], mode)
    else true
  }

  ghost predicate Associates(a: Value, b: Value, c: Value, mode: ListMode)
  {
    MergeValue(MergeValue(a, b, mode), c, mode) == MergeValue(a, MergeValue(b, c, mode), mode)
  }

  /** Deep merge is associative exactly when no sandwiched layer hides a real change. */
  lemma {:induction false} MergeAssociativeExactly(a: Value, b: Value, c: Value, mode: ListMode)
    ensures Associates(a, b, c, mode) <==> SandwichesAbsorb(a, b, c, mode)
    decreases a
  {
    if a.Dict? && b.Dict? && c.Dict? {
      var left := MergeValue(MergeValue(a, b, mode), c, mode);
      var right := MergeValue(a, MergeValue(b, c, mode), mode);
      assert left.entries.Keys == right.entries.Keys;
      forall k | k in a.entries && k in b.entries && k in c.entries
        ensures left.entries[k] == right.entries[k] <==>
                SandwichesAbsorb(a.entries[k], b.entries[k], c.entries[k], mode)
      {
        MergeAssociativeExactly(a.entries[k], b.entries[k], c.entries[k], mode);
      }
      if SandwichesAbsorb(a, b, c, mode) {
        assert left.entries == right.entries;
      }
    } else if a.List? && b.List? && c.List? {
      JoinListsAssociative(a.items, b.items, c.items, mode);
    }
  }

  /** The two values have the same kind at every key path they share. */
  predicate SameKinds(a: Value, b: Value)
    decreases a
  {
    && (a.Dict? <==> b.Dict?)
    && (a.List? <==> b.List?)
    && (a.Dict? ==> forall k | k in a.entries && k in b.entries :: SameKinds(a.entries[k], b.entries[k]))
  }

  lemma {:induction false} SameKindsAbsorb(a: Value, b: Value, c: Value, mode: ListMode)
    requires SameKinds(a, b)
    ensures SandwichesAbsorb(a, b, c, mode)
    decreases a
  {
    if a.Dict? && c.Dict? {
      forall k | k in a.entries && k in b.entries && k in c.entries
        ensures SandwichesAbsorb(a.entries[k], b.entries[k], c.entries[k], mode)
      {
        SameKindsAbsorb(a.entries[k], b.entries[k], c.entries[k], mode);
      }
    }
  }

  /** Layers of consistent kinds merge associatively in every list mode; agreement of
      the first two layers is enough. */
  lemma ConsistentLayersAssociate(a: Conf, b: Conf, c: Conf, mode: ListMode)
    requires SameKinds(Dict(a), Dict(b))
    ensures Merge(Merge(a, b, mode), c, mode) == Merge(a, Merge(b, c, mode), mode)
  {
    SameKindsAbsorb(Dict(a), Dict(b), Dict(c), mode);
    MergeAssociativeExactly(Dict(a), Dict(b), Dict(c), mode);
  }

  /** Without it associativity fails: a dict, a scalar, a dict at one key. */
  lemma DictScalarDictFails(mode: ListMode)
    ensures var a := map["net" := Dict(map["a" := Leaf(Int(1))])];
            var b := map["net" := Leaf(Null)];
            var c := map["net" := Dict(map["b" := Leaf(Int(2))])];
            Merge(Merge(a, b, mode), c, mode) != Merge(a, Merge(b, c, mode), mode)
  {
    var d1 := Dict(map["a" := Leaf(Int(1))]);
    var d2 := Dict(map["b" := Leaf(Int(2))]);
    var a, b, c := Dict(map["net" := d1]), Dict(map["net" := Leaf(Null)]), Dict(map["net" := d2]);
    assert "a" in MergeValue(d1, d2, mode).entries && "a" !in d2.entries;
    assert !SandwichesAbsorb(a.entries["net"], b.entries["net"], c.entries["net"], mode);
    MergeAssociativeExactly(a, b, c, mode);
  }

  // ----- which layer decides a path

  datatype Lookup = Missing | Found(value: Value)

  function At(v: Value, path: seq<string>): Lookup
    decreases |path|
  {
    if path == [] then Found(v)
    else if v.Dict? && path[0] in v.entries then At(v.entries[path[0]], path[1..])
    else Missing
  }

  /** The layer has some value at `path`, or a non-dict at a proper prefix of it. */
  ghost predicate Covers(layer: Value, path: seq<string>)
  {
    || At(layer, path).Found?
    || (exists n :: 0 <= n < |path| && At(layer, path[..n]).Found? && !At(layer, path[..n]).value.Dict?)
  }

  predicate Touches(v: Value, path: seq<string>)
    decreases |path|
  {
    path == [] || !v.Dict? || (path[0] in v.entries && Touches(v.entries[path[0]], path[1..]))
  }

  lemma {:induction false} TouchesIsCovers(v: Value, path: seq<string>)
    ensures Touches(v, path) <==> Covers(v, path)
    decreases |path|
  {
    if path == [] {
    } else if !v.Dict? {
      assert At(v, path[..0]) == Found(v);
    } else if path[0] !in v.entries {
      forall n | 0 <= n < |path|
        ensures !(At(v, path[..n]).Found? && !At(v, path[..n]).value.Dict?)
      {
        if n > 0 { assert path[..n][0] == path[0]; }
      }
    } else {
      var w, rest := v.entries[path[0]], path[1..];
      TouchesIsCovers(w, rest);
      forall n | 0 <= n < |rest|
        ensures At(v, path[..n + 1]) == At(w, rest[..n])
      {
        assert path[..n + 1][1..] == rest[..n];
      }
      if Covers(v, path) && !At(v, path).Found? {
        var n :| 0 <= n < |path| && At(v, path[..n]).Found? && !At(v, path[..n]).value.Dict?;
        assert n > 0;
        assert At(v, path[..(n - 1) + 1]) == At(w, rest[..n - 1]);
      }
      if Covers(w, rest) && !At(w, rest).Found? {
        var n :| 0 <= n < |rest| && At(w, rest[..n]).Found? && !At(w, rest[..n]).value.Dict?;
        assert At(v, path[..n + 1]) == At(w, rest[..n]);
      }
    }
  }

  /** A leaf the list mode cannot combine: a scalar, or any non-dict when lists replace. */
  predicate Atomic(x: Value, mode: ListMode)
  {
    x.Leaf? || (x.List? && mode != Append && mode != ExtendUnique)
  }

  lemma {:induction false} FoundIsTouched(v: Value, path: seq<string>)
    requires At(v, path).Found?
    ensures Touches(v, path)
    decreases |path|
  {
    if path != [] { FoundIsTouched(v.entries[path[0]], path[1..]); }
  }

  lemma {:induction false} MergeDecides(a: Value, b: Value, path: seq<string>, x: Value, mode: ListMode)
    requires Atomic(x, mode)
    ensures At(MergeValue(a, b, mode), path) == Found(x) <==>
            if Touches(b, path) then At(b, path) == Found(x) else At(a, path) == Found(x)
    decreases |path|
  {
    if At(b, path).Found? { FoundIsTouched(b, path); }
    if path != [] && b.Dict? && path[0] in b.entries && a.Dict? && path[0] in a.entries {
      MergeDecides(a.entries[path[0]], b.entries[path[0]], path[1..], x, mode);
    }
  }

  /** Two lists at one path become one: the later list, the two in order, or the first
      occurrences of the two in order. */
  lemma {:induction false} MergedLists(a: Value, b: Value, path: seq<string>, l1: seq<Value>, l2: seq<Value>,
                                       mode: ListMode)
    requires At(a, path) == Found(List(l1)) && At(b, path) == Found(List(l2))
    ensures At(MergeValue(a, b, mode), path).Found?
    ensures var merged := At(MergeValue(a, b, mode), path).value;
            && merged.List?
            && (mode == Append ==> merged.items == l1 + l2)
            && (mode == ExtendUnique ==> exists at :: KeepsFirsts(merged.items, l1 + l2, {}, at))
            && (mode != Append && mode != ExtendUnique ==> merged.items == l2)
    decreases |path|
  {
    if path == [] {
      if mode == ExtendUnique {
        var at := DedupKeepsFirsts(l1 + l2, {});
      }
    } else {
      MergedLists(a.entries[path[0]], b.entries[path[0]], path[1..], l1, l2, mode);
    }
  }

  /** What a path leads to depends only on the item of its first name. */
  lemma AtByFirstName(c: Conf, d: Conf, path: seq<string>)
    requires path != []
    requires path[0] in c <==> path[0] in d
    requires path[0] in c ==> c[path[0]] == d[path[0]]
    ensures At(Dict(c), path) == At(Dict(d), path)
    ensures Covers(Dict(c), path) <==> Covers(Dict(d), path)
  {
    TouchesIsCovers(Dict(c), path);
    TouchesIsCovers(Dict(d), path);
  }

  /** The accumulation of `load_many` over already loaded layers. */
  function FoldLayers(layers: seq<Conf>, mode: ListMode): Conf
  {
    if layers == [] then map[]
    else Merge(FoldLayers(layers[..|layers| - 1], mode), layers[|layers| - 1], mode)
  }

  method FoldLoop(layers: seq<Conf>, mode: ListMode) returns (conf: Conf)
    ensures conf == FoldLayers(layers, mode)
  {
    conf := map[];
    for i := 0 to |layers|
      invariant conf == FoldLayers(layers[..i], mode)
    {
      assert layers[..i + 1][..i] == layers[..i];
      conf := MergeDicts(conf, layers[i], mode);
    }
    assert layers[..|layers|] == layers;
  }

  /** Layer i sets x at the path and no later layer covers the path. */
  ghost predicate Decides(layers: seq<Conf>, i: int, path: seq<string>, x: Value)
  {
    && 0 <= i < |layers|
    && At(Dict(layers[i]), path) == Found(x)
    && forall j | i < j < |layers| :: !Covers(Dict(layers[j]), path)
  }

  /** The fold over any list of layers has leaf x at a path exactly when some layer
      has x there and no later layer has a value there or a non-dict above it. */
  lemma {:induction false} LastCoveringLayerDecides(layers: seq<Conf>, path: seq<string>, x: Value, mode: ListMode)
    requires path != [] && Atomic(x, mode)
    ensures At(Dict(FoldLayers(layers, mode)), path) == Found(x) <==>
            exists i :: Decides(layers, i, path, x)
  {
    if layers != [] {
      var n := |layers| - 1;
      var front, last := layers[..n], layers[n];
      LastCoveringLayerDecides(front, path, x, mode);
      MergeDecides(Dict(FoldLayers(front, mode)), Dict(last), path, x, mode);
      TouchesIsCovers(Dict(last), path);
      if At(Dict(FoldLayers(layers, mode)), path) == Found(x) {
        if Touches(Dict(last), path) {
          assert Decides(layers, n, path, x);
        } else {
          var i :| Decides(front, i, path, x);
          assert Decides(layers, i, path, x);
        }
      }
      if exists i :: Decides(layers, i, path, x) {
        var i :| Decides(layers, i, path, x);
        if i < n {
          assert Decides(front, i, path, x);
        }
      }
    }
  }
}
