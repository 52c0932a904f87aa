/** Deep key normalisation of h2kvm/config/config_loader.py, on dictionaries that
    remember insertion order: two spellings of one key are resolved by that order,
    the later one wins. */
module ConfigKeys {
  import opened ConfigMerge

  datatype Raw = RawLeaf(scalar: Scalar) | RawList(items: seq<Raw>) | RawDict(pairs: Pairs)

  /** The items of a Python dict; the last one is outermost. */
  datatype Pairs = Empty | Then(front: Pairs, key: string, value: Raw)

  function Underscore(c: char): char
  {
    if c == '-' then '_' else c
  }

  /** `str(k).replace("-", "_")` */
  function Spell(k: string): (r: string)
    ensures |r| == |k| && forall i | 0 <= i < |k| :: r[i] == Underscore(k[i])
  {
    seq(|k|, i requires 0 <= i < |k| => Underscore(k[i]))
  }

  /** The dictionary without its order. */
  function Denote(r: Raw): Value
  {
    match r
    case RawLeaf(x) => Leaf(x)
    case RawList(items) => List(seq(|items|, i requires 0 <= i < |items| => Denote(items[i])))
    case RawDict(pairs) => Dict(DenotePairs(pairs))
  }

  function DenotePairs(p: Pairs): Conf
  {
    match p
    case Empty => map[]
    case Then(front, k, v) => DenotePairs(front)[k := Denote(v)]
  }

  /** `_normalize_keys`, assigning into its output dictionary item by item. */
  function Normalize(r: Raw): Value
  {
    match r
    case RawLeaf(x) => Leaf(x)
    case RawList(items) => List(seq(|items|, i requires 0 <= i < |items| => Normalize(items[i])))
    case RawDict(pairs) => Dict(NormalizePairs(pairs))
  }

  function NormalizePairs(p: Pairs): Conf
  {
    match p
    case Empty => map[]
    case Then(front, k, v) => NormalizePairs(front)[Spell(k) := Normalize(v)]
  }

  // ----- no dash left; idempotence

  /** No key at any depth, inside lists too, contains a dash. */
  predicate DashFree(v: Value)
  {
    match v
    case Leaf(_) => true
    case List(items) => forall i | 0 <= i < |items| :: DashFree(items[i])
    case Dict(entries) => (forall k | k in entries :: '-' !in k) && (forall k | k in entries :: DashFree(entries[k]))
  }

  lemma {:induction false} NormalizedIsDashFree(r: Raw)
    ensures DashFree(Normalize(r))
  {
    match r
    case RawLeaf(_) =>
    case RawList(items) =>
      forall i | 0 <= i < |items| ensures DashFree(Normalize(items[i])) { NormalizedIsDashFree(items[i]); }
    case RawDict(pairs) => NormalizedPairsAreDashFree(pairs);
  }

  lemma {:induction false} NormalizedPairsAreDashFree(p: Pairs)
    ensures forall k | k in NormalizePairs(p) :: '-' !in k && DashFree(NormalizePairs(p)[k])
  {
    if p.Then? {
      NormalizedPairsAreDashFree(p.front);
      NormalizedIsDashFree(p.value);
    }
  }

  lemma DashFreeSpelling(k: string)
    requires '-' !in k
    ensures Spell(k) == k
  {
  }

  /** A dictionary without dashes normalises to itself, whatever its order. */
  lemma {:induction false} DashFreeIsFixed(r: Raw)
    requires DashFree(Denote(r))
    ensures Normalize(r) == Denote(r)
  {
    match r
    case RawLeaf(_) =>
    case RawList(items) =>
      forall i | 0 <= i < |items|
        ensures Normalize(items[i]) == Denote(items[i])
      {
        assert Denote(r).items[i] == Denote(items[i]);
        DashFreeIsFixed(items[i]);
      }
    case RawDict(pairs) => DashFreePairsAreFixed(pairs);
  }

  lemma {:induction false} DashFreePairsAreFixed(p: Pairs)
    requires forall k | k in DenotePairs(p) :: '-' !in k
    ensures NormalizePairs(p).Keys == DenotePairs(p).Keys
    ensures forall k | k in DenotePairs(p) && DashFree(DenotePairs(p)[k]) :: NormalizePairs(p)[k] == DenotePairs(p)[k]
  {
    if p.Then? {
      assert p.key in DenotePairs(p);
      forall k | k in DenotePairs(p.front) ensures '-' !in k { assert k in DenotePairs(p); }
      DashFreePairsAreFixed(p.front);
      DashFreeSpelling(p.key);
      if DashFree(Denote(p.value)) { DashFreeIsFixed(p.value); }
    }
  }

  /** Idempotence: normalising again any dictionary equal to the result gives it back. */
  lemma NormalizeIdempotent(r: Raw, again: Raw)
    requires Denote(again) == Normalize(r)
    ensures Normalize(again) == Normalize(r)
  {
    NormalizedIsDashFree(r);
    DashFreeIsFixed(again);
  }

  // ----- the merge on ordered dictionaries

  function Keys(p: Pairs): set<string>
  {
    match p
    case Empty => {}
    case Then(front, k, _) => Keys(front) + {k}
  }

  function Get(p: Pairs, k: string): Raw
    requires k in Keys(p)
  {
    if p.key == k then p.value else Get(p.front, k)
  }

  /** `out[k] = v`: in place when the key exists, at the end otherwise. */
  function Put(p: Pairs, k: string, v: Raw): (r: Pairs)
    ensures Keys(r) == Keys(p) + {k}
  {
    match p
    case Empty => Then(Empty, k, v)
    case Then(front, k0, v0) => if k0 == k then Then(front, k, v) else Then(Put(front, k, v), k0, v0)
  }

  function RawDedup(items: seq<Raw>, seen: set<HashKey>): seq<Raw>
  {
    if items == [] then []
    else if items[0].RawLeaf? then
      var key := KeyOf(items[0].scalar);
      if key in seen then RawDedup(items[1..], seen) else [items[0]] + RawDedup(items[1..], seen + {key})
    else [items[0]] + RawDedup(items[1..], seen)
  }

  function RawJoin(a: seq<Raw>, b: seq<Raw>, mode: ListMode): seq<Raw>
  {
    match mode
    case Append => a + b
    case ExtendUnique => RawDedup(a + b, {})
    case _ => b
  }

  function MergeRaw(a: Raw, b: Raw, mode: ListMode): Raw
    decreases b
  {
    if a.RawDict? && b.RawDict? then RawDict(MergePairs(a.pairs, b.pairs, mode))
    else if a.RawList? && b.RawList? then RawList(RawJoin(a.items, b.items, mode))
    else b
  }

  /** The loop of `merge_dicts` over the override's items, on an ordered `out`. */
  function MergePairs(a: Pairs, b: Pairs, mode: ListMode): (out: Pairs)
    ensures Keys(out) == Keys(a) + Keys(b)
    decreases b
  {
    match b
    case Empty => a
    case Then(front, k, v) =>
      var out := MergePairs(a, front, mode);
      Put(out, k, if k in Keys(out) then MergeRaw(Get(out, k), v, mode) else v)
  }

  /** A Python dict has each key once, at every level. */
  predicate Proper(r: Raw)
  {
    match r
    case RawLeaf(_) => true
    case RawList(items) => forall i | 0 <= i < |items| :: Proper(items[i])
    case RawDict(pairs) => ProperPairs(pairs)
  }

  predicate ProperPairs(p: Pairs)
  {
    p.Then? ==> p.key !in Keys(p.front) && Proper(p.value) && ProperPairs(p.front)
  }

  lemma {:induction false} GetAfterPut(p: Pairs, k: string, v: Raw, q: string)
    requires q in Keys(p) + {k}
    ensures Get(Put(p, k, v), q) == if q == k then v else Get(p, q)
  {
    if p.Then? && p.key != k {
      if q in Keys(p.front) + {k} { GetAfterPut(p.front, k, v, q); }
    }
  }

  /** A key the override lacks keeps the base's item. */
  lemma {:induction false} GetAfterMerge(a: Pairs, b: Pairs, q: string, mode: ListMode)
    requires q in Keys(a) && q !in Keys(b)
    ensures Get(MergePairs(a, b, mode), q) == Get(a, q)
    decreases b
  {
    if b.Then? {
      GetAfterMerge(a, b.front, q, mode);
      var out := MergePairs(a, b.front, mode);
      GetAfterPut(out, b.key, if b.key in Keys(out) then MergeRaw(Get(out, b.key), b.value, mode) else b.value, q);
    }
  }

  // ----- the ordered merge refines the merge of ConfigMerge

  lemma {:induction false} DenotedGet(p: Pairs)
    ensures DenotePairs(p).Keys == Keys(p)
    ensures forall k | k in Keys(p) :: DenotePairs(p)[k] == Denote(Get(p, k))
  {
    if p.Then? { DenotedGet(p.front); }
  }

  lemma {:induction false} DenoteAfterPut(p: Pairs, k: string, v: Raw)
    ensures DenotePairs(Put(p, k, v)) == DenotePairs(p)[k := Denote(v)]
  {
    if p.Then? && p.key != k { DenoteAfterPut(p.front, k, v); }
  }

  function DenoteItems(items: seq<Raw>): (r: seq<Value>)
    ensures |r| == |items| && forall i | 0 <= i < |items| :: r[i] == Denote(items[i])
  {
    seq(|items|, i requires 0 <= i < |items| => Denote(items[i]))
  }

  lemma {:induction false} DedupDenotes(items: seq<Raw>, seen: set<HashKey>)
    ensures DenoteItems(RawDedup(items, seen)) == Dedup(DenoteItems(items), seen)
  {
    if items != [] {
      assert DenoteItems(items)[1..] == DenoteItems(items[1..]);
      var seen' := if items[0].RawLeaf? then seen + {KeyOf(items[0].scalar)} else seen;
      DedupDenotes(items[1..], seen);
      DedupDenotes(items[1..], seen');
      assert DenoteItems([items[0]] + RawDedup(items[1..], seen')) ==
             [Denote(items[0])] + DenoteItems(RawDedup(items[1..], seen'));
    }
  }

  /** Forgetting the order, the ordered merge is exactly `Merge`. */
  lemma {:induction false} OrderedMergeRefinesMerge(a: Raw, b: Raw, mode: ListMode)
    requires Proper(b)
    ensures Denote(MergeRaw(a, b, mode)) == MergeValue(Denote(a), Denote(b), mode)
    decreases b
  {
    if a.RawDict? && b.RawDict? {
      OrderedPairsRefineMerge(a.pairs, b.pairs, mode);
    } else if a.RawList? && b.RawList? {
      assert DenoteItems(a.items + b.items) == DenoteItems(a.items) + DenoteItems(b.items);
      if mode == ExtendUnique { DedupDenotes(a.items + b.items, {}); }
      assert DenoteItems(RawJoin(a.items, b.items, mode)) ==
             JoinLists(DenoteItems(a.items), DenoteItems(b.items), mode);
    }
  }

  lemma {:induction false} OrderedPairsRefineMerge(a: Pairs, b: Pairs, mode: ListMode)
    requires ProperPairs(b)
    ensures DenotePairs(MergePairs(a, b, mode)) == Merge(DenotePairs(a), DenotePairs(b), mode)
    decreases b
  {
    if b.Empty? {
      assert Merge(DenotePairs(a), map[], mode) == DenotePairs(a);
    } else {
      var Then(front, k, v) := b;
      var out := MergePairs(a, front, mode);
      OrderedPairsRefineMerge(a, front, mode);
      DenotedGet(a);
      DenotedGet(front);
      DenoteAfterPut(out, k, if k in Keys(out) then MergeRaw(Get(out, k), v, mode) else v);
      if k in Keys(a) {
        GetAfterMerge(a, front, k, mode);
        OrderedMergeRefinesMerge(Get(a, k), v, mode);
      }
      PutCommutes(DenotePairs(a), DenotePairs(front), k, Denote(v), mode);
    }
  }

  // ----- normalisation commutes with the merge

  ghost predicate SpellsApart(ks: set<string>)
  {
    forall x, y | x in ks && y in ks && Spell(x) == Spell(y) :: x == y
  }

  /** Dash-to-underscore is injective on the union of the keys at each merged level. */
  ghost predicate LevelsSpellApart(a: Raw, b: Raw)
    decreases b
  {
    a.RawDict? && b.RawDict? ==>
      && SpellsApart(Keys(a.pairs) + Keys(b.pairs))
      && ItemsSpellApart(a.pairs, b.pairs)
  }

  ghost predicate ItemsSpellApart(a: Pairs, b: Pairs)
    decreases b
  {
    b.Then? ==>
      && ItemsSpellApart(a, b.front)
      && (b.key in Keys(a) ==> LevelsSpellApart(Get(a, b.key), b.value))
  }

  lemma {:induction false} NormalizedKeys(p: Pairs, k: string)
    requires SpellsApart(Keys(p) + {k})
    ensures Spell(k) in NormalizePairs(p) <==> k in Keys(p)
    ensures k in Keys(p) ==> NormalizePairs(p)[Spell(k)] == Normalize(Get(p, k))
  {
    if p.Then? {
      assert SpellsApart(Keys(p.front) + {k});
      NormalizedKeys(p.front, k);
      assert Spell(p.key) == Spell(k) <==> p.key == k;
    }
  }

  lemma {:induction false} NormalizeAfterPut(p: Pairs, k: string, v: Raw)
    requires SpellsApart(Keys(p) + {k})
    ensures NormalizePairs(Put(p, k, v)) == NormalizePairs(p)[Spell(k) := Normalize(v)]
  {
    if p.Then? && p.key != k {
      assert SpellsApart(Keys(p.front) + {k});
      NormalizeAfterPut(p.front, k, v);
      assert Spell(p.key) != Spell(k);
    }
  }

  function NormalizeItems(items: seq<Raw>): (r: seq<Value>)
    ensures |r| == |items| && forall i | 0 <= i < |items| :: r[i] == Normalize(items[i])
  {
    seq(|items|, i requires 0 <= i < |items| => Normalize(items[i]))
  }

  lemma {:induction false} DedupCommutes(items: seq<Raw>, seen: set<HashKey>)
    ensures NormalizeItems(RawDedup(items, seen)) == Dedup(NormalizeItems(items), seen)
  {
    if items != [] {
      assert NormalizeItems(items)[1..] == NormalizeItems(items[1..]);
      var seen' := if items[0].RawLeaf? then seen + {KeyOf(items[0].scalar)} else seen;
      DedupCommutes(items[1..], seen);
      DedupCommutes(items[1..], seen');
      assert NormalizeItems([items[0]] + RawDedup(items[1..], seen')) ==
             [Normalize(items[0])] + NormalizeItems(RawDedup(items[1..], seen'));
    }
  }

  lemma JoinCommutes(a: seq<Raw>, b: seq<Raw>, mode: ListMode)
    ensures NormalizeItems(RawJoin(a, b, mode)) == JoinLists(NormalizeItems(a), NormalizeItems(b), mode)
  {
    assert NormalizeItems(a + b) == NormalizeItems(a) + NormalizeItems(b);
    if mode == ExtendUnique { DedupCommutes(a + b, {}); }
  }

  /** Merging then normalising equals normalising then merging, in every list mode,
      when the spellings of each merged level are apart. */
  lemma {:induction false} NormalizeCommutesWithMerge(a: Raw, b: Raw, mode: ListMode)
    requires Proper(a) && Proper(b) && LevelsSpellApart(a, b)
    ensures Normalize(MergeRaw(a, b, mode)) == MergeValue(Normalize(a), Normalize(b), mode)
    decreases b
  {
    if a.RawDict? && b.RawDict? {
      PairsCommute(a.pairs, b.pairs, mode);
    } else if a.RawList? && b.RawList? {
      JoinCommutes(a.items, b.items, mode);
    }
  }

  lemma {:induction false} ProperGet(p: Pairs, k: string)
    requires ProperPairs(p) && k in Keys(p)
    ensures Proper(Get(p, k))
  {
    if p.key != k { ProperGet(p.front, k); }
  }

  lemma {:induction false} PairsCommute(a: Pairs, b: Pairs, mode: ListMode)
    requires ProperPairs(a) && ProperPairs(b)
    requires SpellsApart(Keys(a) + Keys(b)) && ItemsSpellApart(a, b)
    ensures NormalizePairs(MergePairs(a, b, mode)) == Merge(NormalizePairs(a), NormalizePairs(b), mode)
    decreases b
  {
    if b.Empty? {
      assert Merge(NormalizePairs(a), map[], mode) == NormalizePairs(a);
    } else {
      var Then(front, k, v) := b;
      var out := MergePairs(a, front, mode);
      assert SpellsApart(Keys(a) + Keys(front)) && SpellsApart(Keys(out) + {k});
      assert SpellsApart(Keys(a) + {k}) && SpellsApart(Keys(front) + {k});
      PairsCommute(a, front, mode);
      NormalizedKeys(a, k);
      NormalizedKeys(front, k);
      var w := if k in Keys(out) then MergeRaw(Get(out, k), v, mode) else v;
      NormalizeAfterPut(out, k, w);
      if k in Keys(a) {
        GetAfterMerge(a, front, k, mode);
        ProperGet(a, k);
        NormalizeCommutesWithMerge(Get(a, k), v, mode);
      }
      PutCommutes(NormalizePairs(a), NormalizePairs(front), Spell(k), Normalize(v), mode);
    }
  }

  /** Overriding one more key only changes that key of the merge. */
  lemma PutCommutes(a: Conf, f: Conf, k: string, v: Value, mode: ListMode)
    requires k !in f
    ensures Merge(a, f[k := v], mode) == Merge(a, f, mode)[k := if k in a then MergeValue(a[k], v, mode) else v]
  {
    var left := Merge(a, f[k := v], mode);
    var right := Merge(a, f, mode)[k := if k in a then MergeValue(a[k], v, mode) else v];
    assert left.Keys == right.Keys;
    MergeAt(a, f[k := v], k, mode);
    forall q | q in f ensures left[q] == right[q]
    {
      MergeAt(a, f[k := v], q, mode);
      MergeAt(a, f, q, mode);
    }
  }

  /** Without the condition it fails: the base spells one key in both ways. */
  lemma MixedSpellingFails(mode: ListMode)
    ensures var a := RawDict(Then(Then(Empty, "a-b", RawLeaf(Int(1))), "a_b", RawLeaf(Int(0))));
            var b := RawDict(Then(Empty, "a-b", RawLeaf(Int(2))));
            && Proper(a) && Proper(b)
            && Normalize(MergeRaw(a, b, mode)) != MergeValue(Normalize(a), Normalize(b), mode)
  {
    assert Spell("a-b") == "a_b" && Spell("a_b") == "a_b";
    assert "a-b"[1] != "a_b"[1];
    var a := Then(Then(Empty, "a-b", RawLeaf(Int(1))), "a_b", RawLeaf(Int(0)));
    var b := Then(Empty, "a-b", RawLeaf(Int(2)));
    assert MergePairs(a, Empty, mode) == a;
    assert MergePairs(a, b, mode) == Then(Then(Empty, "a-b", RawLeaf(Int(2))), "a_b", RawLeaf(Int(0)));
    assert NormalizePairs(MergePairs(a, b, mode))["a_b"] == Leaf(Int(0));
    MergeAt(NormalizePairs(a), NormalizePairs(b), "a_b", mode);
  }
}
