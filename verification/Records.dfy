/** Migration records and the knowledge base of h2kvm/ai/models.py and
    h2kvm/ai/knowledge_base.py. */
module Records {

  /** The fields of MigrationFeatures that enter the feature vector. */
  datatype Features = Features(
    sourceFormat: string,
    diskSizeGb: real,
    diskCount: int,
    osFamily: string,
    hasLvm: bool,
    hasLuks: bool,
    hasUefi: bool,
    controllerType: string,
    hasSnapshots: bool,
    snapshotCount: int,
    fstabEntries: int)

  datatype Record = Record(
    id: string,
    timestamp: real,
    features: Features,
    success: bool,
    duration: real,
    errors: seq<string>,
    phases: seq<string>)

  type Table = map<string, Record>

  predicate Keyed(t: Table)
  {
    forall k | k in t :: t[k].id == k
  }

  ghost function Ids(out: seq<Record>): set<string>
  {
    set i | 0 <= i < |out| :: out[i].id
  }

  /** A listing of stored records, each once, newest first. */
  ghost predicate NewestFirst(t: Table, out: seq<Record>)
  {
    && (forall i | 0 <= i < |out| :: out[i].id in t && t[out[i].id] == out[i])
    && (forall i, j | 0 <= i < j < |out| :: out[i].id != out[j].id)
    && (forall i, j | 0 <= i < j < |out| :: out[i].timestamp >= out[j].timestamp)
    && (forall k, i | k in t && k !in Ids(out) && 0 <= i < |out| :: t[k].timestamp <= out[i].timestamp)
  }

  /** `SELECT * ... ORDER BY timestamp DESC LIMIT limit`, with ties in any order. */
  ghost predicate IsNewest(t: Table, limit: nat, out: seq<Record>)
  {
    && NewestFirst(t, out)
    && |out| <= limit
    && (|out| < limit ==> t.Keys <= Ids(out))
  }

  ghost predicate IsLatest(t: Table, k: string)
  {
    k in t && forall q | q in t :: t[q].timestamp <= t[k].timestamp
  }

  /** `rest` is what remains of the table after listing `out`. */
  ghost predicate Remaining(t: Table, rest: Table, out: seq<Record>)
  {
    && rest.Keys == t.Keys - Ids(out)
    && forall k | k in rest :: rest[k] == t[k]
  }

  lemma IdsSnoc(out: seq<Record>, r: Record)
    ensures Ids(out + [r]) == Ids(out) + {r.id}
  {
    var all := out + [r];
    forall k | k in Ids(out) + {r.id} ensures k in Ids(all)
    {
      if k == r.id {
        assert all[|out|].id == k;
      } else {
        var i :| 0 <= i < |out| && out[i].id == k;
        assert all[i].id == k;
      }
    }
  }

  lemma ListLatest(t: Table, rest: Table, out: seq<Record>, k: string)
    requires Keyed(t) && NewestFirst(t, out) && Remaining(t, rest, out) && IsLatest(rest, k)
    ensures NewestFirst(t, out + [rest[k]]) && Remaining(t, rest - {k}, out + [rest[k]])
  {
    IdsSnoc(out, rest[k]);
    forall i | 0 <= i < |out| ensures out[i].id != k { assert out[i].id in Ids(out); }
  }

  class KnowledgeBase {
    var table: Table

    predicate Valid()
      reads this
    {
      Keyed(table)
    }

    /** The records the database file already holds; none when it is new. */
    constructor (stored: Table)
      requires Keyed(stored)
      ensures Valid() && table == stored
    {
      table := stored;
    }

    /** `INSERT OR REPLACE` by record id. */
    method RecordMigration(r: Record)
      requires Valid()
      modifies this
      ensures Valid() && table == old(table)[r.id := r]
    {
      table := table[r.id := r];
    }

    method GetAllRecords(limit: nat) returns (out: seq<Record>)
      requires Valid()
      ensures IsNewest(table, limit, out)
    {
      out := [];
      var rest := table;
      while |out| < limit && rest != map[]
        invariant |out| <= limit
        invariant NewestFirst(table, out) && Remaining(table, rest, out)
        decreases |rest|
      {
        var k := PickLatest(rest);
        ListLatest(table, rest, out, k);
        out := out + [rest[k]];
        rest := rest - {k};
      }
      if rest == map[] { assert rest.Keys == {}; }
    }

    static method PickLatest(rest: Table) returns (k: string)
      requires rest != map[]
      ensures IsLatest(rest, k)
    {
      k :| k in rest;
      var left := rest.Keys - {k};
      while left != {}
        invariant left <= rest.Keys && k in rest && k !in left
        invariant forall q | q in rest && q !in left :: rest[q].timestamp <= rest[k].timestamp
      {
        var q :| q in left;
        left := left - {q};
        if rest[q].timestamp > rest[k].timestamp {
          k := q;
        }
      }
    }
  }

  // ----- a fresh record is among the newest

  lemma {:induction false} IdsCount(out: seq<Record>)
    requires forall i, j | 0 <= i < j < |out| :: out[i].id != out[j].id
    ensures |Ids(out)| == |out|
  {
    if out != [] {
      var n := |out| - 1;
      IdsCount(out[..n]);
      assert out == out[..n] + [out[n]];
      IdsSnoc(out[..n], out[n]);
      assert out[n].id !in Ids(out[..n]);
    }
  }

  lemma OneMore(a: set<string>, x: string, b: set<string>)
    requires a + {x} <= b && x !in a
    ensures |a| + 1 <= |b|
  {
    var c := a + {x};
    assert |c| == |a| + 1;
    assert b == c + (b - c);
  }

  /** A stored record is returned whenever at most `limit` stored records, itself
      included, are as new as it is. */
  lemma NewRecordIsReturned(t: Table, limit: nat, out: seq<Record>, r: Record)
    requires Keyed(t) && IsNewest(t, limit, out)
    requires r.id in t && t[r.id] == r
    requires |set k | k in t && t[k].timestamp >= r.timestamp| <= limit
    ensures r in out
  {
    IdsCount(out);
    if r.id !in Ids(out) {
      OneMore(Ids(out), r.id, set k | k in t && t[k].timestamp >= r.timestamp);
    }
  }
}
