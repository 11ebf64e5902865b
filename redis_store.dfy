/**
 * The Redis side of the route: one hash per donation under the key
 * `record:<index>`, the existence checks that find the new records and the
 * `hSet` writes that store them.
 */
module RedisStore {
  import opened Donations

  /** A Redis hash: field name to value. */
  type Hash = map<string, string>

  /** The keyspace, with key `record:<i>` written as `i`. */
  type Keyspace = map<int, Hash>

  /** `HSET record:<key> field value`: creates the hash when the key is absent,
      sets one field and leaves every other key alone. */
  function SetField(m: Keyspace, key: int, field: string, value: string): (r: Keyspace)
    ensures key in r && field in r[key] && r[key][field] == value
    ensures forall f :: f in r[key] && f != field ==> key in m && f in m[key] && r[key][f] == m[key][f]
    ensures forall f :: key in m && f in m[key] ==> f in r[key]
    ensures forall k :: k != key ==> (k in r <==> k in m) && (k in m ==> r[k] == m[k])
  {
    m[key := (if key in m then m[key] else map[])[field := value]]
  }

  /** The hash a new record is stored as. */
  function Fields(r: Record): Hash {
    map["name" := r.name, "amount" := r.amount]
  }

  /** The two `hSet` calls for one record: its name, then its amount. */
  function WriteRecord(m: Keyspace, rec: Record): (m': Keyspace)
    ensures rec.index in m' && "name" in m'[rec.index] && "amount" in m'[rec.index]
    ensures m'[rec.index]["name"] == rec.name && m'[rec.index]["amount"] == rec.amount
    ensures m'.Keys == m.Keys + {rec.index}
    ensures forall k :: k in m && k != rec.index ==> m'[k] == m[k]
  {
    SetField(SetField(m, rec.index, "name", rec.name), rec.index, "amount", rec.amount)
  }

  /** The store after writing `rs` in order. */
  function WriteAll(m: Keyspace, rs: seq<Record>): Keyspace
    decreases |rs|
  {
    if rs == [] then m else WriteRecord(WriteAll(m, rs[..|rs| - 1]), rs[|rs| - 1])
  }

  /** The records of `c`, in order, whose key is absent from `m`: a record is
      new exactly when its key does not exist. */
  function Missing(m: Keyspace, c: seq<Record>): (r: seq<Record>)
    ensures |r| <= |c|
    decreases |c|
  {
    if c == [] then []
    else Missing(m, c[..|c| - 1]) + if c[|c| - 1].index in m then [] else [c[|c| - 1]]
  }

  /** A record is kept exactly when it is in `c` and its key is absent. */
  lemma {:induction false} MissingMembers(m: Keyspace, c: seq<Record>)
    ensures forall x :: x in Missing(m, c) <==> x in c && x.index !in m
    decreases |c|
  {
    if c != [] {
      var init, last := c[..|c| - 1], c[|c| - 1];
      MissingMembers(m, init);
      assert c == init + [last];
    }
  }

  /** When every scraped key already exists, nothing is new. */
  lemma MissingNoneNew(m: Keyspace, c: seq<Record>)
    requires forall r :: r in c ==> r.index in m
    ensures Missing(m, c) == []
  {
    MissingMembers(m, c);
  }

  /** The positions in `c` of the records Missing keeps. */
  function MissingPositions(m: Keyspace, c: seq<Record>): seq<int>
    decreases |c|
  {
    if c == [] then []
    else MissingPositions(m, c[..|c| - 1]) + if c[|c| - 1].index in m then [] else [|c| - 1]
  }

  lemma {:induction false} MissingPositionsAligned(m: Keyspace, c: seq<Record>)
    ensures |MissingPositions(m, c)| == |Missing(m, c)|
    ensures forall i :: 0 <= i < |Missing(m, c)| ==>
      0 <= MissingPositions(m, c)[i] < |c| && Missing(m, c)[i] == c[MissingPositions(m, c)[i]]
    decreases |c|
  {
    if c != [] {
      var init, last := c[..|c| - 1], c[|c| - 1];
      MissingPositionsAligned(m, init);
      var r0, pos0 := Missing(m, init), MissingPositions(m, init);
      var r, pos := Missing(m, c), MissingPositions(m, c);
      assert r == r0 + if last.index in m then [] else [last];
      assert pos == pos0 + if last.index in m then [] else [|c| - 1];
      forall i | 0 <= i < |r|
        ensures 0 <= pos[i] < |c| && r[i] == c[pos[i]]
      {
        if i < |r0| {
          assert r[i] == r0[i] && pos[i] == pos0[i];
          assert init[pos0[i]] == c[pos0[i]];
        }
      }
    }
  }

  lemma {:induction false} MissingPositionsBounded(m: Keyspace, c: seq<Record>)
    ensures forall i :: 0 <= i < |MissingPositions(m, c)| ==> 0 <= MissingPositions(m, c)[i] < |c|
    ensures forall i, j :: 0 <= i < j < |MissingPositions(m, c)| ==>
      MissingPositions(m, c)[i] < MissingPositions(m, c)[j]
    ensures forall p :: 0 <= p < |c| ==> (p in MissingPositions(m, c) <==> c[p].index !in m)
    decreases |c|
  {
    if c != [] {
      var init := c[..|c| - 1];
      MissingPositionsBounded(m, init);
      forall p | 0 <= p < |init|
        ensures init[p] == c[p]
      {
      }
    }
  }

  /** Missing keeps document order: it picks, at increasing positions of `c`,
      every record whose key is absent and no other. */
  lemma MissingInDocumentOrder(m: Keyspace, c: seq<Record>)
    ensures var r, pos := Missing(m, c), MissingPositions(m, c);
      |pos| == |r| &&
      (forall i :: 0 <= i < |r| ==> 0 <= pos[i] < |c| && r[i] == c[pos[i]]) &&
      (forall i, j :: 0 <= i < j < |pos| ==> pos[i] < pos[j]) &&
      (forall p :: 0 <= p < |c| ==> (p in pos <==> c[p].index !in m))
  {
    MissingPositionsAligned(m, c);
    MissingPositionsBounded(m, c);
  }

  /** Records listed highest rank first stay so once the known ones are dropped. */
  lemma {:induction false} MissingDecreasing(m: Keyspace, c: seq<Record>)
    requires StrictlyDecreasing(c)
    ensures StrictlyDecreasing(Missing(m, c))
    decreases |c|
  {
    if c != [] {
      var init := c[..|c| - 1];
      MissingDecreasing(m, init);
      MissingMembers(m, init);
      var prev := Missing(m, init);
      forall x | x in prev
        ensures x.index > c[|c| - 1].index
      {
        var p :| 0 <= p < |init| && init[p] == x;
      }
    }
  }

  /** Which keys exist after writing `rs`: the old ones and the records' own,
      and a key no record names keeps its old hash. */
  lemma {:induction false} WriteAllFrame(m: Keyspace, rs: seq<Record>)
    ensures forall k :: k in WriteAll(m, rs) <==> k in m || k in IndexSet(rs)
    ensures forall k :: k in m && k !in IndexSet(rs) ==> WriteAll(m, rs)[k] == m[k]
    decreases |rs|
  {
    if rs != [] {
      var init := rs[..|rs| - 1];
      WriteAllFrame(m, init);
      assert rs == init + [rs[|rs| - 1]];
      assert IndexSet(rs) == IndexSet(init) + {rs[|rs| - 1].index};
    }
  }

  /** Writing records of distinct, absent keys stores each one as its own
      name/amount hash. */
  lemma {:induction false} WriteAllStoresFields(m: Keyspace, rs: seq<Record>)
    requires StrictlyDecreasing(rs)
    requires forall r :: r in rs ==> r.index !in m
    ensures forall r :: r in rs ==> r.index in WriteAll(m, rs) && WriteAll(m, rs)[r.index] == Fields(r)
    decreases |rs|
  {
    if rs != [] {
      var init := rs[..|rs| - 1];
      var last := rs[|rs| - 1];
      WriteAllStoresFields(m, init);
      WriteAllFrame(m, init);
      var before := WriteAll(m, init);
      assert last.index !in IndexSet(init);
      assert last.index !in before;
      assert WriteAll(m, rs)[last.index] == Fields(last);
      forall r | r in rs
        ensures r.index in WriteAll(m, rs) && WriteAll(m, rs)[r.index] == Fields(r)
      {
        if r != last {
          var p :| 0 <= p < |rs| && rs[p] == r;
          assert p < |rs| - 1;
          assert r in init;
        }
      }
    }
  }

  /** The Redis connection: the keyspace it reaches, updated in place. */
  class Store {
    var entries: Keyspace

    constructor (initial: Keyspace)
      ensures entries == initial
    {
      entries := initial;
    }

    /** `EXISTS record:<index>`, read as a truth value. */
    method Exists(index: int) returns (present: bool)
      ensures present == (index in entries)
    {
      present := index in entries;
    }

    /** `HSET record:<index> field value`. */
    method HSet(index: int, field: string, value: string)
      modifies this
      ensures entries == SetField(old(entries), index, field, value)
    {
      entries := SetField(entries, index, field, value);
    }
  }

  /** The loop that checks each scraped record's key, before anything is written. */
  method FindMissing(store: Store, combined: seq<Record>) returns (missing: seq<Record>)
    ensures missing == Missing(store.entries, combined)
  {
    missing := [];
    for i := 0 to |combined|
      invariant missing == Missing(store.entries, combined[..i])
    {
      var record := combined[i];
      var present := store.Exists(record.index);
      assert combined[..i + 1][..i] == combined[..i] && combined[..i + 1][i] == record;
      assert Missing(store.entries, combined[..i + 1]) ==
        Missing(store.entries, combined[..i]) + if present then [] else [record];
      if !present {
        missing := missing + [record];
      }
    }
    assert combined[..|combined|] == combined;
  }

  /** The loop that stores each new record with two `hSet` calls. */
  method Persist(store: Store, missing: seq<Record>)
    modifies store
    ensures store.entries == WriteAll(old(store.entries), missing)
  {
    for i := 0 to |missing|
      invariant store.entries == WriteAll(old(store.entries), missing[..i])
    {
      var record := missing[i];
      store.HSet(record.index, "name", record.name);
      store.HSet(record.index, "amount", record.amount);
      assert missing[..i + 1][..i] == missing[..i];
    }
    assert missing[..|missing|] == missing;
  }
}
