/** The per-namespace asset database and the process-wide cache of database
    instances (src/lib/db.ts).

    The `assets` table has an auto-increment primary key `id` and a unique
    index on `key`. A table is modelled as the sequence of its rows in
    primary-key order, which is the order in which the storage engine hands
    rows back from `toArray()` and from an equality `where(...)` on one index. */
module Db {
  import opened Common

  /** Every database name starts with this prefix. */
  const Prefix := "qua-zdb"

  /** The name of the database that backs namespace `namespace`. */
  function DbName(namespace: string): string
  {
    Prefix + "__" + namespace
  }

  /** Distinct namespaces are backed by distinct databases. */
  lemma DbNameInjective(a: string, b: string)
    requires DbName(a) == DbName(b)
    ensures a == b
  {
    assert a == DbName(a)[|Prefix| + 2..];
    assert b == DbName(b)[|Prefix| + 2..];
  }

  /** One stored row of the `assets` table, with the fields the loader writes. */
  datatype Asset = Asset(id: nat, key: string, name: string, packageName: string, data: Bytes, ctime: int)

  /** A row as handed to `bulkPut`, before the table gives it an id. */
  datatype Record = Record(key: string, name: string, packageName: string, data: Bytes, ctime: int)

  function WithId(r: Record, id: nat): Asset
  {
    Asset(id, r.key, r.name, r.packageName, r.data, r.ctime)
  }

  /** Rows are in strictly increasing primary-key order. */
  predicate IdsIncreasing(rows: seq<Asset>)
  {
    forall i, j :: 0 <= i < j < |rows| ==> rows[i].id < rows[j].id
  }

  /** The unique index on `key`: no two rows share a key. */
  predicate KeysUnique(rows: seq<Asset>)
  {
    forall x, y :: x in rows && y in rows && x.key == y.key ==> x == y
  }

  /** What the schema `++id, &key` guarantees of the table, with `nextId` the
      auto-increment generator's next value (it starts at 1 and never goes back). */
  predicate TableInvariant(rows: seq<Asset>, nextId: nat)
  {
    1 <= nextId && IdsIncreasing(rows) && KeysUnique(rows) &&
    forall x :: x in rows ==> 1 <= x.id < nextId
  }

  /** Primary keys are distinct. */
  lemma IdsUnique(rows: seq<Asset>)
    requires IdsIncreasing(rows)
    ensures forall x, y :: x in rows && y in rows && x.id == y.id ==> x == y
  {
    forall x, y | x in rows && y in rows && x.id == y.id
      ensures x == y
    {
      var i :| 0 <= i < |rows| && rows[i] == x;
      var j :| 0 <= j < |rows| && rows[j] == y;
      assert !(i < j) && !(j < i);
    }
  }

  /** A table is determined by the set of its rows: the set-level
      specifications of the queries and mutators below fix the whole table. */
  lemma {:induction false} SameRowsSameTable(a: seq<Asset>, b: seq<Asset>)
    requires IdsIncreasing(a) && IdsIncreasing(b)
    requires forall x :: x in a <==> x in b
    ensures a == b
  {
    if a != [] { assert a[0] in b; }
    if b != [] { assert b[0] in a; }
    if a != [] && b != [] {
      var j :| 0 <= j < |b| && b[j] == a[0];
      var i :| 0 <= i < |a| && a[i] == b[0];
      FirstIdSmallest(a, i);
      FirstIdSmallest(b, j);
      assert j == 0;
      forall x
        ensures x in a[1..] <==> x in b[1..]
      {
        if x in a[1..] {
          var k :| 0 <= k < |a| - 1 && a[1..][k] == x;
          assert a[0].id < a[k + 1].id && a[k + 1] == x;
          assert x in b;
          var m :| 0 <= m < |b| && b[m] == x;
          assert b[1..][m - 1] == x;
        }
        if x in b[1..] {
          var k :| 0 <= k < |b| - 1 && b[1..][k] == x;
          assert b[0].id < b[k + 1].id && b[k + 1] == x;
          assert x in a;
          var m :| 0 <= m < |a| && a[m] == x;
          assert a[1..][m - 1] == x;
        }
      }
      SameRowsSameTable(a[1..], b[1..]);
      assert a == [a[0]] + a[1..] && b == [b[0]] + b[1..];
    }
  }

  /** In an ordered table the first row has the smallest id. */
  lemma FirstIdSmallest(rows: seq<Asset>, k: nat)
    requires IdsIncreasing(rows) && k < |rows|
    ensures rows[0].id <= rows[k].id
    ensures k > 0 ==> rows[0].id < rows[k].id
  {
  }

  /** Putting a row in front of rows with larger ids keeps the order. */
  lemma PrependIncreasing(h: Asset, t: seq<Asset>)
    requires IdsIncreasing(t)
    requires forall x :: x in t ==> h.id < x.id
    ensures IdsIncreasing([h] + t)
  {
    forall i, j | 0 <= i < j < |[h] + t|
      ensures ([h] + t)[i].id < ([h] + t)[j].id
    {
      if i == 0 {
        assert ([h] + t)[j] == t[j - 1];
      }
    }
  }

  /** An equality query (`where({...}).toArray()`): the rows satisfying `p`,
      in primary-key order. */
  function Where(rows: seq<Asset>, p: Asset -> bool): (r: seq<Asset>)
    ensures forall x :: x in r <==> x in rows && p(x)
    ensures r == [] <==> forall x :: x in rows ==> !p(x)
    ensures IdsIncreasing(rows) ==> IdsIncreasing(r)
  {
    if rows == [] then []
    else
      var rest := Where(rows[1..], p);
      WhereStep(rows, p, rest);
      if p(rows[0]) then [rows[0]] + rest else rest
  }

  /** One step of `Where`: what the query on the tail promises carries over
      to the whole table. */
  lemma WhereStep(rows: seq<Asset>, p: Asset -> bool, rest: seq<Asset>)
    requires rows != []
    requires forall x :: x in rest <==> x in rows[1..] && p(x)
    requires IdsIncreasing(rows[1..]) ==> IdsIncreasing(rest)
    ensures var r := if p(rows[0]) then [rows[0]] + rest else rest;
      (forall x :: x in r <==> x in rows && p(x)) &&
      (r == [] <==> forall x :: x in rows ==> !p(x)) &&
      (IdsIncreasing(rows) ==> IdsIncreasing(r))
  {
    assert rows == [rows[0]] + rows[1..];
    if rest != [] {
      assert rest[0] in rest;
    }
    if IdsIncreasing(rows) && p(rows[0]) {
      forall x | x in rest
        ensures rows[0].id < x.id
      {
        var k :| 0 <= k < |rows| - 1 && rows[1..][k] == x;
        assert rows[k + 1] == x;
      }
      PrependIncreasing(rows[0], rest);
    }
  }

  /** A lookup on the unique `key` index (`get({key})`). */
  function FindKey(rows: seq<Asset>, key: string): (r: Option<Asset>)
    ensures r.Some? ==> r.value in rows && r.value.key == key
    ensures r.None? ==> forall x :: x in rows ==> x.key != key
  {
    if rows == [] then None
    else if rows[0].key == key then Some(rows[0])
    else FindKey(rows[1..], key)
  }

  /** The rows `bulkPut` appends: the records in order, with consecutive ids from `firstId`. */
  function Stored(records: seq<Record>, firstId: nat): seq<Asset>
  {
    seq(|records|, i requires 0 <= i < |records| => WithId(records[i], firstId + i))
  }

  /** `records` can be added under the unique `key` index: no record's key is
      already in the table and no two records share a key. */
  predicate KeysFresh(rows: seq<Asset>, records: seq<Record>)
  {
    (forall i :: 0 <= i < |records| ==> forall x :: x in rows ==> x.key != records[i].key) &&
    (forall i, j :: 0 <= i < j < |records| ==> records[i].key != records[j].key)
  }

  /** The record a stored row was made from. */
  function RecordOf(x: Asset): Record
  {
    Record(x.key, x.name, x.packageName, x.data, x.ctime)
  }

  /** What a failed `bulkPut` may have committed: the old rows stay, in order,
      the table invariants hold, and every added row is one of the records
      under a new id. Which records, if any, is left open. */
  ghost predicate PartlyStored(rows0: seq<Asset>, next0: nat, rows1: seq<Asset>, next1: nat, records: seq<Record>)
  {
    rows0 <= rows1 && next0 <= next1 && TableInvariant(rows1, next1) &&
    forall x :: x in rows1[|rows0|..] ==> next0 <= x.id && RecordOf(x) in records
  }

  /** The appended rows carry fresh, increasing ids. */
  lemma StoredIds(rows: seq<Asset>, nextId: nat, records: seq<Record>)
    requires TableInvariant(rows, nextId)
    ensures IdsIncreasing(rows + Stored(records, nextId))
    ensures forall x :: x in rows + Stored(records, nextId) ==> 1 <= x.id < nextId + |records|
  {
    var added := Stored(records, nextId);
    var all := rows + added;
    forall i, j | 0 <= i < j < |all|
      ensures all[i].id < all[j].id
    {
      if i < |rows| && |rows| <= j {
        assert all[i] in rows;
        assert all[j] == added[j - |rows|];
      } else if |rows| <= i {
        assert all[i] == added[i - |rows|];
        assert all[j] == added[j - |rows|];
      } else {
        assert all[i] == rows[i] && all[j] == rows[j];
      }
    }
    forall x | x in all
      ensures 1 <= x.id < nextId + |records|
    {
      if x !in rows {
        var k :| 0 <= k < |added| && added[k] == x;
      }
    }
  }

  /** The appended rows keep the `key` index unique. */
  lemma StoredKeys(rows: seq<Asset>, nextId: nat, records: seq<Record>)
    requires KeysUnique(rows) && KeysFresh(rows, records)
    ensures KeysUnique(rows + Stored(records, nextId))
  {
    var added := Stored(records, nextId);
    forall x | x in added
      ensures forall y :: y in rows ==> y.key != x.key
    {
      var i :| 0 <= i < |added| && added[i] == x;
    }
    forall x, y | x in added && y in added && x.key == y.key
      ensures x == y
    {
      var i :| 0 <= i < |added| && added[i] == x;
      var j :| 0 <= j < |added| && added[j] == y;
    }
  }

  /** Appending fresh records with fresh ids keeps both table invariants. */
  lemma StoredKeepsInvariant(rows: seq<Asset>, nextId: nat, records: seq<Record>)
    requires TableInvariant(rows, nextId) && KeysFresh(rows, records)
    ensures TableInvariant(rows + Stored(records, nextId), nextId + |records|)
  {
    StoredIds(rows, nextId, records);
    StoredKeys(rows, nextId, records);
  }

  /** One Dexie database instance: its name, whether it was closed, and its
      `assets` table. */
  class ZipDatabase {
    const dbName: string
    var assets: seq<Asset>
    var nextId: nat
    var closed: bool

    ghost predicate Valid()
      reads this
    {
      TableInvariant(assets, nextId)
    }

    constructor (dbName: string)
      ensures this.dbName == dbName && !closed
      ensures Valid()
    {
      this.dbName := dbName;
      assets := [];
      nextId := 1;
      closed := false;
    }

    /** `close()`. */
    method Close()
      modifies this`closed
      ensures closed
    {
      closed := true;
    }

    /** `bulkPut(records)`: every record is added with the next auto-increment
        id; a record whose key is already taken makes the call fail, and then
        only `PartlyStored` is promised (this body commits none of them). */
    method BulkPut(records: seq<Record>) returns (ok: bool)
      requires Valid()
      modifies this`assets, this`nextId
      ensures Valid()
      ensures ok == KeysFresh(old(assets), records)
      ensures ok ==> assets == old(assets) + Stored(records, old(nextId)) && nextId == old(nextId) + |records|
      ensures !ok ==> PartlyStored(old(assets), old(nextId), assets, nextId, records)
    {
      ok := KeysFresh(assets, records);
      if ok {
        StoredKeepsInvariant(assets, nextId, records);
        assets := assets + Stored(records, nextId);
        nextId := nextId + |records|;
      }
    }

    /** `delete(id)`: removes the row with primary key `id`, if any. */
    method Delete(id: nat)
      requires Valid()
      modifies this`assets
      ensures Valid()
      ensures forall x :: x in assets <==> x in old(assets) && x.id != id
    {
      assets := Where(assets, (x: Asset) => x.id != id);
    }

    /** `bulkDelete(ids)`: removes every row whose primary key is in `ids`. */
    method BulkDelete(ids: seq<nat>)
      requires Valid()
      modifies this`assets
      ensures Valid()
      ensures forall x :: x in assets <==> x in old(assets) && x.id !in ids
    {
      assets := Where(assets, (x: Asset) => x.id !in ids);
    }
  }

  /** The `dbInstances` cache: at most one open instance per namespace. */
  class DbRegistry {
    var instances: map<string, ZipDatabase>

    ghost predicate Valid()
      reads this, instances.Values
    {
      forall n :: n in instances ==>
        instances[n].dbName == DbName(n) && !instances[n].closed && instances[n].Valid()
    }

    constructor ()
      ensures instances == map[] && Valid()
    {
      instances := map[];
    }

    /** Two namespaces in the cache never share an instance. */
    lemma InstancesDistinct()
      requires Valid()
      ensures forall a, b :: a in instances && b in instances && a != b ==> instances[a] != instances[b]
    {
      forall a, b | a in instances && b in instances && instances[a] == instances[b]
        ensures a == b
      {
        DbNameInjective(a, b);
      }
    }

    /** `getDbInstance(name)`: the cached instance, or a new one for database
        `DbName(name)` that is cached from now on. */
    method GetDbInstance(name: string) returns (db: ZipDatabase)
      requires Valid()
      modifies this
      ensures Valid()
      ensures name in instances && instances[name] == db
      ensures name in old(instances) ==> db == old(instances)[name] && instances == old(instances)
      ensures name !in old(instances) ==> fresh(db) && db.dbName == DbName(name) && instances == old(instances)[name := db]
    {
      if name in instances {
        return instances[name];
      }
      db := new ZipDatabase(DbName(name));
      instances := instances[name := db];
    }

    /** Asking twice for the same name gives the same instance. */
    method GetDbInstanceTwice(name: string) returns (a: ZipDatabase, b: ZipDatabase)
      requires Valid()
      modifies this
      ensures Valid()
      ensures a == b && name in instances && instances[name] == a
    {
      a := GetDbInstance(name);
      b := GetDbInstance(name);
    }

    /** `destroyDbInstance(name)`: closes and evicts the cached instance; a
        no-op when `name` has none. */
    method DestroyDbInstance(name: string)
      requires Valid()
      modifies this, if name in instances then {instances[name]} else {}
      ensures Valid()
      ensures instances == old(instances) - {name}
      ensures name in old(instances) ==> old(instances)[name].closed
      ensures name in old(instances) ==>
        old(instances)[name].assets == old(instances[name].assets) &&
        old(instances)[name].nextId == old(instances[name].nextId)
      ensures name !in old(instances) ==> unchanged(this)
    {
      if name !in instances {
        return;
      }
      InstancesDistinct();
      instances[name].Close();
      instances := instances - {name};
    }
  }
}
