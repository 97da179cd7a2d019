/** The zip asset manager (src/lib/manager.ts): one manager per name in a
    process-wide registry, each bound to the database instance of its name,
    with a read API over the `assets` table and two ways to delete rows.

    The module-level `managers` record becomes a `ManagerRegistry` object,
    which also holds the database-instance cache the constructor and
    `destroy` reach through `getDbInstance` / `destroyDbInstance`. */
module Manager {
  import opened Common
  import opened Db
  import opened Downloader
  import opened Zip

  /** The name a manager gets when the constructor is called without one. */
  const DefaultName := "default"

  /** The message of the error thrown for a name that is already taken. */
  const DuplicateMessage := "There's a same name manager in the runtime space."

  /** The constructor's `name = 'default'`: only a missing argument takes the default. */
  function ManagerName(name: Option<string>): string
  {
    if name.Some? then name.value else DefaultName
  }

  /** What `load` accepts: a bare URL or a full descriptor. */
  datatype LoadArg = Url(url: string) | Info(info: ZipInfo)

  /** `load`'s conversion: a bare URL becomes `{ url }`. */
  function ToZipInfo(arg: LoadArg): ZipInfo
  {
    match arg
    case Url(url) => ZipInfo(url, None, None)
    case Info(info) => info
  }

  /** A load given only a URL expects no digest: its download is accepted
      exactly when the server answers 200. */
  lemma UrlLoadExpectsNoDigest(url: string, fetched: Fetched, sha256: Bytes -> string)
    ensures Verified(ToZipInfo(Url(url)), fetched, sha256) <==>
      fetched.Received? && fetched.res.status == 200
  {
  }

  /** The property names every plain JavaScript object inherits from `Object.prototype`. */
  const InheritedNames: set<string> := {
    "constructor", "hasOwnProperty", "isPrototypeOf", "propertyIsEnumerable",
    "toLocaleString", "toString", "valueOf", "__proto__",
    "__defineGetter__", "__defineSetter__", "__lookupGetter__", "__lookupSetter__"
  }

  /** The constructor's guard `managers[name]` as written: `managers` is a plain
      object, so the lookup is truthy for its own entries and for every
      inherited property name as well. */
  predicate NameTakenAsWritten(managers: map<string, ZipManager>, name: string)
  {
    name in managers || name in InheritedNames
  }

  /** As written, even an empty registry refuses the names `toString` and
      `constructor`: `new ZipManager('toString')` always throws. */
  lemma InheritedNameRefusedAsWritten()
    ensures NameTakenAsWritten(map[], "toString")
    ensures NameTakenAsWritten(map[], "constructor")
  {
  }

  /** `managers` and `dbInstances`, the process-wide state. */
  class ManagerRegistry {
    var managers: map<string, ZipManager>
    const dbs: DbRegistry

    /** Every registered manager is filed under its own name, belongs to this
        registry, and holds the cached database instance of that name. */
    ghost predicate Valid()
      reads this, dbs, dbs.instances.Values
    {
      dbs.Valid() &&
      forall n :: n in managers ==>
        managers[n].name == n && managers[n].registry == this &&
        n in dbs.instances && dbs.instances[n] == managers[n].db
    }

    constructor (dbs: DbRegistry)
      requires dbs.Valid()
      ensures this.dbs == dbs && managers == map[] && Valid()
    {
      this.dbs := dbs;
      managers := map[];
    }
  }

  class ZipManager {
    const name: string
    const db: ZipDatabase
    const registry: ManagerRegistry

    /** Field initialisation; registration is done by `Create`. */
    constructor Init(name: string, db: ZipDatabase, registry: ManagerRegistry)
      ensures this.name == name && this.db == db && this.registry == registry
    {
      this.name := name;
      this.db := db;
      this.registry := registry;
    }

    /** `new ZipManager(name)`: throws when the name is taken and then leaves
        every registry as it was; otherwise binds the name's database instance
        and registers the new manager under the name. */
    static method Create(name: Option<string>, registry: ManagerRegistry) returns (r: Result<ZipManager, string>)
      requires registry.Valid()
      modifies registry, registry.dbs
      ensures registry.Valid()
      ensures ManagerName(name) in old(registry.managers) ==>
        r == Failure(DuplicateMessage) && unchanged(registry, registry.dbs)
      ensures ManagerName(name) !in old(registry.managers) ==>
        r.Success? && fresh(r.value) &&
        r.value.name == ManagerName(name) && r.value.registry == registry &&
        registry.managers == old(registry.managers)[ManagerName(name) := r.value] &&
        r.value.db == registry.dbs.instances[ManagerName(name)] &&
        (ManagerName(name) in old(registry.dbs.instances) ==>
           r.value.db == old(registry.dbs.instances)[ManagerName(name)] &&
           registry.dbs.instances == old(registry.dbs.instances)) &&
        (ManagerName(name) !in old(registry.dbs.instances) ==>
           fresh(r.value.db) && r.value.db.dbName == DbName(ManagerName(name)) &&
           registry.dbs.instances == old(registry.dbs.instances)[ManagerName(name) := r.value.db])
    {
      var n := ManagerName(name);
      if n in registry.managers {
        return Failure(DuplicateMessage);
      }
      var db := registry.dbs.GetDbInstance(n);
      var m := new ZipManager.Init(n, db, registry);
      registry.managers := registry.managers[n := m];
      r := Success(m);
    }

    /** The constructor as written: the guard also refuses every name a plain
        object inherits. Past the guard it behaves as `Create`. */
    static method CreateAsWritten(name: Option<string>, registry: ManagerRegistry) returns (r: Result<ZipManager, string>)
      requires registry.Valid()
      modifies registry, registry.dbs
      ensures registry.Valid()
      ensures NameTakenAsWritten(old(registry.managers), ManagerName(name)) ==>
        r == Failure(DuplicateMessage) && unchanged(registry, registry.dbs)
      ensures !NameTakenAsWritten(old(registry.managers), ManagerName(name)) ==>
        r.Success? && fresh(r.value) &&
        r.value.name == ManagerName(name) && r.value.registry == registry &&
        registry.managers == old(registry.managers)[ManagerName(name) := r.value] &&
        r.value.db == registry.dbs.instances[ManagerName(name)] &&
        (ManagerName(name) in old(registry.dbs.instances) ==>
           r.value.db == old(registry.dbs.instances)[ManagerName(name)] &&
           registry.dbs.instances == old(registry.dbs.instances)) &&
        (ManagerName(name) !in old(registry.dbs.instances) ==>
           fresh(r.value.db) && r.value.db.dbName == DbName(ManagerName(name)) &&
           registry.dbs.instances == old(registry.dbs.instances)[ManagerName(name) := r.value.db])
    {
      if NameTakenAsWritten(registry.managers, ManagerName(name)) {
        return Failure(DuplicateMessage);
      }
      r := Create(name, registry);
    }

    /** `load(zipInfo)`: a bare URL becomes `{ url }`, then `downloadAndUnzip`
        runs on this manager's database. */
    method Load(arg: LoadArg, fetched: Fetched, sha256: Bytes -> string,
                unzip: Bytes -> Option<Files>, clock: nat -> int)
      returns (r: Outcome, effects: seq<Effect>)
      requires db.Valid()
      modifies db`assets, db`nextId
      ensures db.Valid()
      ensures AppliedLoad(Prepare(ToZipInfo(arg), fetched, sha256, unzip, clock), old(db.assets), old(db.nextId),
                          db.assets, db.nextId, r, effects)
    {
      r, effects := DownloadAndUnzip(db, ToZipInfo(arg), fetched, sha256, unzip, clock);
    }

    /** `getRaw(zipName, assetName)`: the row keyed `zipName:assetName`, if any. */
    function GetRaw(zipName: string, assetName: string): (r: Option<Asset>)
      reads db
      requires db.Valid()
      ensures r.Some? <==> exists x :: x in db.assets && x.key == AssetKey(zipName, assetName)
      ensures forall x :: x in db.assets && x.key == AssetKey(zipName, assetName) ==> r == Some(x)
    {
      FindKey(db.assets, AssetKey(zipName, assetName))
    }

    /** `get(zipName, assetName)`: the data of the row keyed `zipName:assetName`, or null. */
    function Get(zipName: string, assetName: string): (r: Option<Bytes>)
      reads db
      requires db.Valid()
      ensures r.None? <==> forall x :: x in db.assets ==> x.key != AssetKey(zipName, assetName)
      ensures forall x :: x in db.assets && x.key == AssetKey(zipName, assetName) ==> r == Some(x.data)
      ensures r == GetByKey(AssetKey(zipName, assetName))
    {
      match FindKey(db.assets, AssetKey(zipName, assetName))
      case None => None
      case Some(res) => Some(res.data)
    }

    /** `getByKey(key)`: the data of the row keyed `key`, or null. */
    function GetByKey(key: string): (r: Option<Bytes>)
      reads db
      requires db.Valid()
      ensures r.None? <==> forall x :: x in db.assets ==> x.key != key
      ensures forall x :: x in db.assets && x.key == key ==> r == Some(x.data)
    {
      match FindKey(db.assets, key)
      case None => None
      case Some(res) => Some(res.data)
    }

    /** `getByName(assetName)`: every row named `assetName`, in id order. */
    function GetByName(assetName: string): (r: seq<Asset>)
      reads db
      requires db.Valid()
      ensures forall x :: x in r <==> x in db.assets && x.name == assetName
      ensures IdsIncreasing(r)
    {
      Where(db.assets, (x: Asset) => x.name == assetName)
    }

    /** `getOneByName(assetName)`: null when no row is named `assetName`,
        otherwise the data of the first of them, the one with the smallest id. */
    function GetOneByName(assetName: string): (r: Option<Bytes>)
      reads db
      requires db.Valid()
      ensures r.None? <==> GetByName(assetName) == []
      ensures r.Some? ==> r.value == GetByName(assetName)[0].data
      ensures r.Some? ==> exists x :: x in db.assets && x.name == assetName && x.data == r.value &&
                                      (forall y :: y in db.assets && y.name == assetName ==> x.id <= y.id)
    {
      var res := GetByName(assetName);
      if |res| == 0 then None
      else
        assert forall y :: y in res ==> res[0].id <= y.id by {
          forall y | y in res ensures res[0].id <= y.id {
            var k :| 0 <= k < |res| && res[k] == y;
            FirstIdSmallest(res, k);
          }
        }
        Some(res[0].data)
    }

    /** `list(zipName?)`: every row when `zipName` is missing or empty,
        otherwise the rows of package `zipName`, in id order. */
    function List(zipName: Option<string>): (r: seq<Asset>)
      reads db
      requires db.Valid()
      ensures !Truthy(zipName) ==> r == db.assets
      ensures Truthy(zipName) ==> forall x :: x in r <==> x in db.assets && x.packageName == zipName.value
      ensures Truthy(zipName) ==> (r == [] <==> forall x :: x in db.assets ==> x.packageName != zipName.value)
      ensures IdsIncreasing(r)
    {
      if !Truthy(zipName) then db.assets
      else Where(db.assets, (x: Asset) => x.packageName == zipName.value)
    }

    /** `exists(zipName, assetName)`. */
    function Exists(zipName: string, assetName: string): (r: bool)
      reads db
      requires db.Valid()
      ensures r <==> exists x :: x in db.assets && x.key == AssetKey(zipName, assetName)
      ensures r <==> Get(zipName, assetName).Some?
    {
      GetRaw(zipName, assetName).Some?
    }

    /** `remove(zipName, assetName)`: deletes the row keyed `zipName:assetName`
        and nothing else; a no-op when there is none. */
    method Remove(zipName: string, assetName: string)
      requires db.Valid()
      modifies db`assets
      ensures db.Valid()
      ensures forall x :: x in db.assets <==> x in old(db.assets) && x.key != AssetKey(zipName, assetName)
      ensures (forall x :: x in old(db.assets) ==> x.key != AssetKey(zipName, assetName)) ==>
        db.assets == old(db.assets)
    {
      var asset := GetRaw(zipName, assetName);
      if asset.None? || asset.value.id == 0 {
        return;
      }
      IdsUnique(db.assets);
      db.Delete(asset.value.id);
    }

    /** `removePackage(zipName)`: deletes exactly the rows of package
        `zipName`; a no-op when there are none. */
    method RemovePackage(zipName: string)
      requires db.Valid()
      modifies db`assets
      ensures db.Valid()
      ensures forall x :: x in db.assets <==> x in old(db.assets) && x.packageName != zipName
      ensures (forall x :: x in old(db.assets) ==> x.packageName != zipName) ==> db.assets == old(db.assets)
      ensures zipName != "" ==> List(Some(zipName)) == []
    {
      var collection := Where(db.assets, (x: Asset) => x.packageName == zipName);
      var count := |collection|;
      if count == 0 {
        return;
      }
      var ids := seq(|collection|, i requires 0 <= i < |collection| => collection[i].id);
      IdsUnique(db.assets);
      ghost var before := db.assets;
      db.BulkDelete(ids);
      forall x | x in before
        ensures x.id in ids <==> x.packageName == zipName
      {
        if x.packageName == zipName {
          var k :| 0 <= k < |collection| && collection[k] == x;
          assert ids[k] == x.id;
        }
        if x.id in ids {
          var k :| 0 <= k < |ids| && ids[k] == x.id;
          assert collection[k] in before;
        }
      }
    }

    /** `destroy()`: when the registry holds a manager under this manager's
        name, closes and evicts that name's database instance and unregisters
        the name; otherwise does nothing. Only the name is checked, so a
        manager that was already destroyed also unregisters a newer manager
        registered under the same name. */
    method Destroy()
      requires registry.Valid()
      modifies registry, registry.dbs,
        if name in registry.dbs.instances then {registry.dbs.instances[name]} else {}
      ensures registry.Valid()
      ensures name in old(registry.managers) ==>
        registry.managers == old(registry.managers) - {name} &&
        registry.dbs.instances == old(registry.dbs.instances) - {name} &&
        old(registry.managers)[name].db.closed
      // The closed instance keeps its rows; only the registries forget it.
      ensures name in old(registry.managers) ==>
        old(registry.managers)[name].db.assets == old(registry.managers[name].db.assets) &&
        old(registry.managers)[name].db.nextId == old(registry.managers[name].db.nextId)
      ensures name !in old(registry.managers) ==>
        unchanged(registry, registry.dbs) &&
        (name in registry.dbs.instances ==> unchanged(registry.dbs.instances[name]))
    {
      if name !in registry.managers {
        return;
      }
      registry.dbs.DestroyDbInstance(name);
      registry.managers := registry.managers - {name};
    }
  }

  /** Two managers with the same name in turn: the first is destroyed, the
      second registered, and destroying the first again unregisters the second
      and closes its database. */
  method StaleDestroyUnregistersNewer() returns (stale: ZipManager, current: ZipManager)
    ensures stale != current && stale.name == current.name == DefaultName
    ensures stale.registry == current.registry
    ensures DefaultName !in current.registry.managers
    ensures current.db.closed
  {
    var dbs := new DbRegistry();
    var registry := new ManagerRegistry(dbs);
    var first := ZipManager.CreateAsWritten(None, registry);
    stale := first.value;
    stale.Destroy();
    var second := ZipManager.CreateAsWritten(None, registry);
    current := second.value;
    stale.Destroy();
  }

  /** On a fresh runtime, `new ZipManager('toString')` throws as written, while
      the own-key check registers the manager. */
  method InheritedNameDivergence() returns (asWritten: Result<ZipManager, string>, corrected: Result<ZipManager, string>)
    ensures asWritten == Failure(DuplicateMessage)
    ensures corrected.Success? && corrected.value.name == "toString"
  {
    var dbs1 := new DbRegistry();
    var registry1 := new ManagerRegistry(dbs1);
    asWritten := ZipManager.CreateAsWritten(Some("toString"), registry1);
    var dbs2 := new DbRegistry();
    var registry2 := new ManagerRegistry(dbs2);
    corrected := ZipManager.Create(Some("toString"), registry2);
  }

  /** Destroying whatever manager holds a name frees it: constructing a
      manager under that name then succeeds, with an open database. As
      written, the inherited names can never be constructed at all. */
  method RecreateAfterDestroy(name: Option<string>, registry: ManagerRegistry) returns (r: Result<ZipManager, string>)
    requires registry.Valid() && ManagerName(name) !in InheritedNames
    modifies registry, registry.dbs, registry.dbs.instances.Values
    ensures registry.Valid()
    ensures r.Success? && r.value.name == ManagerName(name) && !r.value.db.closed
    ensures ManagerName(name) in registry.managers && registry.managers[ManagerName(name)] == r.value
  {
    var n := ManagerName(name);
    if n in registry.managers {
      registry.managers[n].Destroy();
    }
    r := ZipManager.CreateAsWritten(name, registry);
  }

  /** A loaded bundle reads back: after a successful load, `get` returns each
      extracted file's bytes under the derived bundle name. */
  lemma LoadThenGet(m: ZipManager, arg: LoadArg, fetched: Fetched, sha256: Bytes -> string,
                    unzip: Bytes -> Option<Files>, clock: nat -> int,
                    rows0: seq<Asset>, next0: nat, effects: seq<Effect>, i: nat)
    requires m.db.Valid()
    requires AppliedLoad(Prepare(ToZipInfo(arg), fetched, sha256, unzip, clock), rows0, next0,
                         m.db.assets, m.db.nextId, Pass, effects)
    requires i < |unzip(fetched.res.body).value|
    ensures var files := unzip(fetched.res.body).value;
      m.Get(NormalizeZipName(ToZipInfo(arg)), files[i].name) == Some(files[i].data)
  {
    LoadedFilesStored(ToZipInfo(arg), fetched, sha256, unzip, clock, rows0, next0, m.db.assets, m.db.nextId, effects, i);
  }
}
