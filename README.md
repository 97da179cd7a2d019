# ZipManager in Dafny

A model of the core of ZipManager, a browser-side cache for zipped asset
bundles. A bundle is downloaded over HTTP. Its SHA-256 digest is optionally
checked and the archive is unzipped. Every file then becomes one row of an
IndexedDB `assets` table, keyed `bundleName + ":" + fileName`. Callers read
rows back by key, by asset name or by bundle, and delete one asset or a whole
bundle. One manager may exist per name. Each manager is bound to the
database instance of its name, and two process-wide registries keep track of
managers and instances.

Modules, one per source file:

- `common.dfy` (`Common`): bytes, `Option`/`Result`, JavaScript truthiness, `indexOf`/`lastIndexOf`, the zip descriptor, and the external calls a load makes.
- `db.dfy` (`Db`): the `assets` table with its two invariants, the query primitives, the `ZipDatabase` instance class and the `dbInstances` cache (`DbRegistry`).
- `downloader.dfy` (`Downloader`): the status and digest guards of `downloadZip`.
- `zip.dfy` (`Zip`): bundle-name derivation, record building and `downloadAndUnzip`.
- `manager.dfy` (`Manager`): the `managers` registry and the `ZipManager` class.

Foreign code becomes inputs:

- The HTTP response is a `Fetched` value: a rejection, or a status with a body.
- SHA-256 is a function parameter `sha256: Bytes -> string`.
- Unzipping is a function parameter from bytes to the archive's files, or to a failure.
- `Date.now()` is a parameter `clock`, where `clock(i)` is the time read while building the i-th record.

The two module-level maps become objects passed in explicitly, because Dafny
has no global mutable state. The table is the sequence of its rows in
primary-key order. That is the order in which `toArray()` and a single-index
`where(...)` return rows. Ids are strictly increasing, so ids are distinct.
Keys are distinct because of the unique index. `Db.SameRowsSameTable` shows
that such a table is fixed by its set of rows. So the set-level postconditions
of the queries and mutators fix the whole table.

Where the code and its declared types differ, the model follows the code:

- `src/types/db.ts:1-17` declares rows with `bundleName`, `version` and `createTime`, and a `ZipMeta` record. The code in `src/lib` writes `packageName` and `ctime` instead (`src/lib/zip.ts:32-38`), and the schema has no metadata table (`src/lib/db.ts:5-7`).
- `src/types/manager.ts:1-6` declares a `ProgressCallback`. `load` never passes one (`src/lib/manager.ts:33`), and `downloadZip` takes no such parameter (`src/lib/downloader.ts:4`).
- The bundle name is cut after the last `/` anywhere in the URL (`src/lib/zip.ts:21`), so a `/` inside the query string wins over the path (`Zip.SlashInQueryExample`).

## Model

| member | source | states |
|---|---|---|
| `Common.IndexOf` | src/lib/zip.ts:23 | `indexOf`: -1 exactly when the character is absent, otherwise its first position |
| `Common.LastIndexOf` | src/lib/zip.ts:21 | `lastIndexOf`: -1 exactly when the character is absent, otherwise its last position |
| `Db.DbNameInjective` | src/lib/db.ts:19-25 | the database for namespace n is named `qua-zdb__` + n, so distinct namespaces get distinct database names |
| `Db.IdsUnique` | src/lib/db.ts:6 | with the auto-increment key, no two rows share an id |
| `Db.SameRowsSameTable` | src/lib/db.ts:6 | two id-ordered tables with the same rows are equal, so set-level specifications fix the table |
| `Db.Where` | src/lib/db.ts:6 | an indexed equality query returns exactly the matching rows; it is empty iff none match; it keeps id order |
| `Db.FindKey` | src/lib/db.ts:6 | a lookup on the `key` index returns a row with that key, or nothing when no row has it |
| `Db.StoredKeepsInvariant` | src/lib/db.ts:6 | appending records with fresh keys and new consecutive ids keeps both table invariants |
| `Db.ZipDatabase.constructor` | src/lib/db.ts:12-15 | a new instance carries the given database name, is open and satisfies the table invariants |
| `Db.ZipDatabase.Close` | src/lib/db.ts:34 | closing marks the instance closed and changes nothing else |
| `Db.ZipDatabase.BulkPut` | src/lib/zip.ts:39 | succeeds iff no key is taken or repeated; then appends every record in order with consecutive fresh ids; on failure keeps every old row in place and adds at most some of the records, each under a new id |
| `Db.ZipDatabase.Delete` | src/lib/manager.ts:152 | removes exactly the row with the given id |
| `Db.ZipDatabase.BulkDelete` | src/lib/manager.ts:167 | removes exactly the rows whose ids are listed |
| `Db.DbRegistry.constructor` | src/lib/db.ts:18 | the instance cache starts empty |
| `Db.DbRegistry.InstancesDistinct` | src/lib/db.ts:18-28 | two cached namespaces never share an instance |
| `Db.DbRegistry.GetDbInstance` | src/lib/db.ts:21-28 | returns the cached instance without changing the cache; otherwise creates a fresh instance named `qua-zdb__` + name, caches it and returns it |
| `Db.DbRegistry.GetDbInstanceTwice` | src/lib/db.ts:21-28 | asking twice for one name returns the same instance, the one cached under that name |
| `Db.DbRegistry.DestroyDbInstance` | src/lib/db.ts:30-36 | a no-op for an uncached name; otherwise closes that instance, leaves its table alone and evicts only that name |
| `Downloader.DownloadZip` | src/lib/downloader.ts:4-28 | a rejected fetch propagates; status other than 200 fails with `Download failed (status not 200).` before any hashing; on 200 the body is always hashed; the body is returned unchanged iff no digest is expected or it matches; a mismatch fails with `Corrputed package data.` and the computed digest |
| `Downloader.DigestComputedIffStatusOk` | src/lib/downloader.ts:9-16 | the body is hashed exactly when the status is 200 |
| `Zip.AssetKeyInjective` | src/lib/zip.ts:33 | within one bundle, distinct file names give distinct keys |
| `Zip.KeyDoesNotSeparateBundles` | src/lib/zip.ts:33 | the key `z:a` does not say where the bundle name ends: bundle `a:b` asset `c` and bundle `a` asset `b:c` share a key |
| `Zip.NormalizeZipName` | src/lib/zip.ts:19-26 | a truthy explicit name is returned unchanged; otherwise the result has no `/` and no `?` and is the text after the last `/` cut at its first `?` |
| `Zip.QueryStringIgnored` | src/lib/zip.ts:21-25 | appending a `?query` without `/` to a URL without `?` does not change the derived name |
| `Zip.BundleNameExample` | src/lib/zip.ts:19-26 | `https://h/a.zip?v=2` and `https://h/a.zip` both name the bundle `a.zip` |
| `Zip.SlashInQueryExample` | src/lib/zip.ts:21 | `https://h/p.zip?to=a/b` names the bundle `b` |
| `Zip.BuildDataset` | src/lib/zip.ts:32-38 | one record per extracted file, in order, with its name, bytes and clock reading; every record has packageName = bundle name and key = bundle name + `:` + file name; keys are pairwise distinct |
| `Zip.Prepare` | src/lib/zip.ts:29-38 | the dataset exists iff the download is verified and the archive unzips; a failed download reports exactly what `downloadZip` threw and a failed unzip reports an unzip failure; unzipping happens right after a successful download and never after a failed one |
| `Zip.DownloadAndUnzip` | src/lib/zip.ts:28-40 | a failed download or unzip leaves the table alone and never calls `bulkPut`; otherwise `bulkPut` is called once with the whole dataset and either appends it or fails keeping the old rows, with at most some of the dataset added |
| `Zip.NothingStoredUnlessVerifiedAndUnzipped` | src/lib/zip.ts:29-39 | when the download is not verified or the archive does not unzip, the load fails, stores nothing and makes no write |
| `Zip.FailedLoadOnlyAddsOwnRows` | src/lib/zip.ts:28-40 | a failed load keeps every old row in place; any row it may have added belongs to its own bundle and has a new id |
| `Zip.LoadedFilesStored` | src/lib/zip.ts:29-39 | after a successful load, the body met any expected digest and every extracted file is a row with its key, name, bundle name, bytes and clock reading |
| `Manager.UrlLoadExpectsNoDigest` | src/lib/manager.ts:24-32 | a load given only a URL expects no digest, so its download is accepted exactly when the server answers 200 |
| `Manager.InheritedNameRefusedAsWritten` | src/lib/manager.ts:12 | as written, the guard treats `toString` and `constructor` as taken even in an empty registry |
| `Manager.ManagerRegistry.constructor` | src/lib/manager.ts:5 | the manager registry starts empty |
| `Manager.ZipManager.Init` | src/lib/manager.ts:15-16 | a manager records its name and database instance |
| `Manager.ZipManager.Create` | src/lib/manager.ts:11-18 | the default name is `default`; a taken name fails with the duplicate message and leaves both registries unchanged; otherwise the name maps to the fresh manager, which holds the cached or a newly created instance of that name |
| `Manager.ZipManager.CreateAsWritten` | src/lib/manager.ts:11-18 | as written: a name that is registered or inherited by every plain object fails with the duplicate message and leaves the registries unchanged; any other name is registered to a fresh manager of that name, bound to the cached instance of that name (cache unchanged) or to a fresh `qua-zdb__` + name instance added to the cache |
| `Manager.ZipManager.Load` | src/lib/manager.ts:24-34 | a URL string becomes a descriptor holding only that URL; the load then changes this manager's table, and reports the outcome and external calls, exactly as `downloadAndUnzip` does for that descriptor; the stored rows stay valid; a failed `bulkPut` keeps the old rows, with at most some of the dataset added |
| `Manager.ZipManager.GetRaw` | src/lib/manager.ts:42-46 | returns the row keyed `z:a` when there is one, otherwise nothing |
| `Manager.ZipManager.Get` | src/lib/manager.ts:54-62 | returns the data of the row keyed `z:a`, or null iff none; agrees with `getByKey(z + ":" + a)` |
| `Manager.ZipManager.GetByKey` | src/lib/manager.ts:69-77 | returns the data of the row with the given key, or null iff none |
| `Manager.ZipManager.GetByName` | src/lib/manager.ts:84-94 | returns exactly the rows with that name, in id order |
| `Manager.ZipManager.GetOneByName` | src/lib/manager.ts:101-111 | null iff `getByName` is empty; otherwise the data of its first row, which has the smallest id among rows of that name |
| `Manager.ZipManager.List` | src/lib/manager.ts:118-127 | a missing or empty argument returns every row; a non-empty name returns exactly that package's rows (empty iff it has none), in id order |
| `Manager.ZipManager.Exists` | src/lib/manager.ts:135-140 | true iff a row keyed `z:a` is in the table, iff `get` finds data |
| `Manager.ZipManager.Remove` | src/lib/manager.ts:147-153 | deletes exactly the row keyed `z:a`, keeps every other row, and is a no-op when there is none |
| `Manager.ZipManager.RemovePackage` | src/lib/manager.ts:159-168 | deletes exactly the rows of that package, keeps every other row, is a no-op when none match, and afterwards `list` of a non-empty name is empty |
| `Manager.ZipManager.Destroy` | src/lib/manager.ts:173-179 | for a registered name, closes the instance of the manager registered under it, keeps that instance's rows, evicts it and unregisters the name; for an unregistered name, changes nothing |
| `Manager.RecreateAfterDestroy` | src/lib/manager.ts:11-18 | for a name not inherited by plain objects, once the manager holding it is destroyed, the constructor as written builds a manager of that name again, with an open database |
| `Manager.StaleDestroyUnregistersNewer` | src/lib/manager.ts:173-179 | with the constructor as written, destroying an already-destroyed manager unregisters a newer manager of the same name and closes its database |
| `Manager.InheritedNameDivergence` | src/lib/manager.ts:12 | on an empty registry, the constructor as written refuses `toString`, while the own-key check registers it |
| `Manager.LoadThenGet` | src/lib/manager.ts:54-62 | after a successful load, `get(bundleName, file)` returns each extracted file's bytes |

## Findings

| source | as written | input that shows it | evidently intended | confidence | as-written member | corrected member |
|---|---|---|---|---|---|---|
| src/lib/manager.ts:12 | `managers[name]` is read from a plain object, so it is also truthy for names inherited from `Object.prototype` (`db.ts:22` reads `dbInstances[name]` the same way) | `new ZipManager('toString')` with no manager registered throws the duplicate-name error (`Manager.InheritedNameDivergence`) | only a registered manager blocks a name | high; not executed | `Manager.ZipManager.CreateAsWritten` | `Manager.ZipManager.Create` |

## Left out

- HTTP transport: `fetch` and `res.arrayBuffer()` are replaced by the `Fetched` input. A failure while reading the body is not modelled.
- SHA-256 is an opaque function parameter. A failure of the hashing library is not modelled.
- `unzip` (fflate) is an opaque function parameter that returns files or a failure. Its `console.log` is left out. Its resolve-with-`undefined` path (an error whose `code` is falsy, `src/lib/zip.ts:10`) makes `Object.keys` throw, so it counts as an unzip failure.
- Files come in `Object.keys` order. The rule that integer-like keys come first, in ascending order, is not modelled; the unzip input gives the order.
- `Date.now()` is the `clock` parameter.
- Progress reporting: `downloadAndUnzip` passes a callback to `downloadZip`, but `downloadZip` takes one parameter and `load` passes no callback. There is no progress behaviour.
- `ZipMeta` and the `version`/`createTime` fields in `src/types/db.ts` are declared but never read or written. There is no metadata table in the schema.
- Dexie internals: transactions, asynchrony and schema versioning are not modelled. Data surviving a close and reopen is not modelled either: `Db.DbRegistry.GetDbInstance` says nothing about the rows of a newly created instance.
- A closed instance: Dexie refuses operations on a closed database. The model does not; table operations act on a closed instance's rows as usual.
- Db.ZipDatabase.BulkPut: on a key collision under the unique index, the contract promises only that the old rows stay in place and that any added row is one of the records under a new id. A `bulkPut` outside an explicit transaction may commit the records that did not fail, and which ones is not visible in this code. The method body commits none, which is one allowed outcome.
- The dead branches `if (!res) return []` in `getByName` and `|| 0` in `removePackage` are not modelled, since `toArray()` and `count()` always return an array and a number. The `!asset?.id` test in `remove` is modelled; ids start at 1, so it only fires when no row matches.
- Registries are modelled as maps that hold only their own entries. The inherited-name lookup in the finding above is exhibited but not carried through; for `dbInstances`, such a lookup would return a non-database value, which typed Dafny cannot represent.
- Concurrency: steps are sequential. Interleavings of `async` calls are not modelled.
- `demo/vite.config.ts`, `src/types/db.ts` and `src/types/manager.ts` hold build configuration and type declarations only.
