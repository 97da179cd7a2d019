/** Bundle-name derivation, record building and the load pipeline
    (src/lib/zip.ts). Unzipping is an input: `unzip` maps the downloaded
    bytes to the archive's files, in `Object.keys` order, or fails. The clock
    is an input too: `clock(i)` is what `Date.now()` returns when the i-th
    record is built. */
module Zip {
  import opened Common
  import opened Db
  import opened Downloader

  /** One extracted file. */
  datatype Entry = Entry(name: string, data: Bytes)

  predicate NamesDistinct(files: seq<Entry>)
  {
    forall i, j :: 0 <= i < j < |files| ==> files[i].name != files[j].name
  }

  /** An unzipped archive: file names are the keys of one object, so no name repeats. */
  type Files = s: seq<Entry> | NamesDistinct(s)

  /** The key an asset is stored and looked up under. */
  function AssetKey(zipName: string, fileName: string): string
  {
    zipName + ":" + fileName
  }

  /** Within one bundle, distinct file names give distinct keys. */
  lemma AssetKeyInjective(zipName: string, a: string, b: string)
    requires AssetKey(zipName, a) == AssetKey(zipName, b)
    ensures a == b
  {
    assert a == AssetKey(zipName, a)[|zipName| + 1..];
    assert b == AssetKey(zipName, b)[|zipName| + 1..];
  }

  /** The key does not record where the bundle name ends: a bundle whose name
      contains ':' can share a key with an asset of another bundle. */
  lemma KeyDoesNotSeparateBundles()
    ensures AssetKey("a:b", "c") == AssetKey("a", "b:c")
  {
  }

  /** `r` is what is left of the last '/'-free segment of `url` once it is cut
      at its first '?'. */
  ghost predicate StemOfLastSegment(url: string, r: string)
  {
    exists i :: 0 <= i <= |url| && (i == 0 || url[i - 1] == '/') && '/' !in url[i..] &&
      r <= url[i..] && (|r| == |url| - i || url[i + |r|] == '?')
  }

  /** The text after the last '/' of `url` (all of it when there is none). */
  function LastSegment(url: string): (seg: string)
    ensures '/' !in seg
  {
    var cut := LastIndexOf(url, '/') + 1;
    assert cut == 0 ==> url[cut..] == url;
    url[cut..]
  }

  /** `s` cut at its first '?' (all of it when there is none). */
  function CutQuery(s: string): (r: string)
    ensures r <= s && '?' !in r
    ensures |r| == |s| || s[|r|] == '?'
  {
    if '?' in s then s[..IndexOf(s, '?')] else s
  }

  /** `normalizeZipName(zipInfo)`: the bundle name. */
  function NormalizeZipName(info: ZipInfo): (r: string)
    ensures Truthy(info.name) ==> r == info.name.value
    ensures !Truthy(info.name) ==> '/' !in r && '?' !in r && StemOfLastSegment(info.url, r)
  {
    if Truthy(info.name) then info.name.value
    else
      var cut := LastIndexOf(info.url, '/') + 1;
      var r := CutQuery(LastSegment(info.url));
      assert info.url[cut..] == LastSegment(info.url);
      assert forall k :: 0 <= k < |r| ==> r[k] == LastSegment(info.url)[k];
      assert |r| == |info.url| - cut || info.url[cut + |r|] == '?';
      r
  }

  /** Appending text without '/' extends the last segment by that text. */
  lemma LastSegmentAppend(path: string, tail: string)
    requires '/' !in tail
    ensures LastSegment(path + tail) == LastSegment(path) + tail
  {
    LastIndexOfAppend(path, tail, '/');
    var cut := LastIndexOf(path, '/') + 1;
    assert (path + tail)[cut..] == path[cut..] + tail;
  }

  /** A '?' appended to text without '?' is where the query is cut. */
  lemma CutQueryAfter(seg: string, query: string)
    requires '?' !in seg
    ensures CutQuery(seg + ['?'] + query) == seg
    ensures CutQuery(seg) == seg
  {
    IndexOfAfter(seg, '?', query);
    assert (seg + ['?'] + query)[..|seg|] == seg;
  }

  /** Text without '?' keeps no '?' once a prefix is dropped. */
  lemma NoQueryMarkInSuffix(s: string, i: nat)
    requires '?' !in s && i <= |s|
    ensures '?' !in s[i..]
  {
    forall k | 0 <= k < |s[i..]| ensures s[i..][k] != '?' {
      assert s[i..][k] == s[i + k];
    }
  }

  /** The stem of a URL does not see a query string without '/'. */
  lemma StemIgnoresQuery(path: string, query: string)
    requires '?' !in path && '/' !in query
    ensures CutQuery(LastSegment(path + "?" + query)) == CutQuery(LastSegment(path))
  {
    var tail := ['?'] + query;
    assert path + "?" + query == path + tail;
    LastSegmentAppend(path, tail);
    NoQueryMarkInSuffix(path, LastIndexOf(path, '/') + 1);
    var seg := LastSegment(path);
    assert seg + tail == seg + ['?'] + query;
    CutQueryAfter(seg, query);
  }

  /** A query string without '/' does not change the derived name. */
  lemma QueryStringIgnored(path: string, query: string, hash: Option<string>)
    requires '?' !in path && '/' !in query
    ensures NormalizeZipName(ZipInfo(path + "?" + query, None, hash)) ==
            NormalizeZipName(ZipInfo(path, None, hash))
  {
    StemIgnoresQuery(path, query);
  }

  /** The two URLs of a bundle with and without a version query name the same bundle. */
  lemma BundleNameExample()
    ensures NormalizeZipName(ZipInfo("https://h/a.zip?v=2", None, None)) == "a.zip"
    ensures NormalizeZipName(ZipInfo("https://h/a.zip", None, None)) == "a.zip"
  {
    var path := "https://h/a.zip";
    assert path == "https://h/" + "a.zip";
    assert path[9] == '/' && path[10..] == "a.zip";
    LastIndexOfIs(path, '/', 9);
    assert '?' !in path;
    assert "https://h/a.zip?v=2" == path + "?" + "v=2";
    QueryStringIgnored(path, "v=2", None);
  }

  /** A '/' inside the query string is taken for a path separator. */
  lemma SlashInQueryExample()
    ensures NormalizeZipName(ZipInfo("https://h/p.zip?to=a/b", None, None)) == "b"
  {
    var url := "https://h/p.zip?to=a/b";
    assert url[20] == '/' && url[21..] == "b";
    LastIndexOfIs(url, '/', 20);
  }

  /** `Object.keys(unzipped).map(...)`: one record per extracted file. */
  function BuildDataset(zipName: string, files: Files, clock: nat -> int): (r: seq<Record>)
    ensures |r| == |files|
    ensures forall i :: 0 <= i < |r| ==>
      r[i].name == files[i].name && r[i].data == files[i].data && r[i].ctime == clock(i)
    ensures forall i :: 0 <= i < |r| ==> r[i].packageName == zipName && r[i].key == AssetKey(zipName, r[i].name)
    ensures forall i, j :: 0 <= i < j < |r| ==> r[i].key != r[j].key
  {
    var r := seq(|files|, i requires 0 <= i < |files| =>
      Record(AssetKey(zipName, files[i].name), files[i].name, zipName, files[i].data, clock(i)));
    forall i, j | 0 <= i < j < |r|
      ensures r[i].key != r[j].key
    {
      if r[i].key == r[j].key {
        AssetKeyInjective(zipName, files[i].name, files[j].name);
      }
    }
    r
  }

  function KeysOf(records: seq<Record>): seq<string>
  {
    seq(|records|, i requires 0 <= i < |records| => records[i].key)
  }

  datatype LoadError = DownloadFailed(cause: DownloadError) | UnzipFailed | StoreFailed

  /** Whether `downloadAndUnzip` resolved or threw. */
  datatype Outcome = Pass | Fail(error: LoadError)

  /** The steps of `downloadAndUnzip` before the write: download, unzip,
      derive the bundle name and build the dataset. */
  datatype Prepared = Prepared(effects: seq<Effect>, dataset: Result<seq<Record>, LoadError>)

  function Prepare(info: ZipInfo, fetched: Fetched, sha256: Bytes -> string,
                   unzip: Bytes -> Option<Files>, clock: nat -> int): (p: Prepared)
    ensures p.dataset.Success? <==> Verified(info, fetched, sha256) && unzip(fetched.res.body).Some?
    ensures p.dataset.Success? ==>
      p.dataset.value == BuildDataset(NormalizeZipName(info), unzip(fetched.res.body).value, clock)
    // A failed download reports what `downloadZip` threw; an archive that
    // does not unzip reports that.
    ensures !Verified(info, fetched, sha256) ==>
      p.dataset == Failure(DownloadFailed(DownloadZip(info, fetched, sha256).result.error))
    ensures Verified(info, fetched, sha256) && unzip(fetched.res.body).None? ==>
      p.dataset == Failure(UnzipFailed)
    // Unzipping comes right after the download and only when it succeeded.
    ensures p.effects == DownloadZip(info, fetched, sha256).effects +
      (if Verified(info, fetched, sha256) then [Unzip(fetched.res.body)] else [])
  {
    var d := DownloadZip(info, fetched, sha256);
    match d.result
    case Failure(e) => Prepared(d.effects, Failure(DownloadFailed(e)))
    case Success(zip) =>
      match unzip(zip)
      case None => Prepared(d.effects + [Unzip(zip)], Failure(UnzipFailed))
      case Some(files) =>
        Prepared(d.effects + [Unzip(zip)], Success(BuildDataset(NormalizeZipName(info), files, clock)))
  }

  /** How one `downloadAndUnzip` call with prepared steps `p` takes the table
      from `rows0`/`next0` to `rows1`/`next1`: a failure before the write
      leaves it alone; otherwise `bulkPut` is called once, and either appends
      the whole dataset or fails on a taken key, keeping the old rows and
      adding at most some of the dataset's records. */
  ghost predicate AppliedLoad(p: Prepared, rows0: seq<Asset>, next0: nat, rows1: seq<Asset>, next1: nat,
                              r: Outcome, effects: seq<Effect>)
  {
    match p.dataset
    case Failure(e) =>
      r == Fail(e) && effects == p.effects && rows1 == rows0 && next1 == next0
    case Success(ds) =>
      effects == p.effects + [Store(KeysOf(ds))] &&
      if KeysFresh(rows0, ds) then
        r == Pass && rows1 == rows0 + Stored(ds, next0) && next1 == next0 + |ds|
      else
        r == Fail(StoreFailed) && PartlyStored(rows0, next0, rows1, next1, ds)
  }

  /** `downloadAndUnzip(db, zipInfo)`. */
  method DownloadAndUnzip(db: ZipDatabase, info: ZipInfo, fetched: Fetched, sha256: Bytes -> string,
                          unzip: Bytes -> Option<Files>, clock: nat -> int)
    returns (r: Outcome, effects: seq<Effect>)
    requires db.Valid()
    modifies db`assets, db`nextId
    ensures db.Valid()
    ensures AppliedLoad(Prepare(info, fetched, sha256, unzip, clock), old(db.assets), old(db.nextId),
                        db.assets, db.nextId, r, effects)
  {
    var zip := DownloadZip(info, fetched, sha256);
    effects := zip.effects;
    if zip.result.Failure? {
      return Fail(DownloadFailed(zip.result.error)), effects;
    }
    effects := effects + [Unzip(zip.result.value)];
    var unzipped := unzip(zip.result.value);
    if unzipped.None? {
      return Fail(UnzipFailed), effects;
    }
    var zipName := NormalizeZipName(info);
    var dataset := BuildDataset(zipName, unzipped.value, clock);
    effects := effects + [Store(KeysOf(dataset))];
    var ok := db.BulkPut(dataset);
    r := if ok then Pass else Fail(StoreFailed);
  }

  /** A download that fails or is rejected, or an archive that does not
      unzip, never reaches `bulkPut`: nothing is stored. */
  lemma NothingStoredUnlessVerifiedAndUnzipped(info: ZipInfo, fetched: Fetched, sha256: Bytes -> string,
      unzip: Bytes -> Option<Files>, clock: nat -> int,
      rows0: seq<Asset>, next0: nat, rows1: seq<Asset>, next1: nat, r: Outcome, effects: seq<Effect>)
    requires AppliedLoad(Prepare(info, fetched, sha256, unzip, clock), rows0, next0, rows1, next1, r, effects)
    requires !Verified(info, fetched, sha256) || unzip(fetched.res.body).None?
    ensures r.Fail? && rows1 == rows0 && next1 == next0
    ensures forall k :: 0 <= k < |effects| ==> !effects[k].Store?
  {
    var p := Prepare(info, fetched, sha256, unzip, clock);
    var d := DownloadZip(info, fetched, sha256);
    assert effects == p.effects;
    forall k | 0 <= k < |effects|
      ensures !effects[k].Store?
    {
      if k >= |d.effects| {
        assert effects[k] == Unzip(fetched.res.body);
      }
    }
  }

  /** A failed load never removes or changes a row, and whatever it may have
      added belongs to its own bundle and has a new id. */
  lemma FailedLoadOnlyAddsOwnRows(info: ZipInfo, fetched: Fetched, sha256: Bytes -> string,
      unzip: Bytes -> Option<Files>, clock: nat -> int,
      rows0: seq<Asset>, next0: nat, rows1: seq<Asset>, next1: nat, r: Outcome, effects: seq<Effect>)
    requires AppliedLoad(Prepare(info, fetched, sha256, unzip, clock), rows0, next0, rows1, next1, r, effects)
    requires r.Fail?
    ensures rows0 <= rows1
    ensures forall x :: x in rows1[|rows0|..] ==> next0 <= x.id && x.packageName == NormalizeZipName(info)
  {
    var p := Prepare(info, fetched, sha256, unzip, clock);
    if p.dataset.Success? {
      var ds := p.dataset.value;
      forall x | x in rows1[|rows0|..]
        ensures x.packageName == NormalizeZipName(info)
      {
        var j :| 0 <= j < |ds| && ds[j] == RecordOf(x);
      }
    } else {
      assert rows1[|rows0|..] == [];
    }
  }

  /** After a successful load every file of the archive is in the table under
      its key, with its bytes, tagged with the bundle name; and when a digest
      was expected, the downloaded body matched it. */
  lemma LoadedFilesStored(info: ZipInfo, fetched: Fetched, sha256: Bytes -> string,
      unzip: Bytes -> Option<Files>, clock: nat -> int,
      rows0: seq<Asset>, next0: nat, rows1: seq<Asset>, next1: nat, effects: seq<Effect>, i: nat)
    requires AppliedLoad(Prepare(info, fetched, sha256, unzip, clock), rows0, next0, rows1, next1, Pass, effects)
    ensures Verified(info, fetched, sha256) && unzip(fetched.res.body).Some?
    ensures Truthy(info.hash) ==> sha256(fetched.res.body) == info.hash.value
    ensures var files := unzip(fetched.res.body).value;
      i < |files| ==>
        Asset(next0 + i, AssetKey(NormalizeZipName(info), files[i].name), files[i].name,
              NormalizeZipName(info), files[i].data, clock(i)) in rows1
  {
    var p := Prepare(info, fetched, sha256, unzip, clock);
    var files := unzip(fetched.res.body).value;
    if i < |files| {
      var ds := p.dataset.value;
      assert rows1 == rows0 + Stored(ds, next0);
      assert rows1[|rows0| + i] == Stored(ds, next0)[i];
    }
  }
}
