/** The read-through disk cache used for both master index files
    (downloader/main.go:254-276) and form 4 filings (downloader/main.go:64-86).
    The disk is a map from path to content. A path that `os.Stat` reports missing is
    downloaded, written and returned; any other path is read back from disk and no
    download is made. The filesystem and the network are fixed functions of the
    path and the URL: `net` gives the attempts a download of a URL meets,
    `canWrite` and `canRead` whether writing or reading a path succeeds. */
module Cache {
  import opened Results
  import opened Fetcher

  type Disk = map<string, string>

  /** The world outside the program, as far as the cache sees it. */
  datatype Env = Env(
    net: string -> (nat -> Attempt),
    canWrite: string -> bool,
    canRead: string -> bool)

  /** Why a lookup produced no content. Each of these ends the program (or the
      period's download) in the source. */
  datatype CacheError = DownloadFailed(cause: FetchError) | WriteFailed(path: string) | ReadFailed(path: string)

  /** One lookup: what it returned, the disk after it, and the downloads it made. */
  datatype Step = Step(result: Result<string, CacheError>, disk: Disk, downloads: nat)

  /** `later` keeps every entry of `earlier` unchanged. */
  predicate Extends(earlier: Disk, later: Disk)
  {
    forall p :: p in earlier ==> p in later && later[p] == earlier[p]
  }

  /** The download of `url`. */
  function Download(env: Env, url: string): Result<string, FetchError>
  {
    DownloadSECFile(env.net(url))
  }

  /** Look `path` up on disk, downloading `url` into it on a miss. */
  function ReadThrough(env: Env, disk: Disk, path: string, url: string): (s: Step)
    // a download happens exactly on a miss
    ensures s.downloads == if path in disk then 0 else 1
    // stored entries never change, and only `path` can be added
    ensures Extends(disk, s.disk) && s.disk.Keys <= disk.Keys + {path}
    // what is returned is what the disk now holds under `path`
    ensures s.result.Ok? ==> path in s.disk && s.disk[path] == s.result.value
    // on a hit it is the stored content, on a miss the downloaded content
    ensures s.result.Ok? && path in disk ==> s.result.value == disk[path]
    ensures s.result.Ok? && path !in disk ==> Download(env, url) == Ok(s.result.value)
    // a failed lookup leaves the disk as it was
    ensures s.result.Err? ==> s.disk == disk
    // the lookup fails exactly when the read, the download or the write fails
    ensures s.result.Err? <==>
              if path in disk then !env.canRead(path)
              else Download(env, url).Err? || !env.canWrite(path)
  {
    if path !in disk then
      match Download(env, url)
      case Err(e) => Step(Err(DownloadFailed(e)), disk, 1)
      case Ok(content) =>
        if env.canWrite(path) then Step(Ok(content), disk[path := content], 1)
        else Step(Err(WriteFailed(path)), disk, 1)
    else if env.canRead(path) then Step(Ok(disk[path]), disk, 0)
    else Step(Err(ReadFailed(path)), disk, 0)
  }

  /** A second lookup of a path the first one filled is a hit: no download, same content. */
  lemma SecondLookupHits(env: Env, disk: Disk, path: string, url: string, url2: string)
    requires ReadThrough(env, disk, path, url).result.Ok?
    requires env.canRead(path)
    ensures var first := ReadThrough(env, disk, path, url);
            var second := ReadThrough(env, first.disk, path, url2);
            second.downloads == 0 && second.result == first.result && second.disk == first.disk
  {
  }

  /** Several lookups: all contents or the first error, the disk after, the downloads made. */
  datatype Lookups = Lookups(results: Result<seq<string>, CacheError>, disk: Disk, downloads: nat)

  /** Lookups of several paths in a row, stopping at the first failure. Each request
      is a path and the URL to fill it from. */
  function LookupAll(env: Env, disk: Disk, reqs: seq<(string, string)>): (s: Lookups)
    ensures s.results.Ok? ==> |s.results.value| == |reqs|
    decreases |reqs|
  {
    if |reqs| == 0 then Lookups(Ok([]), disk, 0)
    else
      var first := ReadThrough(env, disk, reqs[0].0, reqs[0].1);
      match first.result
      case Err(e) => Lookups(Err(e), first.disk, first.downloads)
      case Ok(content) =>
        var rest := LookupAll(env, first.disk, reqs[1..]);
        Lookups(if rest.results.Ok? then Ok([content] + rest.results.value) else Err(rest.results.error),
                rest.disk, first.downloads + rest.downloads)
  }

  /** Stored entries survive any run of lookups unchanged. */
  lemma {:induction false} LookupAllExtends(env: Env, disk: Disk, reqs: seq<(string, string)>)
    ensures Extends(disk, LookupAll(env, disk, reqs).disk)
    decreases |reqs|
  {
    if |reqs| > 0 {
      var first := ReadThrough(env, disk, reqs[0].0, reqs[0].1);
      if first.result.Ok? {
        LookupAllExtends(env, first.disk, reqs[1..]);
      }
    }
  }

  /** After a successful run every requested path is on disk holding the content the
      run returned for it. */
  lemma {:induction false} LookupAllStores(env: Env, disk: Disk, reqs: seq<(string, string)>)
    requires LookupAll(env, disk, reqs).results.Ok?
    ensures var s := LookupAll(env, disk, reqs);
            forall i :: 0 <= i < |reqs| ==> reqs[i].0 in s.disk && s.disk[reqs[i].0] == s.results.value[i]
    decreases |reqs|
  {
    if |reqs| > 0 {
      var first := ReadThrough(env, disk, reqs[0].0, reqs[0].1);
      var rest := LookupAll(env, first.disk, reqs[1..]);
      var s := LookupAll(env, disk, reqs);
      assert s.disk == rest.disk && s.results.value == [first.result.value] + rest.results.value;
      LookupAllStores(env, first.disk, reqs[1..]);
      LookupAllExtends(env, first.disk, reqs[1..]);
      forall i | 0 <= i < |reqs|
        ensures reqs[i].0 in s.disk && s.disk[reqs[i].0] == s.results.value[i]
      {
        if i > 0 {
          assert reqs[i] == reqs[1..][i - 1];
        }
      }
    }
  }

  /** A successful run adds exactly the requested paths that were missing. */
  lemma {:induction false} LookupAllKeys(env: Env, disk: Disk, reqs: seq<(string, string)>)
    requires LookupAll(env, disk, reqs).results.Ok?
    ensures LookupAll(env, disk, reqs).disk.Keys == disk.Keys + PathsOf(reqs)
    decreases |reqs|
  {
    if |reqs| > 0 {
      var first := ReadThrough(env, disk, reqs[0].0, reqs[0].1);
      assert LookupAll(env, disk, reqs).disk == LookupAll(env, first.disk, reqs[1..]).disk;
      LookupAllKeys(env, first.disk, reqs[1..]);
      SuccessfulLookupKeys(env, disk, reqs[0].0, reqs[0].1);
      PathsOfCons(reqs);
    }
  }

  /** The paths a run of requests looks up. */
  function PathsOf(reqs: seq<(string, string)>): set<string>
  {
    set i | 0 <= i < |reqs| :: reqs[i].0
  }

  /** The paths of a run are those of its first request and of the rest. */
  lemma PathsOfCons(reqs: seq<(string, string)>)
    requires |reqs| > 0
    ensures PathsOf(reqs) == {reqs[0].0} + PathsOf(reqs[1..])
  {
    forall p | p in PathsOf(reqs)
      ensures p in {reqs[0].0} + PathsOf(reqs[1..])
    {
      var i :| 0 <= i < |reqs| && reqs[i].0 == p;
      if i > 0 {
        assert reqs[1..][i - 1].0 == p;
      }
    }
    forall p | p in PathsOf(reqs[1..])
      ensures p in PathsOf(reqs)
    {
      var i :| 0 <= i < |reqs[1..]| && reqs[1..][i].0 == p;
      assert reqs[i + 1].0 == p;
    }
  }

  /** A run of lookups that succeeds downloads each missing path exactly once, however
      often it is requested: the downloads are the distinct paths not already on disk. */
  lemma {:induction false} DownloadsAreMissingPaths(env: Env, disk: Disk, reqs: seq<(string, string)>)
    requires LookupAll(env, disk, reqs).results.Ok?
    ensures LookupAll(env, disk, reqs).downloads == |PathsOf(reqs) - disk.Keys|
    decreases |reqs|
  {
    if |reqs| > 0 {
      var p := reqs[0].0;
      var first := ReadThrough(env, disk, p, reqs[0].1);
      assert LookupAll(env, disk, reqs).downloads == first.downloads + LookupAll(env, first.disk, reqs[1..]).downloads;
      DownloadsAreMissingPaths(env, first.disk, reqs[1..]);
      SuccessfulLookupKeys(env, disk, p, reqs[0].1);
      PathsOfCons(reqs);
      MissingCount(PathsOf(reqs[1..]), disk.Keys, p);
    }
  }

  /** A successful lookup leaves exactly the old paths and the one looked up. */
  lemma SuccessfulLookupKeys(env: Env, disk: Disk, path: string, url: string)
    requires ReadThrough(env, disk, path, url).result.Ok?
    ensures ReadThrough(env, disk, path, url).disk.Keys == disk.Keys + {path}
  {
  }

  /** Counting the missing paths of a run from its first path on. */
  lemma MissingCount(rest: set<string>, known: set<string>, p: string)
    ensures |({p} + rest) - known| == |rest - (known + {p})| + (if p in known then 0 else 1)
  {
    if p in known {
      assert ({p} + rest) - known == rest - (known + {p});
    } else {
      assert ({p} + rest) - known == (rest - (known + {p})) + {p};
    }
  }

  /** The path a form 4 filing is cached under (downloader/main.go:64). */
  function Form4Path(cik: string, accession: string): (p: string)
    ensures |p| == |cik| + |accession| + 15
    ensures p[10..10 + |cik|] == cik && p[|p| - 4 - |accession|..|p| - 4] == accession
  {
    "form4_xml/" + cik + "_" + accession + ".xml"
  }

  /** Distinct filings get distinct paths, as long as CIKs hold no `_`. */
  lemma Form4PathInjective(cik1: string, acc1: string, cik2: string, acc2: string)
    requires '_' !in cik1 && '_' !in cik2
    requires Form4Path(cik1, acc1) == Form4Path(cik2, acc2)
    ensures cik1 == cik2 && acc1 == acc2
  {
    var s1 := cik1 + "_" + acc1;
    var s2 := cik2 + "_" + acc2;
    var p1 := Form4Path(cik1, acc1);
    assert p1 == "form4_xml/" + s1 + ".xml";
    assert s1 == p1[10..|p1| - 4] == s2;
    FirstUnderscore(cik1, acc1);
    FirstUnderscore(cik2, acc2);
    assert s1[..|cik1|] == cik1 && s2[..|cik2|] == cik2;
    assert s1[|cik1| + 1..] == acc1 && s2[|cik2| + 1..] == acc2;
  }

  /** In `cik + "_" + acc` with an underscore-free CIK, the first `_` ends the CIK. */
  lemma FirstUnderscore(cik: string, acc: string)
    requires '_' !in cik
    ensures var s := cik + "_" + acc; s[|cik|] == '_' && forall i :: 0 <= i < |cik| ==> s[i] != '_'
  {
    var s := cik + "_" + acc;
    forall i | 0 <= i < |cik|
      ensures s[i] != '_'
    {
      assert s[i] == cik[i];
    }
  }

  /** Without that proviso two filings can share a path. */
  lemma Form4PathCollision()
    ensures Form4Path("1_2", "3") == Form4Path("1", "2_3")
  {
  }
}
