/** `GetFilingsForYearQuarter` (downloader/main.go:226-282): fetch the daily-index page
    of a quarter, pick the links whose text starts with `master.`, and gather the
    filings of every master file they point to, reading each through the disk cache
    under `masterfiles/`. The page itself is never cached, and the HTML parser is a
    fixed function from the page to its anchors. */
module Period {
  import opened Results
  import opened Seqs
  import opened GoStrings
  import opened MasterIndex
  import opened Fetcher
  import opened Cache
  import opened Loops

  /** The SEC's web site. */
  const Host: string := "https://www.sec.gov/"

  /** The root of the EDGAR archives on it. */
  const Archives: string := "Archives/"

  /** The daily indexes inside the archives. */
  const DailyIndex: string := "edgar/daily-index/"

  /** The part of `indexURL` (downloader/main.go:28) before the year. */
  const IndexBase: string := Host + Archives + DailyIndex

  /** Where master files are cached. */
  const MasterDir: string := "masterfiles/"

  /** The text a master link's text starts with. */
  const MasterPrefix: string := "master."

  /** `fmt.Sprintf("QTR%d/", quarter)`: its first character occurs nowhere else in it,
      so it cannot overlap itself. */
  function QuarterMarker(q: int): (m: string)
    ensures |m| > 0 && m[0] == 'Q' && forall i :: 0 < i < |m| ==> m[i] != 'Q'
  {
    "QTR" + FormatInt(q) + "/"
  }

  /** `fmt.Sprintf(indexURL, year, quarter)`. */
  function IndexUrl(year: int, q: int): (u: string)
    ensures HasPrefix(u, IndexBase)
    ensures |u| >= |QuarterMarker(q)| && u[|u| - |QuarterMarker(q)|..] == QuarterMarker(q)
    ensures 'Q' !in u[..|u| - |QuarterMarker(q)|]
  {
    var pre := IndexBase + FormatInt(year) + "/";
    YearPartHasNoQ(year);
    assert (pre + QuarterMarker(q))[..|pre|] == pre;
    assert pre[..|IndexBase|] == IndexBase;
    pre + QuarterMarker(q)
  }

  /** `s` holds no `Q`. */
  predicate NoQ(s: string)
  {
    forall i :: 0 <= i < |s| ==> s[i] != 'Q'
  }

  /** The pieces of the base URL hold no `Q`. */
  lemma HostHasNoQ()
    ensures NoQ(Host)
  {
  }

  lemma ArchivesHasNoQ()
    ensures NoQ(Archives)
  {
  }

  lemma DailyIndexHasNoQ()
    ensures NoQ(DailyIndex)
  {
  }

  /** The part of the index URL before the quarter marker holds no `Q`. */
  lemma YearPartHasNoQ(year: int)
    ensures 'Q' !in IndexBase + FormatInt(year) + "/"
  {
    HostHasNoQ();
    ArchivesHasNoQ();
    DailyIndexHasNoQ();
    var pre := IndexBase + FormatInt(year) + "/";
    assert NoQ(pre);
  }

  /** An `<a>` element of the index page: its `href` attribute, if any, and its text. */
  datatype Anchor = Anchor(href: Option<string>, text: string)

  /** The text of a master link: trimmed of white space, it starts with `master.`
      (case matters). */
  predicate IsMasterText(text: string)
    ensures IsMasterText(text) ==>
              exists i :: OccursAt(text, MasterPrefix, i) && forall j :: 0 <= j < i ==> IsSpace(text[j])
  {
    MasterTextFound(text);
    HasPrefix(TrimSpace(text), MasterPrefix)
  }

  /** A trimmed text starting with `master.` has `master.` right after the leading white space. */
  lemma MasterTextFound(text: string)
    ensures HasPrefix(TrimSpace(text), MasterPrefix) ==>
              exists i :: OccursAt(text, MasterPrefix, i) && forall j :: 0 <= j < i ==> IsSpace(text[j])
  {
    PrefixAfterSpaces(text, MasterPrefix);
  }

  /** A prefix of the trimmed text occurs in the text right after its leading white space. */
  lemma PrefixAfterSpaces(text: string, prefix: string)
    ensures HasPrefix(TrimSpace(text), prefix) ==>
              exists i :: OccursAt(text, prefix, i) && forall j :: 0 <= j < i ==> IsSpace(text[j])
  {
    var r := TrimSpace(text);
    if HasPrefix(r, prefix) {
      var i :| TrimmedAt(text, r, i);
      assert text[i..i + |prefix|] == r[..|prefix|];
      assert OccursAt(text, prefix, i);
    }
  }

  /** The anchors the page walk keeps: those with an `href` whose text passes `textOk`. */
  predicate Selected(a: Anchor, textOk: string -> bool)
  {
    a.href.Some? && textOk(a.text)
  }

  /** The page walk (downloader/main.go:240-244): for every selected anchor, in page
      order, its `href` appended to `base`. */
  function SelectLinks(base: string, anchors: seq<Anchor>, textOk: string -> bool): (links: seq<string>)
    ensures |links| <= |anchors|
    decreases |anchors|
  {
    if |anchors| == 0 then []
    else
      var rest := SelectLinks(base, anchors[1..], textOk);
      if Selected(anchors[0], textOk) then [base + anchors[0].href.value] + rest else rest
  }

  /** The URLs of the master files linked from the page at `base`. */
  function SelectMasterLinks(base: string, anchors: seq<Anchor>): seq<string>
  {
    SelectLinks(base, anchors, IsMasterText)
  }

  /** A URL is selected exactly when some selected anchor of the page points to it. */
  lemma {:induction false} SelectLinksMembership(base: string, anchors: seq<Anchor>, textOk: string -> bool, url: string)
    ensures url in SelectLinks(base, anchors, textOk) <==>
            exists a :: a in anchors && Selected(a, textOk) && url == base + a.href.value
    decreases |anchors|
  {
    if |anchors| > 0 {
      SelectLinksMembership(base, anchors[1..], textOk, url);
      assert anchors == [anchors[0]] + anchors[1..];
      if exists a :: a in anchors && Selected(a, textOk) && url == base + a.href.value {
        var a :| a in anchors && Selected(a, textOk) && url == base + a.href.value;
        if a != anchors[0] {
          assert a in anchors[1..];
        }
      }
    }
  }

  /** Links are selected anchor by anchor: the links of two runs of anchors are
      those of the first followed by those of the second. */
  lemma {:induction false} SelectLinksConcat(base: string, a: seq<Anchor>, b: seq<Anchor>, textOk: string -> bool)
    ensures SelectLinks(base, a + b, textOk) == SelectLinks(base, a, textOk) + SelectLinks(base, b, textOk)
    decreases |a|
  {
    if |a| > 0 {
      assert (a + b)[0] == a[0];
      assert (a + b)[1..] == a[1..] + b;
      SelectLinksConcat(base, a[1..], b, textOk);
    } else {
      assert a + b == b;
    }
  }

  /** Selection keeps the selected anchors in page order: it is the filter of the
      anchors, each mapped to its URL. */
  lemma {:induction false} SelectLinksFilters(base: string, anchors: seq<Anchor>, textOk: string -> bool)
    ensures var kept := Filter(anchors, a => Selected(a, textOk));
            var links := SelectLinks(base, anchors, textOk);
            |links| == |kept| && forall i :: 0 <= i < |links| ==> links[i] == base + kept[i].href.value
    decreases |anchors|
  {
    if |anchors| > 0 {
      SelectLinksFilters(base, anchors[1..], textOk);
    }
  }

  /** A link whose text is `master.…` padded with white space is selected; one
      without an `href` never is. */
  lemma PaddedTextSelected(base: string, href: string, pre: string, name: string, post: string)
    requires forall i :: 0 <= i < |pre| ==> IsSpace(pre[i])
    requires forall i :: 0 <= i < |post| ==> IsSpace(post[i])
    requires HasPrefix(name, MasterPrefix) && !IsSpace(name[|name| - 1])
    ensures SelectMasterLinks(base, [Anchor(Some(href), pre + name + post)]) == [base + href]
    ensures SelectMasterLinks(base, [Anchor(None, pre + name + post)]) == []
  {
    assert name[0] == 'm';
    TrimSpaceAround(pre, name, post);
    assert IsMasterText(pre + name + post);
  }

  /** `"masterfiles/" + strings.Split(masterFile, fmt.Sprintf("QTR%d/", quarter))[1]`:
      the cache path of a master file, or nothing where the source would index past
      the end of the split and crash. */
  function MasterPath(url: string, q: int): (path: Option<string>)
    ensures path.Some? <==> Contains(url, QuarterMarker(q))
  {
    var parts := Split(url, QuarterMarker(q));
    SplitSeveralIffContains(url, QuarterMarker(q));
    if |parts| < 2 then None else Some(MasterDir + parts[1])
  }

  /** For a link taken from the quarter's own index page, the marker is found right
      after the year, so the cache path is the `href` up to any later copy of the
      marker, and the whole `href` when it has none. */
  lemma MasterPathOfLink(year: int, q: int, href: string)
    ensures MasterPath(IndexUrl(year, q) + href, q) == Some(MasterDir + Split(href, QuarterMarker(q))[0])
    ensures !Contains(href, QuarterMarker(q)) ==> MasterPath(IndexUrl(year, q) + href, q) == Some(MasterDir + href)
  {
    var marker := QuarterMarker(q);
    var pre := IndexBase + FormatInt(year) + "/";
    YearPartHasNoQ(year);
    HeadAbsent(pre, marker);
    HeadUniqueNoBorder(marker);
    assert IndexUrl(year, q) + href == pre + marker + href;
    SplitCons(pre, marker, href);
    if !Contains(href, marker) {
      SplitNone(href, marker);
    }
  }

  /** Every link selected from a quarter's index page has a cache path. */
  lemma SelectedLinksHavePaths(year: int, q: int, anchors: seq<Anchor>)
    ensures forall u :: u in SelectMasterLinks(IndexUrl(year, q), anchors) ==> MasterPath(u, q).Some?
  {
    forall u | u in SelectMasterLinks(IndexUrl(year, q), anchors)
      ensures MasterPath(u, q).Some?
    {
      SelectLinksMembership(IndexUrl(year, q), anchors, IsMasterText, u);
      var a :| a in anchors && Selected(a, IsMasterText) && u == IndexUrl(year, q) + a.href.value;
      MasterPathOfLink(year, q, a.href.value);
    }
  }

  /** Why gathering a quarter's filings failed. */
  datatype PeriodError =
    | IndexFailed(cause: FetchError)   // the index page could not be downloaded
    | HtmlUnreadable                   // the index page could not be parsed
    | NoQuarterInLink(url: string)     // a master link lacks the quarter marker (a crash in the source)
    | FileFailed(failure: CacheError)  // a master file could not be downloaded, written or read
    | TooFewLines(path: string)        // a master file has fewer lines than the header (a crash in the source)

  /** The filings gathered, or the first error; the disk after; the downloads made. */
  type Gathered = Run<DailyFilingsRow, PeriodError>

  /** One pass of the loop over master files (downloader/main.go:251-278): read the
      file through the cache and parse it. */
  function OneFile(env: Env, disk: Disk, q: int, url: string): (g: Gathered)
    ensures Extends(disk, g.disk) && g.downloads <= 1
    ensures MasterPath(url, q).None? ==> g == Run(Err(NoQuarterInLink(url)), disk, 0)
  {
    match MasterPath(url, q)
    case None => Run(Err(NoQuarterInLink(url)), disk, 0)
    case Some(path) =>
      var step := ReadThrough(env, disk, path, url);
      match step.result
      case Err(e) => Run(Err(FileFailed(e)), step.disk, step.downloads)
      case Ok(content) =>
        if |Split(content, Newline)| < HeaderLines then Run(Err(TooFewLines(path)), step.disk, step.downloads)
        else Run(Ok(ParseDailyMasterFile(content)), step.disk, step.downloads)
  }

  /** A pass that succeeds is a successful cache lookup of the link's path, and the
      filings it returns are those of the file that lookup leaves on disk. */
  lemma OneFileFilings(env: Env, disk: Disk, q: int, url: string)
    requires OneFile(env, disk, q, url).result.Ok?
    ensures MasterPath(url, q).Some?
    ensures var g := OneFile(env, disk, q, url);
            var path := MasterPath(url, q).value;
            var s := ReadThrough(env, disk, path, url);
            && s.result.Ok? && s.disk == g.disk && s.downloads == g.downloads
            && |Split(g.disk[path], Newline)| >= HeaderLines
            && g.result.value == ParseDailyMasterFile(g.disk[path])
  {
  }

  /** The per-file step of the loop over master files. */
  function MasterFileStep(env: Env, q: int): (Disk, string) -> Gathered
  {
    (d, u) => OneFile(env, d, q, u)
  }

  /** The loop over the master files of quarter `q` (downloader/main.go:250-279). */
  function ResolveFiles(env: Env, disk: Disk, q: int, urls: seq<string>): (g: Gathered)
    ensures Extends(disk, g.disk)
  {
    assert KeepsStored(MasterFileStep(env, q));
    LoopExtends(MasterFileStep(env, q), disk, urls);
    Loop(MasterFileStep(env, q), disk, urls)
  }

  /** The filings of the master files of quarter `q` are those of each file in turn,
      and a failing file ends the loop. */
  lemma ResolveFilesAppend(env: Env, disk: Disk, q: int, u1: seq<string>, u2: seq<string>)
    ensures var g1 := ResolveFiles(env, disk, q, u1);
            ResolveFiles(env, disk, q, u1 + u2) == Then(g1, ResolveFiles(env, g1.disk, q, u2))
  {
    LoopAppend(MasterFileStep(env, q), disk, u1, u2);
  }

  /** The cache path of a link, where it has one. */
  function PathOf(q: int): string -> string
  {
    u => if MasterPath(u, q).Some? then MasterPath(u, q).value else ""
  }

  /** The URL a link is downloaded from: the link itself. */
  function LinkUrl(u: string): string
  {
    u
  }

  /** One application of the master-file step, as a cache lookup. */
  lemma StepIsLookup(env: Env, q: int, d: Disk, u: string)
    requires OneFile(env, d, q, u).result.Ok?
    ensures var s := ReadThrough(env, d, PathOf(q)(u), u);
            var g := OneFile(env, d, q, u);
            s.result.Ok? && s.disk == g.disk && s.downloads == g.downloads
  {
    OneFileFilings(env, d, q, u);
    assert PathOf(q)(u) == MasterPath(u, q).value;
  }

  /** Each master file is downloaded at most once, and only if it was not already on
      disk: a successful gathering downloads exactly the missing distinct paths. */
  lemma GatheringDownloadsMissingFiles(env: Env, disk: Disk, q: int, urls: seq<string>)
    requires ResolveFiles(env, disk, q, urls).result.Ok?
    ensures ResolveFiles(env, disk, q, urls).downloads == |PathsOf(Requests(PathOf(q), LinkUrl, urls)) - disk.Keys|
  {
    var step := MasterFileStep(env, q);
    forall d: Disk, u: string | step(d, u).result.Ok?
      ensures var s := ReadThrough(env, d, PathOf(q)(u), LinkUrl(u));
              s.result.Ok? && s.disk == step(d, u).disk && s.downloads == step(d, u).downloads
    {
      assert step(d, u) == OneFile(env, d, q, u);
      StepIsLookup(env, q, d, u);
    }
    LoopDownloadsMissing(step, env, PathOf(q), LinkUrl, disk, urls);
  }

  /** A loop whose links all have a path never fails for lack of one. */
  lemma {:induction false} LinksWithPathsFindMarker(env: Env, disk: Disk, q: int, urls: seq<string>)
    requires forall u :: u in urls ==> MasterPath(u, q).Some?
    ensures var g := ResolveFiles(env, disk, q, urls); !(g.result.Err? && g.result.error.NoQuarterInLink?)
    decreases |urls|
  {
    if |urls| > 0 {
      assert urls == [urls[0]] + urls[1..];
      var first := OneFile(env, disk, q, urls[0]);
      assert MasterFileStep(env, q)(disk, urls[0]) == first;
      LinksWithPathsFindMarker(env, first.disk, q, urls[1..]);
    }
  }

  /** `GetFilingsForYearQuarter(year, quarter)`. The index page is downloaded without
      the cache, `anchorsOf` stands for the HTML parser, and the master files are
      gathered through the cache. */
  function GetFilingsForYearQuarter(env: Env, anchorsOf: string -> Option<seq<Anchor>>, disk: Disk, year: int, q: int): (g: Gathered)
    ensures Extends(disk, g.disk)
    ensures g.downloads >= 1
    // the index page is fetched directly, so its failure leaves the disk alone
    ensures Download(env, IndexUrl(year, q)).Err? ==> g == Run(Err(IndexFailed(Download(env, IndexUrl(year, q)).error)), disk, 1)
    // the links come from the quarter's own page, so they all carry its marker
    ensures !(g.result.Err? && g.result.error.NoQuarterInLink?)
  {
    var url := IndexUrl(year, q);
    match Download(env, url)
    case Err(e) => Run(Err(IndexFailed(e)), disk, 1)
    case Ok(page) =>
      match anchorsOf(page)
      case None => Run(Err(HtmlUnreadable), disk, 1)
      case Some(anchors) =>
        var links := SelectMasterLinks(url, anchors);
        SelectedLinksHavePaths(year, q, anchors);
        LinksWithPathsFindMarker(env, disk, q, links);
        var g := ResolveFiles(env, disk, q, links);
        Run(g.result, g.disk, g.downloads + 1)
  }
}
