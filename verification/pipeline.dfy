/** `main` (downloader/main.go:40-123): gather the filings of the second quarter of
    2022, keep the form 4 and 4/A filings, and for each one read its document through
    the disk cache under `form4_xml/`, isolate the XML payload and look for the
    issuer's name. The XML parser and the XPath query are a fixed function from the
    payload to what they report. */
module Pipeline {
  import opened Results
  import opened Seqs
  import opened GoStrings
  import opened MasterIndex
  import opened FormFilter
  import opened Cache
  import opened Loops
  import opened XmlRegion
  import opened Period

  /** The period `main` asks for. */
  const Year: int := 2022
  const Quarter: int := 2

  /** What `xmlquery.Parse` followed by the issuer-name query reports for a payload. */
  datatype XmlOutcome = ParseFailure | QueryFailure | NoIssuer | Issuer(name: string)

  /** What became of one filing that did not stop the program. */
  datatype Disposition =
    | NoXmlRegion            // the payload markers are missing or repeated: skipped
    | QueryFailed            // the query reported an error: skipped
    | IssuerMissing          // the query found no issuer name: skipped
    | Parsed(issuer: string) // the issuer's name was found

  /** Why the program stopped with `log.Fatal`. */
  datatype Fatal =
    | FilingsFailed(cause: PeriodError)  // the quarter's filings could not be gathered
    | FilingFailed(failure: CacheError)  // a filing could not be downloaded, written or read
    | XmlUnreadable(path: string)        // a payload could not be parsed as XML

  /** The dispositions so far, or why the program stopped; the disk after; the downloads made. */
  type Processed = Run<Disposition, Fatal>

  /** Where a filing's document is cached. */
  function FilingPath(r: DailyFilingsRow): string
  {
    Form4Path(r.cik, r.accessionNumber)
  }

  /** Where a filing's document is downloaded from: the index's file name under the archives. */
  function FilingUrl(r: DailyFilingsRow): (u: string)
    ensures HasPrefix(u, Host + Archives) && u[|Host + Archives|..] == r.fileName
  {
    Host + Archives + r.fileName
  }

  /** What the program makes of a filing's document (downloader/main.go:91-120): nothing
      when the XML cannot be parsed, which stops the program. */
  function Dispose(xml: string -> XmlOutcome, content: string): (d: Option<Disposition>)
    ensures d == Some(NoXmlRegion) <==> Isolate(content).None?
    ensures d.None? <==> Isolate(content).Some? && xml(Isolate(content).value) == ParseFailure
    ensures d == Some(QueryFailed) <==> Isolate(content).Some? && xml(Isolate(content).value) == QueryFailure
    ensures d == Some(IssuerMissing) <==> Isolate(content).Some? && xml(Isolate(content).value) == NoIssuer
    ensures d.Some? && d.value.Parsed? <==> Isolate(content).Some? && xml(Isolate(content).value).Issuer?
    ensures d.Some? && d.value.Parsed? ==> d.value.issuer == xml(Isolate(content).value).name
  {
    match Isolate(content)
    case None => Some(NoXmlRegion)
    case Some(payload) =>
      match xml(payload)
      case ParseFailure => None
      case QueryFailure => Some(QueryFailed)
      case NoIssuer => Some(IssuerMissing)
      case Issuer(name) => Some(Parsed(name))
  }

  /** One pass of the loop over filings (downloader/main.go:59-120). */
  function OneFiling(env: Env, xml: string -> XmlOutcome, disk: Disk, r: DailyFilingsRow): (p: Processed)
    ensures Extends(disk, p.disk) && p.downloads <= 1
  {
    var path := FilingPath(r);
    var s := ReadThrough(env, disk, path, FilingUrl(r));
    match s.result
    case Err(e) => Run(Err(FilingFailed(e)), s.disk, s.downloads)
    case Ok(content) =>
      match Dispose(xml, content)
      case None => Run(Err(XmlUnreadable(path)), s.disk, s.downloads)
      case Some(d) => Run(Ok([d]), s.disk, s.downloads)
  }

  /** A pass that succeeds is a successful cache lookup of the filing's path, and its one
      disposition is decided by the document that lookup leaves on disk. */
  lemma OneFilingDecided(env: Env, xml: string -> XmlOutcome, disk: Disk, r: DailyFilingsRow)
    requires OneFiling(env, xml, disk, r).result.Ok?
    ensures var p := OneFiling(env, xml, disk, r);
            var s := ReadThrough(env, disk, FilingPath(r), FilingUrl(r));
            && s.result.Ok? && s.disk == p.disk && s.downloads == p.downloads
            && FilingPath(r) in p.disk && |p.result.value| == 1
            && Dispose(xml, p.disk[FilingPath(r)]) == Some(p.result.value[0])
  {
  }

  /** The per-filing step of the loop. */
  function FilingStep(env: Env, xml: string -> XmlOutcome): (Disk, DailyFilingsRow) -> Processed
  {
    (d, r) => OneFiling(env, xml, d, r)
  }

  /** The per-filing step keeps what is stored, is a cache lookup, and is decided by
      the cached document. */
  lemma FilingStepFacts(env: Env, xml: string -> XmlOutcome)
    ensures KeepsStored(FilingStep(env, xml))
    ensures IsLookup(FilingStep(env, xml), env, FilingPath, FilingUrl)
    ensures Decides(FilingStep(env, xml), FilingPath, c => Dispose(xml, c))
  {
    var step := FilingStep(env, xml);
    forall d: Disk, r: DailyFilingsRow | step(d, r).result.Ok?
      ensures var s := ReadThrough(env, d, FilingPath(r), FilingUrl(r));
              s.result.Ok? && s.disk == step(d, r).disk && s.downloads == step(d, r).downloads
      ensures FilingPath(r) in step(d, r).disk && |step(d, r).result.value| == 1
      ensures (c => Dispose(xml, c))(step(d, r).disk[FilingPath(r)]) == Some(step(d, r).result.value[0])
    {
      assert step(d, r) == OneFiling(env, xml, d, r);
      OneFilingDecided(env, xml, d, r);
    }
  }

  /** The loop over filings (downloader/main.go:59-120). */
  function ProcessFilings(env: Env, xml: string -> XmlOutcome, disk: Disk, filings: seq<DailyFilingsRow>): (p: Processed)
    ensures Extends(disk, p.disk)
  {
    FilingStepFacts(env, xml);
    LoopExtends(FilingStep(env, xml), disk, filings);
    Loop(FilingStep(env, xml), disk, filings)
  }

  /** A loop that finishes gives every filing a disposition, in order, decided by the
      document cached under the filing's path. */
  lemma ProcessFilingsDecided(env: Env, xml: string -> XmlOutcome, disk: Disk, filings: seq<DailyFilingsRow>)
    requires ProcessFilings(env, xml, disk, filings).result.Ok?
    ensures var p := ProcessFilings(env, xml, disk, filings);
            && |p.result.value| == |filings|
            && forall i :: 0 <= i < |filings| ==>
                 FilingPath(filings[i]) in p.disk && Dispose(xml, p.disk[FilingPath(filings[i])]) == Some(p.result.value[i])
  {
    FilingStepFacts(env, xml);
    LoopDecided(FilingStep(env, xml), FilingPath, c => Dispose(xml, c), disk, filings);
  }

  /** A loop that finishes downloads each missing document once and no other: the
      downloads are the distinct paths of the filings that were not on disk. */
  lemma ProcessFilingsDownloads(env: Env, xml: string -> XmlOutcome, disk: Disk, filings: seq<DailyFilingsRow>)
    requires ProcessFilings(env, xml, disk, filings).result.Ok?
    ensures ProcessFilings(env, xml, disk, filings).downloads
              == |PathsOf(Requests(FilingPath, FilingUrl, filings)) - disk.Keys|
  {
    FilingStepFacts(env, xml);
    LoopDownloadsMissing(FilingStep(env, xml), env, FilingPath, FilingUrl, disk, filings);
  }

  /** Filings are handled in order: handling two runs of filings is handling the first
      and then, on the disk it left, the second; a fatal error in the first ends
      everything. */
  lemma ProcessFilingsAppend(env: Env, xml: string -> XmlOutcome, disk: Disk, a: seq<DailyFilingsRow>, b: seq<DailyFilingsRow>)
    ensures var first := ProcessFilings(env, xml, disk, a);
            ProcessFilings(env, xml, disk, a + b) == Then(first, ProcessFilings(env, xml, first.disk, b))
  {
    LoopAppend(FilingStep(env, xml), disk, a, b);
  }

  /** `main` for a given period: gather its filings, keep forms 4 and 4/A, and handle each. */
  function RunPeriod(env: Env, anchorsOf: string -> Option<seq<Anchor>>, xml: string -> XmlOutcome, disk: Disk, year: int, q: int): (p: Processed)
    ensures Extends(disk, p.disk)
    // the index page is always fetched
    ensures p.downloads >= 1
    // a failure to gather the filings stops the program before any filing is handled
    ensures GetFilingsForYearQuarter(env, anchorsOf, disk, year, q).result.Err? ==>
              p.result == Err(FilingsFailed(GetFilingsForYearQuarter(env, anchorsOf, disk, year, q).result.error))
  {
    var g := GetFilingsForYearQuarter(env, anchorsOf, disk, year, q);
    if g.result.Err? then Run(Err(FilingsFailed(g.result.error)), g.disk, g.downloads)
    else
      var p := ProcessFilings(env, xml, g.disk, FilterForm4(g.result.value));
      Run(p.result, p.disk, g.downloads + p.downloads)
  }

  /** `main` itself: the second quarter of 2022. */
  function RunDownloader(env: Env, anchorsOf: string -> Option<seq<Anchor>>, xml: string -> XmlOutcome, disk: Disk): (p: Processed)
    ensures Extends(disk, p.disk)
    ensures p.downloads >= 1
    ensures GetFilingsForYearQuarter(env, anchorsOf, disk, Year, Quarter).result.Err? ==>
              p.result == Err(FilingsFailed(GetFilingsForYearQuarter(env, anchorsOf, disk, Year, Quarter).result.error))
  {
    RunPeriod(env, anchorsOf, xml, disk, Year, Quarter)
  }

  /** A run that finishes gives exactly one disposition to each form 4 or 4/A filing
      of the period, in index order, and handles no other filing. */
  lemma RunPeriodCoversForm4(env: Env, anchorsOf: string -> Option<seq<Anchor>>, xml: string -> XmlOutcome, disk: Disk, year: int, q: int)
    requires RunPeriod(env, anchorsOf, xml, disk, year, q).result.Ok?
    ensures var g := GetFilingsForYearQuarter(env, anchorsOf, disk, year, q);
            var p := RunPeriod(env, anchorsOf, xml, disk, year, q);
            && g.result.Ok?
            && |p.result.value| == |FilterForm4(g.result.value)|
            && forall i :: 0 <= i < |p.result.value| ==>
                 var r := FilterForm4(g.result.value)[i];
                 IsForm4(r) && FilingPath(r) in p.disk && Dispose(xml, p.disk[FilingPath(r)]) == Some(p.result.value[i])
  {
    var g := GetFilingsForYearQuarter(env, anchorsOf, disk, year, q);
    ProcessFilingsDecided(env, xml, g.disk, FilterForm4(g.result.value));
  }
}
