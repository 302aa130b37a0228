/** The EDGAR daily master index and its parser, `parseDailyMasterFile`
    (downloader/main.go:189-224). A master file is a seven-line preamble followed by
    lines `CIK|Company Name|Form Type|Date Filed|File Name`. Each well-shaped line
    becomes one `DailyFilingsRow`; every other line is skipped. */
module MasterIndex {
  import opened Results
  import opened Seqs
  import opened GoStrings

  /** Lines of preamble dropped unconditionally by `rows[7:]`. */
  const HeaderLines: nat := 7
  const Newline: string := "\n"
  const Pipe: string := "|"
  const TxtSuffix: string := ".txt"

  /** One filing listed in a daily index. Every field is kept as text, so a CIK such
      as `0000320193` keeps its leading zeros. */
  datatype DailyFilingsRow = DailyFilingsRow(
    cik: string,
    companyName: string,
    formType: string,
    dateFiled: string,
    fileName: string,
    accessionNumber: string)

  /** The five fields an index line carries, in line order. */
  function Fields(r: DailyFilingsRow): seq<string>
  {
    [r.cik, r.companyName, r.formType, r.dateFiled, r.fileName]
  }

  /** The index line that lists `r`. */
  function RenderLine(r: DailyFilingsRow): string
  {
    Join(Fields(r), Pipe)
  }

  /** A row the parser can produce: no field holds the delimiter, and the accession
      number is the one derived from the file name. */
  predicate WellFormed(r: DailyFilingsRow)
  {
    && (forall i :: 0 <= i < |Fields(r)| ==> '|' !in Fields(r)[i])
    && r.accessionNumber == AccessionNumber(r.fileName)
  }

  /** No field of `r` holds a line break. */
  predicate SingleLine(r: DailyFilingsRow)
  {
    forall i :: 0 <= i < |Fields(r)| ==> '\n' !in Fields(r)[i]
  }

  // ---------------------------------------------------------------------------
  // Accession numbers (downloader/main.go:207-210)

  /** The text of a file name before its first `.txt` (all of it when there is none). */
  function FileStem(fileName: string): (stem: string)
    ensures !Contains(stem, TxtSuffix)
  {
    Split(fileName, TxtSuffix)[0]
  }

  /** The text of a path after its last `/` (all of it when there is none). */
  function LastSegment(path: string): (segment: string)
    ensures '/' !in segment
  {
    var segments := Split(path, "/");
    ContainsChar(segments[|segments| - 1], '/');
    segments[|segments| - 1]
  }

  /** `strings.ReplaceAll(s, "-", "")`: every hyphen deleted. */
  function Dehyphen(s: string): (r: string)
    ensures '-' !in r
  {
    ReplaceAllDeletes(s, '-');
    ReplaceAll(s, "-", "")
  }

  /** Deleting the hyphens keeps everything else, in order. */
  lemma DehyphenFilters(s: string)
    ensures Dehyphen(s) == Filter(s, Other('-'))
  {
    ReplaceAllDeletes(s, '-');
  }

  /** The accession number of a filing: the text of `fileName` before its first
      `.txt`, cut to its last `/`-segment, with every `-` removed. */
  function AccessionNumber(fileName: string): (acc: string)
    ensures '-' !in acc && '/' !in acc
  {
    var segment := LastSegment(FileStem(fileName));
    DehyphenFilters(segment);
    FilterKeepsAll(segment, Other('-'), '/');
    Dehyphen(segment)
  }

  /** Normalising an accession number again changes nothing, provided the first
      normalisation did not leave a `.txt` behind. */
  lemma AccessionIdempotent(fileName: string)
    requires !Contains(AccessionNumber(fileName), TxtSuffix)
    ensures AccessionNumber(AccessionNumber(fileName)) == AccessionNumber(fileName)
  {
    var acc := AccessionNumber(fileName);
    SplitNone(acc, TxtSuffix);
    ContainsChar(acc, '/');
    SplitNone(acc, "/");
    ContainsChar(acc, '-');
    SplitNone(acc, "-");
  }

  /** The text before the first `.txt` of `stem + ".txt"` is `stem`, when `stem` holds no `.txt`. */
  lemma StemBeforeTxt(stem: string)
    requires !Contains(stem, TxtSuffix)
    ensures Split(stem + TxtSuffix, TxtSuffix) == [stem, ""]
  {
    HeadUniqueNoBorder(TxtSuffix);
    SplitCons(stem, TxtSuffix, "");
    assert stem + TxtSuffix + "" == stem + TxtSuffix;
    SplitNone("", TxtSuffix);
  }

  /** Splitting a `/`-joined path gives back its segments. */
  lemma SegmentsOfPath(segments: seq<string>)
    requires |segments| >= 1
    requires forall i :: 0 <= i < |segments| ==> '/' !in segments[i]
    ensures Split(Join(segments, "/"), "/") == segments
  {
    forall i | 0 <= i < |segments|
      ensures !Contains(segments[i], "/")
    {
      ContainsChar(segments[i], '/');
    }
    SplitJoin(segments, "/");
  }

  /** The accession number is read off the stem before `.txt` and that stem's last segment. */
  lemma AccessionFromParts(fileName: string, stem: string, segments: seq<string>)
    requires Split(fileName, TxtSuffix)[0] == stem
    requires Split(stem, "/") == segments
    ensures AccessionNumber(fileName) == Dehyphen(segments[|segments| - 1])
  {
  }

  /** The stem of a file name ends where its first `.txt` starts. */
  lemma StemAt(fileName: string, i: int)
    requires 0 <= i <= |fileName|
    requires i == |fileName| || OccursAt(fileName, TxtSuffix, i)
    requires forall k :: 0 <= k < i ==> !OccursAt(fileName, TxtSuffix, k)
    ensures FileStem(fileName) == fileName[..i]
  {
    SplitHead(fileName, TxtSuffix, i);
  }

  /** The last segment of a path starts just after its last `/`. */
  lemma LastSegmentAt(path: string, j: int)
    requires 0 <= j <= |path| && (j == 0 || path[j - 1] == '/') && '/' !in path[j..]
    ensures LastSegment(path) == path[j..]
  {
    SplitLast(path, '/', j);
  }

  /** The accession number of any file name, read off its characters: take the text
      before the first `.txt` (all of it when there is none), keep what follows its
      last `/` (all of it when there is none), and drop every hyphen. Here `i` is
      where that first `.txt` starts and `j` where that last segment starts. */
  lemma AccessionOfSpan(fileName: string, i: int, j: int)
    requires 0 <= j <= i <= |fileName|
    requires i == |fileName| || OccursAt(fileName, TxtSuffix, i)
    requires forall k :: 0 <= k < i ==> !OccursAt(fileName, TxtSuffix, k)
    requires j == 0 || fileName[j - 1] == '/'
    requires '/' !in fileName[j..i]
    ensures AccessionNumber(fileName) == Filter(fileName[j..i], Other('-'))
  {
    StemAt(fileName, i);
    LastSegmentAt(fileName[..i], j);
    assert fileName[..i][j..] == fileName[j..i];
    DehyphenFilters(fileName[j..i]);
  }

  /** A file name `stem + ".txt"` whose stem holds no `.txt` and no `/` has the
      hyphen-free stem as its accession number. */
  lemma AccessionOfStem(stem: string)
    requires !Contains(stem, TxtSuffix) && '/' !in stem
    ensures AccessionNumber(stem + TxtSuffix) == Dehyphen(stem)
  {
    StemBeforeTxt(stem);
    SegmentsOfPath([stem]);
    assert Join([stem], "/") == stem;
    AccessionFromParts(stem + TxtSuffix, stem, [stem]);
  }

  /** A `/`-joined path whose segments hold no `.` holds no `.txt`. */
  lemma PathHasNoTxt(segments: seq<string>)
    requires forall i :: 0 <= i < |segments| ==> '.' !in segments[i]
    ensures !Contains(Join(segments, "/"), TxtSuffix)
  {
    JoinAvoids(segments, "/", '.');
    HeadAbsent(Join(segments, "/"), TxtSuffix);
  }

  /** A file name `seg/.../seg.txt` whose segments hold no `/` or `.` has the hyphen-free
      last segment as its accession number. */
  lemma AccessionOfSegments(segments: seq<string>)
    requires |segments| >= 1
    requires forall i :: 0 <= i < |segments| ==> '/' !in segments[i] && '.' !in segments[i]
    ensures AccessionNumber(Join(segments, "/") + TxtSuffix) == Dehyphen(segments[|segments| - 1])
  {
    var stem := Join(segments, "/");
    PathHasNoTxt(segments);
    StemBeforeTxt(stem);
    SegmentsOfPath(segments);
    AccessionFromParts(stem + TxtSuffix, stem, segments);
  }

  /** Removing the hyphens from pieces joined by hyphens concatenates the pieces. */
  lemma DehyphenJoin(pieces: seq<string>)
    requires |pieces| >= 1
    requires forall i :: 0 <= i < |pieces| ==> '-' !in pieces[i]
    ensures Dehyphen(Join(pieces, "-")) == Join(pieces, "")
  {
    forall i | 0 <= i < |pieces|
      ensures !Contains(pieces[i], "-")
    {
      ContainsChar(pieces[i], '-');
    }
    SplitJoin(pieces, "-");
  }

  /** Three pieces joined by a separator. */
  lemma JoinThree(a: string, b: string, c: string, sep: string)
    ensures Join([a, b, c], sep) == a + sep + b + sep + c
  {
    assert [a, b, c][1..] == [b, c];
    assert [b, c][1..] == [c];
    assert Join([c], sep) == c;
    assert Join([b, c], sep) == b + sep + c;
  }

  /** Four pieces joined by a separator. */
  lemma JoinFour(a: string, b: string, c: string, d: string, sep: string)
    ensures Join([a, b, c, d], sep) == a + sep + b + sep + c + sep + d
  {
    assert [a, b, c, d][1..] == [b, c, d];
    JoinThree(b, c, d, sep);
  }

  /** The shape EDGAR uses, `edgar/data/<cik>/<filer>-<yy>-<seq>.txt`: the accession
      number is the three numeric groups run together. */
  lemma AccessionOfEdgarPath(d1: string, d2: string, d3: string, p1: string, p2: string, p3: string)
    requires '/' !in d1 && '.' !in d1 && '/' !in d2 && '.' !in d2 && '/' !in d3 && '.' !in d3
    requires '/' !in p1 && '.' !in p1 && '-' !in p1
    requires '/' !in p2 && '.' !in p2 && '-' !in p2
    requires '/' !in p3 && '.' !in p3 && '-' !in p3
    ensures AccessionNumber(d1 + "/" + d2 + "/" + d3 + "/" + (p1 + "-" + p2 + "-" + p3) + TxtSuffix) == p1 + p2 + p3
  {
    var name := p1 + "-" + p2 + "-" + p3;
    DehyphenThree(p1, p2, p3);
    assert '/' !in name && '.' !in name;
    AccessionOfFourSegments(d1, d2, d3, name);
  }

  /** Three hyphen-free pieces joined by hyphens lose just those hyphens. */
  lemma DehyphenThree(p1: string, p2: string, p3: string)
    requires '-' !in p1 && '-' !in p2 && '-' !in p3
    ensures Dehyphen(p1 + "-" + p2 + "-" + p3) == p1 + p2 + p3
  {
    JoinThree(p1, p2, p3, "-");
    JoinThree(p1, p2, p3, "");
    assert p1 + "" + p2 + "" + p3 == p1 + p2 + p3;
    DehyphenJoin([p1, p2, p3]);
  }

  /** A four-segment path ending in `.txt` has the hyphen-free last segment as its
      accession number. */
  lemma AccessionOfFourSegments(d1: string, d2: string, d3: string, name: string)
    requires '/' !in d1 && '.' !in d1 && '/' !in d2 && '.' !in d2 && '/' !in d3 && '.' !in d3
    requires '/' !in name && '.' !in name
    ensures AccessionNumber(d1 + "/" + d2 + "/" + d3 + "/" + name + TxtSuffix) == Dehyphen(name)
  {
    JoinFour(d1, d2, d3, name, "/");
    AccessionOfSegments([d1, d2, d3, name]);
  }


  /** The worked example: `edgar/data/320193/0000320193-22-000050.txt` has accession
      number `000032019322000050`. */
  lemma AccessionExample()
    ensures AccessionNumber("edgar" + "/" + "data" + "/" + "320193" + "/"
                            + ("0000320193" + "-" + "22" + "-" + "000050") + TxtSuffix)
         == "0000320193" + "22" + "000050"
  {
    AccessionOfEdgarPath("edgar", "data", "320193", "0000320193", "22", "000050");
  }

  /** A stem that turns into `.txt` once its hyphen is removed. */
  const HyphenatedStem: string := ".-txt"

  /** The stem `.-txt` holds no `.txt` and no `/`. */
  lemma HyphenatedSuffixStemClean()
    ensures !Contains(HyphenatedStem, TxtSuffix) && '/' !in HyphenatedStem
  {
    var stem := HyphenatedStem;
    forall j | 0 <= j <= |stem| - |TxtSuffix|
      ensures !OccursAt(stem, TxtSuffix, j)
    {
      assert stem[1] != TxtSuffix[1 - j];
    }
  }

  /** Two hyphen-free pieces joined by a hyphen lose just that hyphen. */
  lemma DehyphenPair(a: string, b: string)
    requires '-' !in a && '-' !in b
    ensures Dehyphen(a + "-" + b) == a + b
  {
    DehyphenJoin([a, b]);
    assert [a, b][1..] == [b];
  }

  /** A bare `.txt` has the empty accession number. */
  lemma BareSuffixAccession()
    ensures AccessionNumber(TxtSuffix) == ""
  {
    assert !Contains("", TxtSuffix);
    AccessionOfStem("");
    assert "" + TxtSuffix == TxtSuffix;
    SplitNone("", "-");
  }

  /** Without that proviso normalisation is not idempotent: removing a hyphen can
      create a new `.txt`, which the second pass then cuts off. Here `.-txt.txt`
      normalises to `.txt`, and `.txt` to the empty text. */
  lemma AccessionNotIdempotentInGeneral()
    ensures AccessionNumber(HyphenatedStem + TxtSuffix) == TxtSuffix
    ensures AccessionNumber(AccessionNumber(HyphenatedStem + TxtSuffix)) == ""
  {
    HyphenatedSuffixStemClean();
    assert "." + "-" + "txt" == HyphenatedStem;
    HyphenCanFormSuffix(".", "txt");
    BareSuffixAccession();
  }

  /** Removing the hyphen of a stem `a-b` whose halves spell `.txt` creates the suffix. */
  lemma HyphenCanFormSuffix(a: string, b: string)
    requires a + b == TxtSuffix && '-' !in a && '-' !in b && '/' !in a && '/' !in b
    requires !Contains(a + "-" + b, TxtSuffix)
    ensures AccessionNumber(a + "-" + b + TxtSuffix) == TxtSuffix
  {
    DehyphenPair(a, b);
    AccessionOfStem(a + "-" + b);
  }


  // ---------------------------------------------------------------------------
  // One line (downloader/main.go:197-220)

  /** The row an index line describes, or None when the line is empty or does not
      split on `|` into exactly five parts. */
  function ParseLine(line: string): (row: Option<DailyFilingsRow>)
    ensures row.Some? ==> WellFormed(row.value) && RenderLine(row.value) == line
  {
    if line == "" then None
    else
      var parts := Split(line, Pipe);
      if |parts| != 5 then None
      else
        var r := DailyFilingsRow(parts[0], parts[1], parts[2], parts[3], parts[4], AccessionNumber(parts[4]));
        assert Fields(r) == parts;
        PiecesAvoidPipe(parts);
        Some(r)
  }

  /** Pieces that do not contain `|` hold no `|` character. */
  lemma PiecesAvoidPipe(parts: seq<string>)
    requires forall i :: 0 <= i < |parts| ==> !Contains(parts[i], Pipe)
    ensures forall i :: 0 <= i < |parts| ==> '|' !in parts[i]
  {
    forall i | 0 <= i < |parts|
      ensures '|' !in parts[i]
    {
      ContainsChar(parts[i], '|');
    }
  }

  /** A line yields exactly the rows whose rendering it is: the fields are the line's
      `|`-separated parts verbatim, and the accession number is derived from the last. */
  lemma ParseLineIff(line: string, r: DailyFilingsRow)
    ensures ParseLine(line) == Some(r) <==> WellFormed(r) && RenderLine(r) == line
  {
    if ParseLine(line) == Some(r) {
      ParseLineSound(line);
    }
    if WellFormed(r) && RenderLine(r) == line {
      ParseLineComplete(r);
    }
  }

  /** What a line yields is well formed and renders back to the line. */
  lemma ParseLineSound(line: string)
    requires ParseLine(line).Some?
    ensures WellFormed(ParseLine(line).value) && RenderLine(ParseLine(line).value) == line
  {
  }

  /** The rendering of a well-formed row yields that row. */
  lemma ParseLineComplete(r: DailyFilingsRow)
    requires WellFormed(r)
    ensures ParseLine(RenderLine(r)) == Some(r)
  {
    var fields := Fields(r);
    forall i | 0 <= i < |fields|
      ensures !Contains(fields[i], Pipe)
    {
      ContainsChar(fields[i], '|');
    }
    SplitJoin(fields, Pipe);
    JoinLength(fields, Pipe);
  }

  /** A line yields a row exactly when it holds four `|` characters. */
  lemma ParseLineIffFourPipes(line: string)
    ensures ParseLine(line).Some? <==> multiset(line)['|'] == 4
  {
    SplitCharCount(line, '|');
  }

  /** A line of `|`-free fields yields no row unless there are exactly five of them. */
  lemma WrongFieldCountSkipped(fields: seq<string>)
    requires |fields| >= 1 && |fields| != 5
    requires forall i :: 0 <= i < |fields| ==> '|' !in fields[i]
    ensures ParseLine(Join(fields, Pipe)).None?
  {
    forall i | 0 <= i < |fields|
      ensures !Contains(fields[i], Pipe)
    {
      ContainsChar(fields[i], '|');
    }
    SplitJoin(fields, Pipe);
  }

  /** A line of five `|`-free fields followed by a trailing `|` has five delimiters,
      so it splits into six parts and is skipped. */
  lemma TrailingPipeSkipped(a: string, b: string, c: string, d: string, e: string)
    requires '|' !in a && '|' !in b && '|' !in c && '|' !in d && '|' !in e
    ensures ParseLine(a + "|" + b + "|" + c + "|" + d + "|" + e + "|").None?
  {
    var line := a + "|" + b + "|" + c + "|" + d + "|" + e + "|";
    ParseLineIffFourPipes(line);
    assert multiset(line)['|'] == 5;
  }

  /** Five pieces joined by a separator. */
  lemma JoinFive(a: string, b: string, c: string, d: string, e: string, sep: string)
    ensures Join([a, b, c, d, e], sep) == a + sep + b + sep + c + sep + d + sep + e
  {
    assert [a, b, c, d, e][1..] == [b, c, d, e];
    JoinFour(b, c, d, e, sep);
  }

  /** A line of five `|`-free fields yields the row holding exactly those fields. */
  lemma FiveFieldLine(a: string, b: string, c: string, d: string, e: string)
    requires '|' !in a && '|' !in b && '|' !in c && '|' !in d && '|' !in e
    ensures ParseLine(a + "|" + b + "|" + c + "|" + d + "|" + e)
         == Some(DailyFilingsRow(a, b, c, d, e, AccessionNumber(e)))
  {
    var r := DailyFilingsRow(a, b, c, d, e, AccessionNumber(e));
    JoinFive(a, b, c, d, e, Pipe);
    ParseLineComplete(r);
  }

  // ---------------------------------------------------------------------------
  // Many lines (downloader/main.go:195-223)

  /** The rows of a run of index lines, in line order. */
  function ParseLines(lines: seq<string>): (rows: seq<DailyFilingsRow>)
    ensures |rows| <= |lines|
    ensures forall i :: 0 <= i < |rows| ==> WellFormed(rows[i])
    decreases |lines|
  {
    if |lines| == 0 then []
    else
      match ParseLine(lines[0])
      case Some(r) =>
        ParseLineIff(lines[0], r);
        [r] + ParseLines(lines[1..])
      case None => ParseLines(lines[1..])
  }

  /** Each line is parsed on its own: a line's contribution does not depend on where it stands. */
  lemma {:induction false} ParseLinesConcat(a: seq<string>, b: seq<string>)
    ensures ParseLines(a + b) == ParseLines(a) + ParseLines(b)
    decreases |a|
  {
    if |a| > 0 {
      assert (a + b)[0] == a[0];
      assert (a + b)[1..] == a[1..] + b;
      ParseLinesConcat(a[1..], b);
    } else {
      assert a + b == b;
    }
  }

  /** A single line contributes its row, or nothing. */
  lemma ParseLinesSingle(line: string)
    ensures ParseLines([line]) == (if ParseLine(line).Some? then [ParseLine(line).value] else [])
  {
    assert [line][1..] == [];
  }

  /** `parseDailyMasterFile`: split the file into lines, drop the preamble, parse the rest.
      Go's `rows[7:]` panics on a file of fewer than seven lines, so callers must not
      pass one. */
  function ParseDailyMasterFile(content: string): (rows: seq<DailyFilingsRow>)
    requires |Split(content, Newline)| >= HeaderLines
    ensures |rows| <= |Split(content, Newline)| - HeaderLines
    ensures forall i :: 0 <= i < |rows| ==> WellFormed(rows[i]) && SingleLine(rows[i])
  {
    var lines := Split(content, Newline)[HeaderLines..];
    NoLineHoldsNewline(lines);
    ParseLinesSingleLine(lines);
    ParseLines(lines)
  }

  /** Lines obtained by splitting on line breaks hold none. */
  lemma NoLineHoldsNewline(lines: seq<string>)
    requires forall i :: 0 <= i < |lines| ==> !Contains(lines[i], Newline)
    ensures forall i :: 0 <= i < |lines| ==> '\n' !in lines[i]
  {
    forall i | 0 <= i < |lines|
      ensures '\n' !in lines[i]
    {
      ContainsChar(lines[i], '\n');
    }
  }

  /** A character absent from every piece and from the separator is absent from the join. */
  lemma {:induction false} JoinAvoids(parts: seq<string>, sep: string, c: char)
    requires c !in sep
    ensures c !in Join(parts, sep) <==> forall i :: 0 <= i < |parts| ==> c !in parts[i]
    decreases |parts|
  {
    if |parts| > 1 {
      JoinAvoids(parts[1..], sep, c);
      assert forall i :: 1 <= i < |parts| ==> parts[i] == parts[1..][i - 1];
    }
  }

  /** Rows parsed from lines without line breaks have no line breaks in their fields. */
  lemma {:induction false} ParseLinesSingleLine(lines: seq<string>)
    requires forall i :: 0 <= i < |lines| ==> '\n' !in lines[i]
    ensures forall i :: 0 <= i < |ParseLines(lines)| ==> SingleLine(ParseLines(lines)[i])
    decreases |lines|
  {
    if |lines| > 0 {
      ParseLinesSingleLine(lines[1..]);
      match ParseLine(lines[0])
      case Some(r) =>
        ParseLineIff(lines[0], r);
        JoinAvoids(Fields(r), Pipe, '\n');
      case None =>
    }
  }

  /** The preamble is discarded whatever it says: only the lines after the seventh
      line break are parsed, each on its own. */
  lemma HeaderIgnored(header: seq<string>, body: string)
    requires |header| == HeaderLines
    requires forall i :: 0 <= i < |header| ==> '\n' !in header[i]
    ensures |Split(Join(header, Newline) + Newline + body, Newline)| >= HeaderLines
    ensures ParseDailyMasterFile(Join(header, Newline) + Newline + body) == ParseLines(Split(body, Newline))
  {
    forall i | 0 <= i < |header|
      ensures !Contains(header[i], Newline)
    {
      ContainsChar(header[i], '\n');
    }
    SplitJoin(header, Newline);
    SplitAround(Join(header, Newline), Newline, body);
    assert (header + Split(body, Newline))[HeaderLines..] == Split(body, Newline);
  }

  /** The index lines that list `rows`, one per row, in order. */
  function RenderLines(rows: seq<DailyFilingsRow>): (lines: seq<string>)
    ensures |lines| == |rows|
    ensures forall i :: 0 <= i < |rows| ==> lines[i] == RenderLine(rows[i])
    decreases |rows|
  {
    if |rows| == 0 then [] else [RenderLine(rows[0])] + RenderLines(rows[1..])
  }

  /** The master file that lists `rows` after the preamble `header`. */
  function Render(header: seq<string>, rows: seq<DailyFilingsRow>): string
  {
    Join(header + RenderLines(rows), Newline)
  }

  /** Round trip: parsing a rendered master file gives back exactly its rows, in order. */
  lemma RenderParse(header: seq<string>, rows: seq<DailyFilingsRow>)
    requires |header| == HeaderLines
    requires forall i :: 0 <= i < |header| ==> '\n' !in header[i]
    requires forall i :: 0 <= i < |rows| ==> WellFormed(rows[i]) && SingleLine(rows[i])
    ensures |Split(Render(header, rows), Newline)| >= HeaderLines
    ensures ParseDailyMasterFile(Render(header, rows)) == rows
  {
    var lines := RenderLines(rows);
    var all := header + lines;
    forall i | 0 <= i < |all|
      ensures !Contains(all[i], Newline)
    {
      if i >= |header| {
        JoinAvoids(Fields(rows[i - |header|]), Pipe, '\n');
      }
      ContainsChar(all[i], '\n');
    }
    SplitJoin(all, Newline);
    assert all[HeaderLines..] == lines;
    RenderedLinesParse(rows);
  }

  /** A line that yields a row puts that row in front of the rows of the lines after it. */
  lemma ParseLinesCons(line: string, rest: seq<string>, r: DailyFilingsRow)
    requires ParseLine(line) == Some(r)
    ensures ParseLines([line] + rest) == [r] + ParseLines(rest)
  {
    assert ([line] + rest)[1..] == rest;
  }

  /** Parsing the rendered lines of well-formed rows gives the rows back. */
  lemma {:induction false} RenderedLinesParse(rows: seq<DailyFilingsRow>)
    requires forall i :: 0 <= i < |rows| ==> WellFormed(rows[i])
    ensures ParseLines(RenderLines(rows)) == rows
    decreases |rows|
  {
    if |rows| > 0 {
      var line := RenderLine(rows[0]);
      assert RenderLines(rows) == [line] + RenderLines(rows[1..]);
      ParseLineComplete(rows[0]);
      ParseLinesCons(line, RenderLines(rows[1..]), rows[0]);
      RenderedLinesParse(rows[1..]);
      assert rows == [rows[0]] + rows[1..];
    }
  }
}
