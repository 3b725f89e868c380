/** The pure parts of ImportOAPapersFromPmidSet: reading the PMID list, the
    PMC map file and the PDF location file line by line, and the join that
    counts PMC hits and PDF hits and builds the download locations. */
module OaImport {
  import opened Wrappers
  import opened JavaStrings
  import opened SetFacts

  /** `new Integer(s)`: a partial parse, None where Java throws
      NumberFormatException. Its exact grammar is not part of this model. */
  type IntParser = string -> Option<int>

  const FTP_PREFIX: string := "ftp://ftp.ncbi.nlm.nih.gov/pub/pmc/"

  // -----------------------------------------------------------------------
  // The PMID file
  // -----------------------------------------------------------------------

  /** The PMIDs read, and the index of the line whose parse threw, if any. */
  datatype PmidRead = PmidRead(pmids: set<int>, failedAt: Option<nat>)

  /** One PMID per line, collected into a set; the first unparsable line
      throws out of the reading loop. */
  function ReadPmids(lines: seq<string>, parse: IntParser): (r: PmidRead)
    ensures |r.pmids| <= |lines|
    ensures r.failedAt.None? ==> forall k :: 0 <= k < |lines| ==> parse(lines[k]).Some?
    ensures r.failedAt.Some? ==>
              var n := r.failedAt.value;
              n < |lines| && parse(lines[n]).None? && forall k :: 0 <= k < n ==> parse(lines[k]).Some?
    decreases |lines|
  {
    if |lines| == 0 then PmidRead({}, None)
    else
      match parse(lines[0])
      case None => PmidRead({}, Some(0))
      case Some(p) =>
        var rest := ReadPmids(lines[1..], parse);
        assert forall k :: 1 <= k < |lines| ==> lines[k] == lines[1..][k - 1];
        PmidRead(rest.pmids + {p}, if rest.failedAt.Some? then Some(rest.failedAt.value + 1) else None)
  }

  /** The number of lines read before the loop stopped. */
  function LinesRead(lines: seq<string>, parse: IntParser): (n: nat)
    ensures n <= |lines|
  {
    var r := ReadPmids(lines, parse);
    if r.failedAt.Some? then r.failedAt.value else |lines|
  }

  /** The set read holds exactly the values of the lines read before the
      first unparsable one. */
  lemma {:induction false} ReadPmidsContents(lines: seq<string>, parse: IntParser, p: int)
    ensures p in ReadPmids(lines, parse).pmids <==>
              exists k :: 0 <= k < LinesRead(lines, parse) && parse(lines[k]) == Some(p)
    decreases |lines|
  {
    if |lines| > 0 && parse(lines[0]).Some? {
      var tail := lines[1..];
      ReadPmidsContents(tail, parse, p);
      assert LinesRead(lines, parse) == LinesRead(tail, parse) + 1;
      if p in ReadPmids(lines, parse).pmids && p != parse(lines[0]).value {
        var k :| 0 <= k < LinesRead(tail, parse) && parse(tail[k]) == Some(p);
        assert parse(lines[k + 1]) == Some(p);
      }
      if p == parse(lines[0]).value {
        assert parse(lines[0]) == Some(p);
      }
      if k :| 0 <= k < LinesRead(lines, parse) && parse(lines[k]) == Some(p) {
        if k > 0 {
          assert parse(tail[k - 1]) == Some(p);
        }
      }
    }
  }

  /** Duplicate lines collapse: a PMID listed twice is one element. */
  lemma DuplicatePmidLinesCollapse(lines: seq<string>, parse: IntParser, extra: nat)
    requires extra < |lines|
    requires ReadPmids(lines, parse).failedAt.None?
    ensures ReadPmids(lines + [lines[extra]], parse).pmids == ReadPmids(lines, parse).pmids
  {
    var longer := lines + [lines[extra]];
    assert parse(longer[|lines|]).Some?;
    assert LinesRead(longer, parse) == |longer|;
    forall p
      ensures p in ReadPmids(longer, parse).pmids <==> p in ReadPmids(lines, parse).pmids
    {
      ReadPmidsContents(longer, parse, p);
      ReadPmidsContents(lines, parse, p);
      DuplicateLineSameValues(lines, parse, extra, p);
    }
  }

  lemma DuplicateLineSameValues(lines: seq<string>, parse: IntParser, extra: nat, p: int)
    requires extra < |lines|
    ensures (exists k :: 0 <= k < |lines| + 1 && parse((lines + [lines[extra]])[k]) == Some(p))
        <==> (exists k :: 0 <= k < |lines| && parse(lines[k]) == Some(p))
  {
    var longer := lines + [lines[extra]];
    if k :| 0 <= k < |longer| && parse(longer[k]) == Some(p) {
      if k == |lines| {
        assert parse(lines[extra]) == Some(p);
      } else {
        assert parse(lines[k]) == Some(p);
      }
    }
    if k :| 0 <= k < |lines| && parse(lines[k]) == Some(p) {
      assert parse(longer[k]) == Some(p);
    }
  }

  // -----------------------------------------------------------------------
  // Line-by-line map building shared by the PMC and PDF files
  // -----------------------------------------------------------------------

  /** Folds the lines into a map with `put`, each line adding at most one
      entry: every entry's key is in the map, and every mapping comes from
      some line. */
  function BuildMap<K(==), V>(lines: seq<string>, entry: string -> Option<(K, V)>): (m: map<K, V>)
    ensures forall k :: 0 <= k < |lines| && entry(lines[k]).Some? ==> entry(lines[k]).value.0 in m
    ensures forall key :: key in m ==> exists k :: 0 <= k < |lines| && entry(lines[k]) == Some((key, m[key]))
    decreases |lines|
  {
    if |lines| == 0 then map[]
    else
      var init := lines[..|lines| - 1];
      var prev := BuildMap(init, entry);
      assert forall k :: 0 <= k < |init| ==> init[k] == lines[k];
      match entry(lines[|lines| - 1])
      case None => prev
      case Some(kv) => prev[kv.0 := kv.1]
  }

  /** A later line overwrites an earlier one: the map holds, for each key,
      the value of the last line carrying that key. */
  lemma {:induction false} BuildMapLastWins<K, V>(lines: seq<string>, entry: string -> Option<(K, V)>, k: nat)
    requires k < |lines| && entry(lines[k]).Some?
    requires forall j :: k < j < |lines| ==> entry(lines[j]).None? || entry(lines[j]).value.0 != entry(lines[k]).value.0
    ensures BuildMap(lines, entry)[entry(lines[k]).value.0] == entry(lines[k]).value.1
    decreases |lines|
  {
    if k < |lines| - 1 {
      var init := lines[..|lines| - 1];
      assert forall j :: 0 <= j < |init| ==> init[j] == lines[j];
      BuildMapLastWins(init, entry, k);
    }
  }

  // -----------------------------------------------------------------------
  // The PMC map file
  // -----------------------------------------------------------------------

  /** Field `i` is a "PMC..." field followed by a field that parses as an integer. */
  predicate PmcHit(fields: seq<string>, i: int, parse: IntParser) {
    0 <= i && i + 1 < |fields| && StartsWith(fields[i], "PMC") && parse(fields[i + 1]).Some?
  }

  /** Field `j` is the rightmost hit at or left of field `i`. */
  predicate RightmostHit(fields: seq<string>, j: int, i: int, parse: IntParser) {
    0 <= j <= i && PmcHit(fields, j, parse) && forall k :: j < k <= i ==> !PmcHit(fields, k, parse)
  }

  /** The scan from field `i` leftwards: the index of the first hit met, or
      -1; a "PMC" field that is last, or whose next field does not parse, is
      passed over. */
  function LastHit(fields: seq<string>, i: int, parse: IntParser): (j: int)
    requires -1 <= i < |fields|
    ensures -1 <= j <= i
    ensures j == -1 <==> forall k :: 0 <= k <= i ==> !PmcHit(fields, k, parse)
    ensures j >= 0 ==> RightmostHit(fields, j, i, parse)
    decreases i + 1
  {
    if i < 0 then -1
    else if StartsWith(fields[i], "PMC") && i + 1 < |fields| && parse(fields[i + 1]).Some? then
      assert PmcHit(fields, i, parse);
      i
    else LastHit(fields, i - 1, parse)
  }

  /** `r` is the entry a line with these fields gives: none when no field is
      a hit, otherwise `(pmid, pmcId)` from the rightmost hit. */
  ghost predicate EntryOfFields(fields: seq<string>, parse: IntParser, r: Option<(int, string)>) {
    && (r.None? <==> forall k :: 0 <= k < |fields| ==> !PmcHit(fields, k, parse))
    && (r.Some? ==> exists j :: RightmostHit(fields, j, |fields| - 1, parse)
                                && r.value == (parse(fields[j + 1]).value, fields[j]))
  }

  /** The pmid -> pmcId entry of one PMC map line: the comma-separated fields
      are scanned from the last one down, and the last "PMC..." field followed
      by an integer field gives the entry; a line without one gives none. */
  function PmcEntry(line: string, parse: IntParser): (r: Option<(int, string)>)
    ensures EntryOfFields(Split(line, ','), parse, r)
  {
    FieldsEntry(Split(line, ','), parse)
  }

  function FieldsEntry(fields: seq<string>, parse: IntParser): (r: Option<(int, string)>)
    ensures EntryOfFields(fields, parse, r)
  {
    var j := LastHit(fields, |fields| - 1, parse);
    if j < 0 then None else Some((parse(fields[j + 1]).value, fields[j]))
  }

  /** The PMC map file: the first line holds column headings and is skipped. */
  function ReadPmcMap(lines: seq<string>, parse: IntParser): (pmcids: map<int, string>)
    ensures forall p :: p in pmcids ==> StartsWith(pmcids[p], "PMC")
    ensures forall p :: p in pmcids ==> exists k :: 1 <= k < |lines| && PmcEntry(lines[k], parse) == Some((p, pmcids[p]))
    ensures forall k :: 1 <= k < |lines| && PmcEntry(lines[k], parse).Some? ==> PmcEntry(lines[k], parse).value.0 in pmcids
  {
    if |lines| == 0 then map[]
    else
      var body := lines[1..];
      var m := BuildMap(body, (line: string) => PmcEntry(line, parse));
      assert forall k :: 1 <= k < |lines| ==> lines[k] == body[k - 1];
      forall p | p in m
        ensures exists k :: 1 <= k < |lines| && PmcEntry(lines[k], parse) == Some((p, m[p]))
      {
        var k :| 0 <= k < |body| && PmcEntry(body[k], parse) == Some((p, m[p]));
        assert lines[k + 1] == body[k];
      }
      m
  }

  /** A PMC map line whose fields are `fields` (none holding a comma, the last
      one non-empty) yields the entry of the rightmost hit among them. */
  lemma PmcEntryOfFields(fields: seq<string>, parse: IntParser)
    requires |fields| > 1
    requires forall k :: 0 <= k < |fields| ==> ',' !in fields[k]
    requires fields[|fields| - 1] != ""
    ensures EntryOfFields(fields, parse, PmcEntry(Join(fields, ','), parse))
  {
    JoinedFields(fields, ',');
  }

  // -----------------------------------------------------------------------
  // The PDF location file
  // -----------------------------------------------------------------------

  /** A tab-separated line with exactly three fields maps field 2 (the PMC id)
      to field 0 (the location); any other line is ignored. */
  function LocationEntry(line: string): (r: Option<(string, string)>)
    ensures r.Some? <==> |Split(line, '\t')| == 3
    ensures r.Some? ==> '\t' !in r.value.0 && '\t' !in r.value.1
    ensures r.Some? ==> r.value == (Split(line, '\t')[2], Split(line, '\t')[0])
  {
    var fields := Split(line, '\t');
    if |fields| == 3 then Some((fields[2], fields[0])) else None
  }

  /** The PDF location file, with no header line: pmcId -> location. */
  function ReadPdfLocations(lines: seq<string>): (pdfLocs: map<string, string>)
    ensures forall id :: id in pdfLocs ==> exists k :: 0 <= k < |lines| && LocationEntry(lines[k]) == Some((id, pdfLocs[id]))
    ensures forall k :: 0 <= k < |lines| && |Split(lines[k], '\t')| == 3 ==> Split(lines[k], '\t')[2] in pdfLocs
  {
    BuildMap(lines, LocationEntry)
  }

  /** A line `loc TAB mid TAB id` with a non-empty `id` maps `id` to `loc`. */
  lemma LocationEntryOfFields(loc: string, mid: string, id: string)
    requires '\t' !in loc && '\t' !in mid && '\t' !in id && id != ""
    ensures LocationEntry(loc + "\t" + mid + "\t" + id) == Some((id, loc))
  {
    var all := [loc, mid, id];
    assert Join(all, '\t') == loc + "\t" + mid + "\t" + id by {
      assert Join(all[1..], '\t') == mid + "\t" + Join(all[2..], '\t');
    }
    JoinedFields(all, '\t');
  }

  /** A location line with a trailing tab loses its empty third field and so
      contributes nothing. */
  lemma TrailingEmptyFieldIgnored(loc: string, mid: string)
    requires '\t' !in loc && '\t' !in mid
    ensures LocationEntry(loc + "\t" + mid + "\t").None?
  {
    var line := loc + "\t" + mid + "\t";
    var all := [loc, mid, ""];
    assert Join(all, '\t') == line by {
      assert Join(all[1..], '\t') == mid + "\t" + Join(all[2..], '\t');
    }
    SplitAllOfJoin(all, '\t');
    assert '\t' in line by { assert line[|loc|] == '\t'; }
  }

  // -----------------------------------------------------------------------
  // main: reading and joining
  // -----------------------------------------------------------------------

  datatype ImportInputs = ImportInputs(pmids: set<int>, pmcids: map<int, string>, pdfLocs: map<string, string>)

  /** The three files as read by main. The PMC and PDF files are optional. A
      PMID line that does not parse throws out to the outer handler, so the
      PMC and PDF files are then not read at all, but the PMIDs read so far
      still reach the report. */
  function ReadInputs(pmidLines: seq<string>, pmcMapLines: Option<seq<string>>,
                      pdfLocLines: Option<seq<string>>, parse: IntParser): (r: ImportInputs)
    ensures r.pmids == ReadPmids(pmidLines, parse).pmids
    ensures ReadPmids(pmidLines, parse).failedAt.Some? ==> r.pmcids == map[] && r.pdfLocs == map[]
    ensures pmcMapLines.None? ==> r.pmcids == map[]
    ensures pdfLocLines.None? ==> r.pdfLocs == map[]
    ensures ReadPmids(pmidLines, parse).failedAt.None? && pmcMapLines.Some? ==>
              r.pmcids == ReadPmcMap(pmcMapLines.value, parse)
    ensures ReadPmids(pmidLines, parse).failedAt.None? && pdfLocLines.Some? ==>
              r.pdfLocs == ReadPdfLocations(pdfLocLines.value)
  {
    var read := ReadPmids(pmidLines, parse);
    if read.failedAt.Some? then ImportInputs(read.pmids, map[], map[])
    else
      var pmcids := if pmcMapLines.Some? then ReadPmcMap(pmcMapLines.value, parse) else map[];
      var pdfLocs := if pdfLocLines.Some? then ReadPdfLocations(pdfLocLines.value) else map[];
      ImportInputs(read.pmids, pmcids, pdfLocs)
  }

  /** The PMIDs that have a PMC id. */
  function InPmc(pmids: set<int>, pmcids: map<int, string>): set<int> {
    set p | p in pmids && p in pmcids
  }

  /** The PMIDs whose PMC id has a PDF location. */
  function WithPdf(pmids: set<int>, pmcids: map<int, string>, pdfLocs: map<string, string>): set<int> {
    set p | p in pmids && p in pmcids && pmcids[p] in pdfLocs
  }

  /** A PDF hit is a PMC hit, and a PMC hit is a listed PMID. */
  lemma HitsNested(pmids: set<int>, pmcids: map<int, string>, pdfLocs: map<string, string>)
    ensures |WithPdf(pmids, pmcids, pdfLocs)| <= |InPmc(pmids, pmcids)| <= |pmids|
  {
    SubsetCard(WithPdf(pmids, pmcids, pdfLocs), InPmc(pmids, pmcids));
    SubsetCard(InPmc(pmids, pmcids), pmids);
  }

  /** Adding one PMID to those already counted. */
  lemma HitsStep(done: set<int>, pmid: int, pmcids: map<int, string>, pdfLocs: map<string, string>)
    requires pmid !in done
    ensures InPmc(done + {pmid}, pmcids) == InPmc(done, pmcids) + (if pmid in pmcids then {pmid} else {})
    ensures WithPdf(done + {pmid}, pmcids, pdfLocs) ==
              WithPdf(done, pmcids, pdfLocs) + (if pmid in pmcids && pmcids[pmid] in pdfLocs then {pmid} else {})
  {
  }

  /** The report built so far: the two counters and the FTP locations. */
  datatype Report = Report(pmcCount: nat, pdfCount: nat, ftdLocations: map<int, string>)

  /** `report` is what the loop of main has built after visiting `done`:
      the PMC count is the number of visited PMIDs with a PMC id, the FTP
      locations are keyed by exactly the visited PMIDs whose PMC id has a PDF
      location, the PDF count is their number, and each location is the FTP
      prefix followed by the PDF location. */
  predicate ReportOf(report: Report, done: set<int>, pmcids: map<int, string>, pdfLocs: map<string, string>) {
    && report.pmcCount == |InPmc(done, pmcids)|
    && report.ftdLocations.Keys == WithPdf(done, pmcids, pdfLocs)
    && report.pdfCount == |report.ftdLocations|
    && forall p :: p in report.ftdLocations ==>
         p in pmcids && pmcids[p] in pdfLocs && report.ftdLocations[p] == FTP_PREFIX + pdfLocs[pmcids[p]]
  }

  /** One iteration of the loop of main: a PMID with a PMC id bumps the PMC
      count, and one whose PMC id has a PDF location also bumps the PDF count
      and gets its FTP location. */
  function Visit(report: Report, pmid: int, pmcids: map<int, string>, pdfLocs: map<string, string>): (r: Report)
    ensures report.pmcCount <= r.pmcCount <= report.pmcCount + 1
    ensures r.pmcCount == report.pmcCount + 1 <==> pmid in pmcids
    ensures report.pdfCount <= r.pdfCount <= report.pdfCount + (r.pmcCount - report.pmcCount)
    ensures pmid in pmcids && pmcids[pmid] in pdfLocs ==>
              && r.pdfCount == report.pdfCount + 1
              && pmid in r.ftdLocations
              && r.ftdLocations[pmid] == FTP_PREFIX + pdfLocs[pmcids[pmid]]
    ensures !(pmid in pmcids && pmcids[pmid] in pdfLocs) ==>
              r.pdfCount == report.pdfCount && r.ftdLocations == report.ftdLocations
    ensures forall p :: p != pmid ==>
              && (p in r.ftdLocations <==> p in report.ftdLocations)
              && (p in report.ftdLocations ==> r.ftdLocations[p] == report.ftdLocations[p])
  {
    if pmid !in pmcids then report
    else if pmcids[pmid] !in pdfLocs then report.(pmcCount := report.pmcCount + 1)
    else Report(report.pmcCount + 1, report.pdfCount + 1,
                report.ftdLocations[pmid := FTP_PREFIX + pdfLocs[pmcids[pmid]]])
  }

  /** Visiting one more PMID keeps the report in step with the visited set. */
  lemma VisitKeepsReport(report: Report, pmid: int, done: set<int>, pmcids: map<int, string>, pdfLocs: map<string, string>)
    requires pmid !in done && ReportOf(report, done, pmcids, pdfLocs)
    ensures ReportOf(Visit(report, pmid, pmcids, pdfLocs), done + {pmid}, pmcids, pdfLocs)
  {
    HitsStep(done, pmid, pmcids, pdfLocs);
    if pmid !in pmcids {
      assert Visit(report, pmid, pmcids, pdfLocs) == report;
    } else if pmcids[pmid] !in pdfLocs {
      VisitPmcOnly(report, pmid, done, pmcids, pdfLocs);
    } else {
      VisitWithPdf(report, pmid, done, pmcids, pdfLocs);
    }
  }

  lemma VisitPmcOnly(report: Report, pmid: int, done: set<int>, pmcids: map<int, string>, pdfLocs: map<string, string>)
    requires pmid !in done && ReportOf(report, done, pmcids, pdfLocs)
    requires pmid in pmcids && pmcids[pmid] !in pdfLocs
    requires InPmc(done + {pmid}, pmcids) == InPmc(done, pmcids) + {pmid}
    requires WithPdf(done + {pmid}, pmcids, pdfLocs) == WithPdf(done, pmcids, pdfLocs)
    ensures ReportOf(Visit(report, pmid, pmcids, pdfLocs), done + {pmid}, pmcids, pdfLocs)
  {
    assert pmid !in InPmc(done, pmcids);
  }

  lemma VisitWithPdf(report: Report, pmid: int, done: set<int>, pmcids: map<int, string>, pdfLocs: map<string, string>)
    requires pmid !in done && ReportOf(report, done, pmcids, pdfLocs)
    requires pmid in pmcids && pmcids[pmid] in pdfLocs
    requires InPmc(done + {pmid}, pmcids) == InPmc(done, pmcids) + {pmid}
    requires WithPdf(done + {pmid}, pmcids, pdfLocs) == WithPdf(done, pmcids, pdfLocs) + {pmid}
    ensures ReportOf(Visit(report, pmid, pmcids, pdfLocs), done + {pmid}, pmcids, pdfLocs)
  {
    assert pmid !in InPmc(done, pmcids);
    var r := Visit(report, pmid, pmcids, pdfLocs);
    assert r.ftdLocations == report.ftdLocations[pmid := FTP_PREFIX + pdfLocs[pmcids[pmid]]];
    AddLocation(report.ftdLocations, pmid, pmcids, pdfLocs);
  }

  /** Storing the FTP location of a new PMID whose PMC id has a PDF location. */
  lemma AddLocation(ftd: map<int, string>, pmid: int, pmcids: map<int, string>, pdfLocs: map<string, string>)
    requires pmid !in ftd && pmid in pmcids && pmcids[pmid] in pdfLocs
    requires forall p :: p in ftd ==> p in pmcids && pmcids[p] in pdfLocs && ftd[p] == FTP_PREFIX + pdfLocs[pmcids[p]]
    ensures var ftd' := ftd[pmid := FTP_PREFIX + pdfLocs[pmcids[pmid]]];
      && ftd'.Keys == ftd.Keys + {pmid}
      && |ftd'| == |ftd| + 1
      && forall p :: p in ftd' ==> p in pmcids && pmcids[p] in pdfLocs && ftd'[p] == FTP_PREFIX + pdfLocs[pmcids[p]]
  {
    var ftd' := ftd[pmid := FTP_PREFIX + pdfLocs[pmcids[pmid]]];
    assert ftd'.Keys == ftd.Keys + {pmid};
  }

  /** The report loop of main: over the PMIDs in any order, count those with a
      PMC id and those whose PMC id has a PDF location, and record the FTP
      location of the latter. */
  method JoinLocations(pmids: set<int>, pmcids: map<int, string>, pdfLocs: map<string, string>)
    returns (report: Report)
    ensures ReportOf(report, pmids, pmcids, pdfLocs)
    ensures report.pdfCount <= report.pmcCount <= |pmids|
  {
    report := Report(0, 0, map[]);
    var done: set<int> := {};
    while done != pmids
      invariant done <= pmids
      invariant ReportOf(report, done, pmcids, pdfLocs)
      decreases |pmids - done|
    {
      ghost var some := Pick(pmids - done);
      var pmid :| pmid in pmids - done;
      VisitKeepsReport(report, pmid, done, pmcids, pdfLocs);
      report := Visit(report, pmid, pmcids, pdfLocs);
      done := done + {pmid};
    }
    HitsNested(pmids, pmcids, pdfLocs);
  }

  // -----------------------------------------------------------------------
  // readSetOfStrings
  // -----------------------------------------------------------------------

  /** The set of ':'-separated pieces of `str`: no piece contains ':', every
      non-empty piece is present, and only trailing empty pieces are lost. */
  function ReadSetOfStrings(str: string): (r: set<string>)
    ensures forall s :: s in r ==> ':' !in s
    ensures forall s :: s in r ==> s in SplitAll(str, ':')
    ensures forall s :: s in SplitAll(str, ':') && s != "" ==> s in r
    ensures forall s :: s in r <==> s in Split(str, ':')
  {
    var fields := Split(str, ':');
    assert forall k :: 0 <= k < |fields| ==> fields[k] == SplitAll(str, ':')[k];
    set s | s in fields
  }

  /** Reading back the pieces of a ':'-joined list whose last piece is not
      empty gives exactly the set of those pieces. */
  lemma ReadSetOfStringsOfJoin(pieces: seq<string>)
    requires |pieces| > 0 && pieces[|pieces| - 1] != ""
    requires forall k :: 0 <= k < |pieces| ==> ':' !in pieces[k]
    ensures ReadSetOfStrings(Join(pieces, ':')) == set k | 0 <= k < |pieces| :: pieces[k]
  {
    JoinedFields(pieces, ':');
    var r := ReadSetOfStrings(Join(pieces, ':'));
    forall x | x in r
      ensures exists k :: 0 <= k < |pieces| && pieces[k] == x
    {
      var k :| 0 <= k < |pieces| && pieces[k] == x;
    }
  }
}
