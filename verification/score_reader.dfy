/** TriageScoreCollectionReader as a state machine: the ResultSet is the row
    sequence plus a cursor position, and the reader keeps the `eof` flag and a
    one-item lookahead `currentAs`, exactly as the Java fields do. The methods
    are proved to hand out `Aggregation.Emitted(rows, skipUnknowns)`. */
module ScoreReader {
  import opened Wrappers
  import opened Aggregation

  /** `pos` is the index of the row the ResultSet is positioned on; `eof`
      is the negation of the last `rs.next()`. */
  datatype ReaderState = ReaderState(
    rows: seq<Row>,
    pos: nat,
    eof: bool,
    currentAs: Option<AggregatedScore>,
    skipUnknowns: bool)

  predicate CursorValid(s: ReaderState) {
    s.pos <= |s.rows| && (s.eof <==> s.pos == |s.rows|)
  }

  /** The items the cursor has not yet produced. */
  function Pending(s: ReaderState): seq<AggregatedScore>
    requires CursorValid(s)
  {
    Keep(AggregateFrom(s.rows, s.pos), s.skipUnknowns)
  }

  function Buffered(s: ReaderState): seq<AggregatedScore> {
    if s.currentAs.Some? then [s.currentAs.value] else []
  }

  /** The items the reader will still hand out: the lookahead, then the rest. */
  function Remaining(s: ReaderState): seq<AggregatedScore>
    requires CursorValid(s)
  {
    Buffered(s) + Pending(s)
  }

  /** Between calls: an empty lookahead means the cursor is exhausted. */
  predicate Ready(s: ReaderState) {
    CursorValid(s) && (s.currentAs.None? ==> s.eof)
  }

  /** computeAggregatedScore: null once `eof` is set; otherwise the item of the
      run at the cursor, leaving the cursor on the first row of the next run. */
  method ComputeAggregatedScore(s: ReaderState) returns (s': ReaderState, r: Option<AggregatedScore>)
    requires CursorValid(s)
    ensures CursorValid(s')
    ensures s'.rows == s.rows && s'.skipUnknowns == s.skipUnknowns && s'.currentAs == s.currentAs
    ensures s.eof ==> r.None? && s' == s
    ensures !s.eof ==> r.Some? && s.pos < s'.pos
    ensures !s.eof ==> (forall k :: s.pos <= k < s'.pos ==> s.rows[k].vpdmfId == s.rows[s.pos].vpdmfId)
                       && (s'.pos == |s.rows| || s.rows[s'.pos].vpdmfId != s.rows[s.pos].vpdmfId)
    ensures !s.eof ==> r.value.vpdmfId == s.rows[s.pos].vpdmfId && r.value.text == s.rows[s.pos].text
                       && r.value.code == AggregatedCode(s.rows[s.pos..s'.pos])
    ensures AggregateFrom(s.rows, s.pos) ==
              (if r.Some? then [r.value] else []) + AggregateFrom(s'.rows, s'.pos)
  {
    if s.eof {
      return s, None;
    }
    var rows := s.rows;
    var start := s.pos;
    var code, pos, eof := FoldRun(rows, start);
    var agg := AggregatedScore(rows[start].vpdmfId, code, rows[start].text);
    AggregateFromRun(rows, start, pos);
    assert rows[start..pos][1..] == rows[start + 1..pos];
    s' := s.(pos := pos, eof := eof);
    r := Some(agg);
  }

  /** The loop of computeAggregatedScore: from the row after `start`, fold the
      codes of the rows that share `rows[start]`'s id, stopping on the first
      row with another id or at the end. */
  method FoldRun(rows: seq<Row>, start: nat) returns (code: Code, pos: nat, eof: bool)
    requires start < |rows|
    ensures start < pos <= |rows| && (eof <==> pos == |rows|)
    ensures forall k :: start <= k < pos ==> rows[k].vpdmfId == rows[start].vpdmfId
    ensures pos == |rows| || rows[pos].vpdmfId != rows[start].vpdmfId
    ensures code == FoldCodes(rows[start].inOutCode, rows[start + 1..pos])
  {
    code := rows[start].inOutCode;
    pos := start + 1;
    eof := pos == |rows|;  // eof = !rs.next()
    while !eof && rows[pos].vpdmfId == rows[start].vpdmfId
      invariant start < pos <= |rows|
      invariant eof <==> pos == |rows|
      invariant forall k :: start <= k < pos ==> rows[k].vpdmfId == rows[start].vpdmfId
      invariant code == FoldCodes(rows[start].inOutCode, rows[start + 1..pos])
      decreases |rows| - pos
    {
      var c := rows[pos].inOutCode;
      if c == IN {
        code := c;
      } else if c == OUT && code != IN {
        code := c;
      }
      FoldCodesExtend(rows[start].inOutCode, rows, start, pos);
      pos := pos + 1;
      eof := pos == |rows|;
    }
  }

  /** moveNext: sets the lookahead to the next item, and with skipUnknowns
      keeps computing until an "in" or "out" item or the end. */
  method MoveNext(s: ReaderState) returns (s': ReaderState)
    requires CursorValid(s)
    ensures Ready(s')
    ensures s'.rows == s.rows && s'.skipUnknowns == s.skipUnknowns
    ensures Remaining(s') == Pending(s)
  {
    var t, r := ComputeAggregatedScore(s);
    if s.skipUnknowns {
      while r.Some? && !Decided(r.value)
        invariant CursorValid(t) && t.rows == s.rows && t.skipUnknowns == s.skipUnknowns
        invariant r.None? ==> t.eof
        invariant Pending(s) == Keep((if r.Some? then [r.value] else []) + AggregateFrom(t.rows, t.pos), true)
        decreases |t.rows| - t.pos + (if r.Some? then 1 else 0)
      {
        assert ([r.value] + AggregateFrom(t.rows, t.pos))[1..] == AggregateFrom(t.rows, t.pos);
        t, r := ComputeAggregatedScore(t);
      }
      if r.Some? {
        assert ([r.value] + AggregateFrom(t.rows, t.pos))[1..] == AggregateFrom(t.rows, t.pos);
      }
    }
    s' := t.(currentAs := r);
  }

  /** initialize: position the cursor on the first row, then prime the lookahead. */
  method Initialize(rows: seq<Row>, skipUnknowns: bool) returns (s: ReaderState)
    ensures Ready(s) && s.rows == rows && s.skipUnknowns == skipUnknowns
    ensures Remaining(s) == Emitted(rows, skipUnknowns)
  {
    var s0 := ReaderState(rows, 0, |rows| == 0, None, skipUnknowns);  // eof = !rs.next()
    s := MoveNext(s0);
  }

  /** hasNext: false exactly when nothing is left to hand out. */
  function HasNext(s: ReaderState): (b: bool)
    requires Ready(s)
    ensures b <==> Remaining(s) != []
  {
    s.currentAs.Some?
  }

  /** What getNext puts into the CAS: the document text (NULL becomes ""),
      the citation id and the aggregated code. */
  datatype Document = Document(text: string, vpdmfId: int, inOutCode: Code)

  function ToDocument(item: AggregatedScore): Document {
    Document(if item.text.None? then "" else item.text.value, item.vpdmfId, item.code)
  }

  /** getNext: hands out the lookahead item and advances. */
  method GetNext(s: ReaderState) returns (s': ReaderState, doc: Document)
    requires Ready(s) && HasNext(s)
    ensures Ready(s') && s'.rows == s.rows && s'.skipUnknowns == s.skipUnknowns
    ensures Remaining(s) == [s.currentAs.value] + Remaining(s')
    ensures doc == ToDocument(Remaining(s)[0])
    ensures doc.vpdmfId == Remaining(s)[0].vpdmfId && doc.inOutCode == Remaining(s)[0].code
    ensures Remaining(s)[0].text.None? ==> doc.text == ""
    ensures Remaining(s)[0].text.Some? ==> doc.text == Remaining(s)[0].text.value
  {
    var item := s.currentAs.value;
    doc := ToDocument(item);
    s' := MoveNext(s);
  }

  /** One turn of a consumer loop: the document handed out is that of the
      first remaining item, which moves to the items already given. */
  method ReadOne(s: ReaderState) returns (s': ReaderState, doc: Document)
    requires Ready(s) && HasNext(s)
    ensures Ready(s') && s'.rows == s.rows && s'.skipUnknowns == s.skipUnknowns
    ensures doc == ToDocument(Remaining(s)[0])
    ensures Remaining(s') == Remaining(s)[1..]
  {
    s', doc := GetNext(s);
  }

  /** A consumer loop `while (cr.hasNext()) cr.getNext(cas)`: it sees the
      documents of exactly the items the reader still had to hand out. */
  method Drain(s0: ReaderState) returns (docs: seq<Document>)
    requires Ready(s0)
    ensures |docs| == |Remaining(s0)|
    ensures forall k :: 0 <= k < |docs| ==> docs[k] == ToDocument(Remaining(s0)[k])
  {
    var s := s0;
    docs := [];
    ghost var given: seq<AggregatedScore> := [];
    while HasNext(s)
      invariant Ready(s) && s.rows == s0.rows && s.skipUnknowns == s0.skipUnknowns
      invariant given + Remaining(s) == Remaining(s0)
      invariant |docs| == |given|
      invariant forall k :: 0 <= k < |docs| ==> docs[k] == ToDocument(given[k])
      decreases |Remaining(s)|
    {
      ghost var before := Remaining(s);
      var doc;
      s, doc := ReadOne(s);
      AppendDocument(docs, given, doc, before[0]);
      MoveHead(given, before);
      given, docs := given + [before[0]], docs + [doc];
    }
  }

  lemma MoveHead(given: seq<AggregatedScore>, rest: seq<AggregatedScore>)
    requires |rest| > 0
    ensures (given + [rest[0]]) + rest[1..] == given + rest
  {
    assert rest == [rest[0]] + rest[1..];
  }

  lemma AppendDocument(docs: seq<Document>, given: seq<AggregatedScore>, doc: Document, item: AggregatedScore)
    requires |docs| == |given| && forall k :: 0 <= k < |docs| ==> docs[k] == ToDocument(given[k])
    requires doc == ToDocument(item)
    ensures |docs + [doc]| == |given + [item]|
    ensures forall k :: 0 <= k < |docs + [doc]| ==> (docs + [doc])[k] == ToDocument((given + [item])[k])
  {
  }

  /** The consumer loop over a freshly initialized reader sees exactly the
      documents of the functional model, in order. */
  method ReadAll(rows: seq<Row>, skipUnknowns: bool) returns (docs: seq<Document>)
    ensures |docs| == |Emitted(rows, skipUnknowns)|
    ensures forall k :: 0 <= k < |docs| ==> docs[k] == ToDocument(Emitted(rows, skipUnknowns)[k])
  {
    var s := Initialize(rows, skipUnknowns);
    docs := Drain(s);
  }

  // -----------------------------------------------------------------------
  // The score query's triage-corpus restriction
  // -----------------------------------------------------------------------

  /** A score fact behind the query: one TriageScore row joined with its
      citation's full text and the names of its two corpora. */
  datatype ScoreFact = ScoreFact(
    citationId: int,
    targetCorpus: string,
    triageCorpus: string,
    inOutCode: Code,
    text: Option<string>)

  /** The `triageCorpus_id IN (...)` condition is added only for a non-null,
      non-empty triage corpus name. */
  predicate FiltersOnTriageCorpus(triageCorpusName: Option<string>) {
    triageCorpusName.Some? && |triageCorpusName.value| > 0
  }

  predicate Selected(f: ScoreFact, targetCorpusName: string, triageCorpusName: Option<string>) {
    && f.targetCorpus == targetCorpusName
    && (FiltersOnTriageCorpus(triageCorpusName) ==> f.triageCorpus == triageCorpusName.value)
  }

  function RowOf(f: ScoreFact): Row {
    Row(f.citationId, f.inOutCode, f.text)
  }

  /** Some score of `target` for some triage corpus projects onto `r`. */
  ghost predicate ScoredFor(facts: seq<ScoreFact>, r: Row, target: string) {
    exists f :: f in facts && f.targetCorpus == target && RowOf(f) == r
  }

  /** Some score of `target` within the triage corpus `triage` projects onto `r`. */
  ghost predicate ScoredForIn(facts: seq<ScoreFact>, r: Row, target: string, triage: string) {
    exists f :: f in facts && f.targetCorpus == target && f.triageCorpus == triage && RowOf(f) == r
  }

  /** `SELECT DISTINCT text, inOutCode, vpdmfId`: the set of rows the query
      returns, before the ORDER BY arranges them into a sequence. */
  function SelectedRows(facts: seq<ScoreFact>, targetCorpusName: string, triageCorpusName: Option<string>): (rows: set<Row>)
    ensures triageCorpusName.None? || triageCorpusName == Some("") ==>
              forall r :: r in rows <==> ScoredFor(facts, r, targetCorpusName)
    ensures triageCorpusName.Some? && triageCorpusName.value != "" ==>
              forall r :: r in rows <==> ScoredForIn(facts, r, targetCorpusName, triageCorpusName.value)
  {
    set f | f in facts && Selected(f, targetCorpusName, triageCorpusName) :: RowOf(f)
  }

  /** A null and an empty triage corpus name both read every triage corpus. */
  lemma EmptyTriageNameReadsAllCorpora(facts: seq<ScoreFact>, targetCorpusName: string)
    ensures SelectedRows(facts, targetCorpusName, Some("")) == SelectedRows(facts, targetCorpusName, None)
    ensures forall f :: f in facts && f.targetCorpus == targetCorpusName ==> RowOf(f) in SelectedRows(facts, targetCorpusName, None)
  {
  }

  /** Naming a triage corpus only narrows the rows, to that corpus's scores. */
  lemma TriageNameNarrows(facts: seq<ScoreFact>, targetCorpusName: string, name: string)
    requires |name| > 0
    ensures SelectedRows(facts, targetCorpusName, Some(name)) <= SelectedRows(facts, targetCorpusName, None)
    ensures forall r :: r in SelectedRows(facts, targetCorpusName, Some(name)) ==>
              exists f :: f in facts && f.triageCorpus == name && f.targetCorpus == targetCorpusName && RowOf(f) == r
  {
  }
}
