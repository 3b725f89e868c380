/** The functional meaning of TriageScoreCollectionReader: the score rows of a
    target corpus, ordered by citation id, are cut into maximal runs of equal
    `vpdmfId`, each run is collapsed into one aggregated score under the
    precedence "in" > "out" > anything else, and with `skipUnknowns` only the
    aggregated scores whose code is "in" or "out" are kept. */
module Aggregation {
  import opened Wrappers

  /** The `inOutCode` column; None is SQL NULL. */
  type Code = Option<string>

  const IN: Code := Some("in")
  const OUT: Code := Some("out")
  const UNKNOWN: Code := Some("unknown")

  /** One row of the score query: `(vpdmfId, inOutCode, text)`; `text` may be NULL. */
  datatype Row = Row(vpdmfId: int, inOutCode: Code, text: Option<string>)

  /** One item handed to the caller: a citation with its aggregated code. */
  datatype AggregatedScore = AggregatedScore(vpdmfId: int, code: Code, text: Option<string>)

  // ---------------------------------------------------------------------
  // Precedence fold
  // ---------------------------------------------------------------------

  /** One step of the fold: a row coded "in" always wins, a row coded "out"
      wins unless the aggregate is already "in", any other code never wins. */
  function Merge(acc: Code, code: Code): (r: Code)
    ensures r == acc || r == code
    ensures r == IN <==> acc == IN || code == IN
    ensures r == OUT <==> acc != IN && code != IN && (acc == OUT || code == OUT)
  {
    if code == IN then code
    else if code == OUT && acc != IN then code
    else acc
  }

  /** Left fold of `Merge` over the codes of `rows`, starting from `acc`. */
  function FoldCodes(acc: Code, rows: seq<Row>): Code
    decreases |rows|
  {
    if |rows| == 0 then acc
    else Merge(FoldCodes(acc, rows[..|rows| - 1]), rows[|rows| - 1].inOutCode)
  }

  /** The code of a run: the first row's code folded with the others'. */
  function AggregatedCode(run: seq<Row>): Code
    requires |run| > 0
  {
    FoldCodes(run[0].inOutCode, run[1..])
  }

  predicate HasCode(rows: seq<Row>, c: Code) {
    exists r :: r in rows && r.inOutCode == c
  }

  lemma {:induction false} FoldCodesPrecedence(acc: Code, rows: seq<Row>)
    ensures FoldCodes(acc, rows) ==
              if acc == IN || HasCode(rows, IN) then IN
              else if acc == OUT || HasCode(rows, OUT) then OUT
              else acc
    decreases |rows|
  {
    if |rows| > 0 {
      var init := rows[..|rows| - 1];
      var last := rows[|rows| - 1];
      FoldCodesPrecedence(acc, init);
      assert rows == init + [last];
      forall c: Code
        ensures HasCode(rows, c) <==> HasCode(init, c) || last.inOutCode == c
      {
        if HasCode(rows, c) {
          var r :| r in rows && r.inOutCode == c;
          assert r in init || r == last;
        }
        if HasCode(init, c) {
          var r :| r in init && r.inOutCode == c;
          assert r in rows;
        }
        assert last in rows;
      }
    }
  }

  /** The aggregated code is "in" if any row of the run is "in", otherwise
      "out" if any row is "out", otherwise the code of the first row. */
  lemma AggregatedCodePrecedence(run: seq<Row>)
    requires |run| > 0
    ensures AggregatedCode(run) ==
              if HasCode(run, IN) then IN
              else if HasCode(run, OUT) then OUT
              else run[0].inOutCode
  {
    FoldCodesPrecedence(run[0].inOutCode, run[1..]);
    assert run == [run[0]] + run[1..];
    forall c: Code
      ensures HasCode(run, c) <==> run[0].inOutCode == c || HasCode(run[1..], c)
    {
      if HasCode(run, c) {
        var r :| r in run && r.inOutCode == c;
        assert r == run[0] || r in run[1..];
      }
      if HasCode(run[1..], c) {
        var r :| r in run[1..] && r.inOutCode == c;
        assert r in run;
      }
    }
  }

  predicate WellCoded(rows: seq<Row>) {
    forall r :: r in rows ==> r.inOutCode in {IN, OUT, UNKNOWN}
  }

  /** For rows coded "in", "out" or "unknown" the aggregated code does not
      depend on the order of the rows within the run. */
  lemma AggregatedCodeOrderIndependent(a: seq<Row>, b: seq<Row>)
    requires |a| > 0
    requires multiset(a) == multiset(b)
    requires WellCoded(a)
    ensures |b| > 0
    ensures AggregatedCode(a) == AggregatedCode(b)
  {
    assert |b| == |multiset(b)| == |multiset(a)| == |a|;
    AggregatedCodePrecedence(a);
    AggregatedCodePrecedence(b);
    forall r
      ensures r in a <==> r in b
    {
      assert r in a <==> r in multiset(a);
      assert r in b <==> r in multiset(b);
    }
    assert HasCode(a, IN) <==> HasCode(b, IN);
    assert HasCode(a, OUT) <==> HasCode(b, OUT);
    assert a[0] in a && b[0] in a;
  }

  // ---------------------------------------------------------------------
  // Runs of equal ids
  // ---------------------------------------------------------------------

  /** `rows[i..j]` is a maximal run: all its rows share one id and the rows
      just outside it (if any) have another id. */
  predicate IsMaximalRun(rows: seq<Row>, i: int, j: int) {
    && 0 <= i < j <= |rows|
    && (forall k :: i <= k < j ==> rows[k].vpdmfId == rows[i].vpdmfId)
    && (i == 0 || rows[i - 1].vpdmfId != rows[i].vpdmfId)
    && (j == |rows| || rows[j].vpdmfId != rows[i].vpdmfId)
  }

  /** The end of the run that starts at `i`: the first later index whose id
      differs from `rows[i]`'s, or the end of the rows. */
  function RunEnd(rows: seq<Row>, i: nat): (j: nat)
    requires i < |rows|
    ensures i < j <= |rows|
    ensures forall k :: i <= k < j ==> rows[k].vpdmfId == rows[i].vpdmfId
    ensures j == |rows| || rows[j].vpdmfId != rows[i].vpdmfId
  {
    RunEndFrom(rows, i, i + 1)
  }

  function RunEndFrom(rows: seq<Row>, i: nat, j: nat): (e: nat)
    requires i < j <= |rows|
    requires forall k :: i <= k < j ==> rows[k].vpdmfId == rows[i].vpdmfId
    ensures j <= e <= |rows|
    ensures forall k :: i <= k < e ==> rows[k].vpdmfId == rows[i].vpdmfId
    ensures e == |rows| || rows[e].vpdmfId != rows[i].vpdmfId
    decreases |rows| - j
  {
    if j == |rows| || rows[j].vpdmfId != rows[i].vpdmfId then j
    else RunEndFrom(rows, i, j + 1)
  }

  /** A run reduced to one item: the id and text of its first row with the
      aggregated code of all its rows. */
  function Collapse(run: seq<Row>): (item: AggregatedScore)
    requires |run| > 0
    ensures item.vpdmfId == run[0].vpdmfId && item.text == run[0].text
    ensures item.code == if HasCode(run, IN) then IN
                         else if HasCode(run, OUT) then OUT
                         else run[0].inOutCode
  {
    AggregatedCodePrecedence(run);
    AggregatedScore(run[0].vpdmfId, AggregatedCode(run), run[0].text)
  }

  /** One item per run, for the rows from index `i` on. */
  function AggregateFrom(rows: seq<Row>, i: nat): (items: seq<AggregatedScore>)
    requires i <= |rows|
    ensures |items| <= |rows| - i
    ensures items == [] <==> i == |rows|
    ensures i < |rows| ==> items[0].vpdmfId == rows[i].vpdmfId && items[0].text == rows[i].text
    decreases |rows| - i
  {
    if i == |rows| then []
    else
      var j := RunEnd(rows, i);
      [Collapse(rows[i..j])] + AggregateFrom(rows, j)
  }

  /** One item per maximal run of the whole result set. */
  function Aggregate(rows: seq<Row>): (items: seq<AggregatedScore>)
    ensures |items| <= |rows|
    ensures items == [] <==> rows == []
  {
    AggregateFrom(rows, 0)
  }

  /** Folding one more row of a run: the fold over `rows[start + 1..pos + 1]`
      merges `rows[pos]` into the fold over `rows[start + 1..pos]`. */
  lemma FoldCodesExtend(acc: Code, rows: seq<Row>, start: nat, pos: nat)
    requires start < pos < |rows|
    ensures FoldCodes(acc, rows[start + 1..pos + 1]) == Merge(FoldCodes(acc, rows[start + 1..pos]), rows[pos].inOutCode)
  {
    assert rows[start + 1..pos + 1][..pos - start - 1] == rows[start + 1..pos];
  }

  /** A maximal run `rows[start..pos]` yields the first item from `start`,
      and the items after it start at `pos`. */
  lemma AggregateFromRun(rows: seq<Row>, start: nat, pos: nat)
    requires start < pos <= |rows|
    requires forall k :: start <= k < pos ==> rows[k].vpdmfId == rows[start].vpdmfId
    requires pos == |rows| || rows[pos].vpdmfId != rows[start].vpdmfId
    ensures AggregateFrom(rows, start) ==
              [AggregatedScore(rows[start].vpdmfId, FoldCodes(rows[start].inOutCode, rows[start + 1..pos]), rows[start].text)]
              + AggregateFrom(rows, pos)
  {
    var j := RunEnd(rows, start);
    assert j == pos;
    assert AggregateFrom(rows, start) == [Collapse(rows[start..pos])] + AggregateFrom(rows, pos);
    assert rows[start..pos][1..] == rows[start + 1..pos];
    assert rows[start..pos][0] == rows[start];
  }

  /** `item` collapses a maximal run that starts at index `i` or later. */
  ghost predicate FromRunAfter(rows: seq<Row>, i: int, item: AggregatedScore) {
    exists a, b :: i <= a && IsMaximalRun(rows, a, b) && item == Collapse(rows[a..b])
  }

  lemma FromRunAfterEarlier(rows: seq<Row>, i: int, j: int, item: AggregatedScore)
    requires i <= j && FromRunAfter(rows, j, item)
    ensures FromRunAfter(rows, i, item)
  {
    var a, b :| j <= a && IsMaximalRun(rows, a, b) && item == Collapse(rows[a..b]);
    assert i <= a;
  }

  /** Every item comes from a maximal run of equal ids. */
  lemma {:induction false} AggregateFromRuns(rows: seq<Row>, i: nat)
    requires i <= |rows|
    requires i == 0 || i == |rows| || rows[i - 1].vpdmfId != rows[i].vpdmfId
    ensures forall n :: 0 <= n < |AggregateFrom(rows, i)| ==> FromRunAfter(rows, i, AggregateFrom(rows, i)[n])
    decreases |rows| - i
  {
    if i < |rows| {
      var j := RunEnd(rows, i);
      AggregateFromRuns(rows, j);
      FirstRunItem(rows, i);
      var rest := AggregateFrom(rows, j);
      ConsFromRuns(rows, i, j, AggregateFrom(rows, i)[0], rest);
    }
  }

  /** Items from runs after a later boundary, behind one from a run after
      `i`, all come from runs after `i`. */
  lemma ConsFromRuns(rows: seq<Row>, i: int, j: int, first: AggregatedScore, rest: seq<AggregatedScore>)
    requires i <= j && FromRunAfter(rows, i, first)
    requires forall n :: 0 <= n < |rest| ==> FromRunAfter(rows, j, rest[n])
    ensures forall n :: 0 <= n < |[first] + rest| ==> FromRunAfter(rows, i, ([first] + rest)[n])
  {
    forall n | 1 <= n < |[first] + rest|
      ensures FromRunAfter(rows, i, ([first] + rest)[n])
    {
      assert ([first] + rest)[n] == rest[n - 1];
      FromRunAfterEarlier(rows, i, j, rest[n - 1]);
    }
  }

  /** From a run boundary, the first item collapses the run that starts there. */
  lemma FirstRunItem(rows: seq<Row>, i: nat)
    requires i < |rows|
    requires i == 0 || rows[i - 1].vpdmfId != rows[i].vpdmfId
    ensures AggregateFrom(rows, i) == [Collapse(rows[i..RunEnd(rows, i)])] + AggregateFrom(rows, RunEnd(rows, i))
    ensures FromRunAfter(rows, i, AggregateFrom(rows, i)[0])
  {
    var j := RunEnd(rows, i);
    assert IsMaximalRun(rows, i, j);
  }

  /** `item` collapses a maximal run and carries its first row's id and text. */
  ghost predicate HeadOfRun(rows: seq<Row>, item: AggregatedScore) {
    exists a, b :: IsMaximalRun(rows, a, b) && item == Collapse(rows[a..b])
                   && item.vpdmfId == rows[a].vpdmfId && item.text == rows[a].text
  }

  /** Every item comes from a maximal run of equal ids, and its id and text
      are those of the run's first row. */
  lemma AggregateRuns(rows: seq<Row>)
    ensures forall n :: 0 <= n < |Aggregate(rows)| ==> HeadOfRun(rows, Aggregate(rows)[n])
  {
    var items := Aggregate(rows);
    AggregateFromRuns(rows, 0);
    assert items == AggregateFrom(rows, 0);
    forall n | 0 <= n < |items|
      ensures HeadOfRun(rows, items[n])
    {
      CollapsedHead(rows, items[n]);
    }
  }

  lemma CollapsedHead(rows: seq<Row>, item: AggregatedScore)
    requires FromRunAfter(rows, 0, item)
    ensures HeadOfRun(rows, item)
  {
    var a, b :| 0 <= a && IsMaximalRun(rows, a, b) && item == Collapse(rows[a..b]);
    assert rows[a..b][0] == rows[a];
  }

  predicate SortedById(rows: seq<Row>) {
    forall a, b :: 0 <= a < b < |rows| ==> rows[a].vpdmfId <= rows[b].vpdmfId
  }

  function IdsFrom(rows: seq<Row>, i: nat): set<int> {
    set k | i <= k < |rows| :: rows[k].vpdmfId
  }

  function Ids(rows: seq<Row>): set<int> {
    IdsFrom(rows, 0)
  }

  lemma {:induction false} AggregateFromCountsIds(rows: seq<Row>, i: nat)
    requires SortedById(rows)
    requires i <= |rows|
    ensures |AggregateFrom(rows, i)| == |IdsFrom(rows, i)|
    decreases |rows| - i
  {
    if i == |rows| {
      assert IdsFrom(rows, i) == {};
    } else {
      var j := RunEnd(rows, i);
      AggregateFromCountsIds(rows, j);
      var id := rows[i].vpdmfId;
      assert IdsFrom(rows, i) == {id} + IdsFrom(rows, j) by {
        forall x | x in IdsFrom(rows, i)
          ensures x in {id} + IdsFrom(rows, j)
        {
          var k :| i <= k < |rows| && rows[k].vpdmfId == x;
          if k >= j {
            assert x in IdsFrom(rows, j);
          }
        }
        forall x | x in IdsFrom(rows, j)
          ensures x in IdsFrom(rows, i)
        {
          var k :| j <= k < |rows| && rows[k].vpdmfId == x;
        }
      }
      forall k | j <= k < |rows|
        ensures rows[k].vpdmfId != id
      {
        assert rows[i].vpdmfId <= rows[j].vpdmfId <= rows[k].vpdmfId;
      }
      assert id !in IdsFrom(rows, j);
    }
  }

  /** Given the `ORDER BY vpdmfId` of the query, there is one item per
      distinct citation id. */
  lemma AggregateCountsDistinctIds(rows: seq<Row>)
    requires SortedById(rows)
    ensures |Aggregate(rows)| == |Ids(rows)|
  {
    AggregateFromCountsIds(rows, 0);
  }

  // ---------------------------------------------------------------------
  // The skipUnknowns filter
  // ---------------------------------------------------------------------

  predicate Decided(s: AggregatedScore) {
    s.code == IN || s.code == OUT
  }

  /** Every item's aggregated code is "in" or "out". */
  predicate AllDecided(items: seq<AggregatedScore>) {
    forall k :: 0 <= k < |items| ==> Decided(items[k])
  }

  /** The items whose code is "in" or "out", in their original order. */
  function KeepDecided(items: seq<AggregatedScore>): (kept: seq<AggregatedScore>)
    ensures |kept| <= |items|
    ensures AllDecided(kept)
    decreases |items|
  {
    if |items| == 0 then []
    else if Decided(items[0]) then [items[0]] + KeepDecided(items[1..])
    else KeepDecided(items[1..])
  }

  function Keep(items: seq<AggregatedScore>, skipUnknowns: bool): seq<AggregatedScore> {
    if skipUnknowns then KeepDecided(items) else items
  }

  /** The items the reader hands out for `rows`. */
  function Emitted(rows: seq<Row>, skipUnknowns: bool): (items: seq<AggregatedScore>)
    ensures |items| <= |rows|
    ensures skipUnknowns ==> AllDecided(items)
    ensures !skipUnknowns ==> items == Aggregate(rows)
  {
    Keep(Aggregate(rows), skipUnknowns)
  }

  function CountCode(items: seq<AggregatedScore>, c: Code): nat
    decreases |items|
  {
    if |items| == 0 then 0
    else (if items[0].code == c then 1 else 0) + CountCode(items[1..], c)
  }

  function CountUndecided(items: seq<AggregatedScore>): nat
    decreases |items|
  {
    if |items| == 0 then 0
    else (if Decided(items[0]) then 0 else 1) + CountUndecided(items[1..])
  }

  /** Filtering keeps every "in" and every "out" item, drops all others, and
      invents nothing. */
  lemma {:induction false} KeepDecidedCounts(items: seq<AggregatedScore>)
    ensures forall x :: x in KeepDecided(items) ==> x in items && Decided(x)
    ensures CountCode(KeepDecided(items), IN) == CountCode(items, IN)
    ensures CountCode(KeepDecided(items), OUT) == CountCode(items, OUT)
    ensures CountUndecided(KeepDecided(items)) == 0
    ensures |KeepDecided(items)| == |items| - CountUndecided(items)
    decreases |items|
  {
    if |items| > 0 {
      KeepDecidedCounts(items[1..]);
      var rest := KeepDecided(items[1..]);
      if Decided(items[0]) {
        assert ([items[0]] + rest)[1..] == rest;
      }
    }
  }

  /** Filtering distributes over concatenation, so the kept items stay in
      their original order. */
  lemma {:induction false} KeepDecidedAppend(a: seq<AggregatedScore>, b: seq<AggregatedScore>)
    ensures KeepDecided(a + b) == KeepDecided(a) + KeepDecided(b)
    decreases |a|
  {
    if |a| > 0 {
      KeepDecidedAppend(a[1..], b);
      assert (a + b)[1..] == a[1..] + b;
      assert (a + b)[0] == a[0];
    } else {
      assert a + b == b;
    }
  }

  /** Items that are all "in" or "out" pass the filter unchanged. */
  lemma {:induction false} KeepDecidedOfDecided(items: seq<AggregatedScore>)
    requires forall k :: 0 <= k < |items| ==> Decided(items[k])
    ensures KeepDecided(items) == items
    decreases |items|
  {
    if |items| > 0 {
      KeepDecidedOfDecided(items[1..]);
      assert [items[0]] + items[1..] == items;
    }
  }

  /** With skipUnknowns every emitted code is "in" or "out", and the numbers
      of "in" and "out" items are those of the unfiltered reader. */
  lemma SkipUnknownsKeepsInOutCounts(rows: seq<Row>)
    ensures forall x :: x in Emitted(rows, true) ==> x.code == IN || x.code == OUT
    ensures CountCode(Emitted(rows, true), IN) == CountCode(Emitted(rows, false), IN)
    ensures CountCode(Emitted(rows, true), OUT) == CountCode(Emitted(rows, false), OUT)
    ensures CountUndecided(Emitted(rows, true)) == 0
  {
    KeepDecidedCounts(Aggregate(rows));
  }

  /** With skipUnknowns and sorted rows the number of items is the number of
      distinct ids minus those whose aggregated code is neither "in" nor "out". */
  lemma SkipUnknownsCount(rows: seq<Row>)
    requires SortedById(rows)
    ensures |Emitted(rows, true)| == |Ids(rows)| - CountUndecided(Aggregate(rows))
  {
    KeepDecidedCounts(Aggregate(rows));
    AggregateCountsDistinctIds(rows);
  }
}
