/** TriageDaoExImpl: the batch that adds triage scores for a map of PMIDs,
    the two DELETE statements that clear a (triage corpus, target corpus)
    pair, and the exactly-one lookup of a triage corpus by name. The ORM list
    and insert queries become an abstract lookup and an append-only log. */
module TriageDao {
  import opened Wrappers
  import opened SetFacts

  // -----------------------------------------------------------------------
  // Ascending order of the PMIDs (Collections.sort over the key set)
  // -----------------------------------------------------------------------

  /** The set of the elements of a list. */
  function ElementsOf(s: seq<int>): set<int> {
    set p | p in s
  }

  predicate StrictlyAscending(s: seq<int>) {
    forall i, j :: 0 <= i < j < |s| ==> s[i] < s[j]
  }

  /** `m` is the least element of `s`. */
  predicate IsLeast(m: int, s: set<int>) {
    m in s && forall y :: y in s ==> m <= y
  }

  lemma {:induction false} MinExists(s: set<int>)
    requires s != {}
    ensures exists m :: IsLeast(m, s)
    decreases |s|
  {
    var x := Pick(s);
    if s != {x} {
      var rest := s - {x};
      MinExists(rest);
      var m :| IsLeast(m, rest);
      var least := if x < m then x else m;
      forall y | y in s
        ensures least <= y
      {
        if y != x {
          assert y in rest;
        }
      }
      assert IsLeast(least, s);
    } else {
      assert IsLeast(x, s);
    }
  }

  /** The least element of a non-empty set. */
  function SetMin(s: set<int>): (m: int)
    requires s != {}
    ensures m in s && forall y :: y in s ==> m <= y
  {
    MinExists(s);
    var m :| IsLeast(m, s);
    m
  }

  /** The elements of `s` in ascending order: each element once (the order is
      stated by `AscendingSorted`). */
  function Ascending(s: set<int>): (r: seq<int>)
    ensures ElementsOf(r) == s
    ensures |r| == |s|
    decreases |s|
  {
    if s == {} then []
    else
      var m := SetMin(s);
      var rest := Ascending(s - {m});
      PrependElements(s, m, rest);
      [m] + rest
  }

  lemma PrependElements(s: set<int>, m: int, rest: seq<int>)
    requires m in s && ElementsOf(rest) == s - {m}
    ensures ElementsOf([m] + rest) == s
  {
    var r := [m] + rest;
    forall x
      ensures x in ElementsOf(r) <==> x in s
    {
      if x in ElementsOf(r) && x != m {
        var k :| 0 <= k < |r| && r[k] == x;
        assert rest[k - 1] in ElementsOf(rest);
      }
      if x in s && x != m {
        assert x in ElementsOf(rest);
        var k :| 0 <= k < |rest| && rest[k] == x;
        assert r[k + 1] == x;
      }
    }
  }

  /** `Ascending` lists the set in strictly ascending order. */
  lemma {:induction false} AscendingSorted(s: set<int>)
    ensures StrictlyAscending(Ascending(s))
    decreases |s|
  {
    if s != {} {
      var m := SetMin(s);
      AscendingSorted(s - {m});
      PrependSorted(s, m, Ascending(s - {m}));
    }
  }

  /** Putting the least element in front of an ascending listing of the rest. */
  lemma PrependSorted(s: set<int>, m: int, rest: seq<int>)
    requires forall y :: y in s ==> m <= y
    requires StrictlyAscending(rest) && ElementsOf(rest) == s - {m}
    ensures StrictlyAscending([m] + rest)
  {
    var r := [m] + rest;
    forall i, j | 0 <= i < j < |r|
      ensures r[i] < r[j]
    {
      if i == 0 {
        assert r[j] == rest[j - 1] && rest[j - 1] in ElementsOf(rest);
      } else {
        assert r[i] == rest[i - 1] && r[j] == rest[j - 1];
      }
    }
  }

  /** Every element of the listing is an element of the set. */
  lemma AscendingInSet(s: set<int>)
    ensures forall k :: 0 <= k < |Ascending(s)| ==> Ascending(s)[k] in s
  {
    var r := Ascending(s);
    forall k | 0 <= k < |r|
      ensures r[k] in s
    {
      assert r[k] in ElementsOf(r);
    }
  }

  /** A strictly ascending listing of a set is unique: it is `Ascending`. */
  lemma {:induction false} AscendingUnique(order: seq<int>, s: set<int>)
    requires StrictlyAscending(order)
    requires ElementsOf(order) == s
    ensures order == Ascending(s)
    decreases |order|
  {
    if order == [] {
      assert s == {};
    } else {
      HeadIsMin(order, s);
      TailListsRest(order, s);
      AscendingUnique(order[1..], s - {order[0]});
      AscendingStep(order, s);
    }
  }

  lemma AscendingStep(order: seq<int>, s: set<int>)
    requires |order| > 0 && s != {} && order[0] == SetMin(s)
    requires order[1..] == Ascending(s - {order[0]})
    ensures order == Ascending(s)
  {
    assert Ascending(s) == [order[0]] + Ascending(s - {order[0]});
    assert order == [order[0]] + order[1..];
  }

  lemma HeadIsMin(order: seq<int>, s: set<int>)
    requires StrictlyAscending(order) && ElementsOf(order) == s && |order| > 0
    ensures s != {} && order[0] == SetMin(s)
  {
    assert order[0] in ElementsOf(order);
    var m := SetMin(s);
    assert m in ElementsOf(order);
    var k :| 0 <= k < |order| && order[k] == m;
  }

  lemma TailListsRest(order: seq<int>, s: set<int>)
    requires StrictlyAscending(order) && ElementsOf(order) == s && |order| > 0
    ensures StrictlyAscending(order[1..]) && ElementsOf(order[1..]) == s - {order[0]}
  {
    var tail := order[1..];
    forall i, j | 0 <= i < j < |tail|
      ensures tail[i] < tail[j]
    {
      assert tail[i] == order[i + 1] && tail[j] == order[j + 1];
    }
    forall x
      ensures x in ElementsOf(tail) <==> x in s - {order[0]}
    {
      if x in ElementsOf(tail) {
        var k :| 0 <= k < |tail| && tail[k] == x;
        assert order[0] < order[k + 1];
        assert order[k + 1] in ElementsOf(order);
      }
      if x in s - {order[0]} {
        assert x in ElementsOf(order);
        var k :| 0 <= k < |order| && order[k] == x;
        assert tail[k - 1] == x;
      }
    }
  }

  // -----------------------------------------------------------------------
  // addTriageDocumentsToCorpus
  // -----------------------------------------------------------------------

  /** A citation matched by the ArticleCitation list query. */
  datatype DocRef = DocRef(vpdmfId: int, vpdmfLabel: string)

  /** The list query `ArticleCitation.pmid = pmid`: every citation it returns. */
  type Lookup = int -> seq<DocRef>

  /** One inserted TriagedArticle view: the TriageScore attributes it sets. */
  datatype ScoreInsert = ScoreInsert(
    triageCorpus: string,
    targetCorpus: string,
    citationLabel: string,
    citationId: int,
    inOutCode: string,
    inScore: string,
    classifyTimestamp: string,
    scoredTimestamp: string)

  /** The arguments of one call; `timestamp` is the clock reading formatted
      once, before the loop. */
  datatype Batch = Batch(triageCorpus: string, targetCorpus: string, pmidCodes: map<int, string>, timestamp: string)

  /** How the call ends: normally, or by the "ambiguous" exception. */
  datatype AddOutcome = Completed | Ambiguous(pmid: int)

  /** The insert for a PMID whose query returned exactly `doc`. */
  function InsertFor(batch: Batch, pmid: int, doc: DocRef): (ins: ScoreInsert)
    requires pmid in batch.pmidCodes
    ensures ins.triageCorpus == batch.triageCorpus && ins.targetCorpus == batch.targetCorpus
    ensures ins.citationId == doc.vpdmfId && ins.citationLabel == doc.vpdmfLabel
    ensures ins.inOutCode == batch.pmidCodes[pmid] && ins.inScore == "-1"
    ensures ins.classifyTimestamp == batch.timestamp && ins.scoredTimestamp == batch.timestamp
  {
    ScoreInsert(batch.triageCorpus, batch.targetCorpus, doc.vpdmfLabel, doc.vpdmfId,
                batch.pmidCodes[pmid], "-1", batch.timestamp, batch.timestamp)
  }

  /** `ins` is the insert for PMID `p`, which has exactly one citation. */
  predicate InsertOfPmid(batch: Batch, lookup: Lookup, ins: ScoreInsert, p: int) {
    p in batch.pmidCodes && |lookup(p)| == 1 && ins == InsertFor(batch, p, lookup(p)[0])
  }

  /** Reference definition: the inserts for a list of PMIDs none of which is
      ambiguous, one per PMID with exactly one match, in list order. */
  function InsertsOf(batch: Batch, lookup: Lookup, pmids: seq<int>): (log: seq<ScoreInsert>)
    requires forall k :: 0 <= k < |pmids| ==> pmids[k] in batch.pmidCodes
    ensures |log| <= |pmids|
    ensures forall i :: 0 <= i < |log| ==> exists k :: 0 <= k < |pmids| && InsertOfPmid(batch, lookup, log[i], pmids[k])
    ensures forall p :: p in pmids && |lookup(p)| == 1 ==> InsertFor(batch, p, lookup(p)[0]) in log
    decreases |pmids|
  {
    if |pmids| == 0 then []
    else
      var init := pmids[..|pmids| - 1];
      var last := pmids[|pmids| - 1];
      var prev := InsertsOf(batch, lookup, init);
      assert forall k :: 0 <= k < |init| ==> init[k] == pmids[k];
      if |lookup(last)| == 1 then prev + [InsertFor(batch, last, lookup(last)[0])] else prev
  }

  /** The position of the first ambiguous PMID in `order`, or `|order|`. */
  function FirstAmbiguous(order: seq<int>, lookup: Lookup): (n: nat)
    ensures n <= |order|
    ensures forall k :: 0 <= k < n ==> |lookup(order[k])| <= 1
    ensures n < |order| ==> |lookup(order[n])| > 1
    decreases |order|
  {
    if |order| == 0 then 0
    else if |lookup(order[0])| > 1 then 0
    else
      var n := FirstAmbiguous(order[1..], lookup);
      assert forall k :: 1 <= k < |order| ==> order[k] == order[1..][k - 1];
      n + 1
  }

  /** One more PMID of the list adds its insert exactly when it has one citation. */
  lemma InsertsOfPrefix(batch: Batch, lookup: Lookup, pmids: seq<int>, i: nat)
    requires forall k :: 0 <= k < |pmids| ==> pmids[k] in batch.pmidCodes
    requires i < |pmids|
    ensures InsertsOf(batch, lookup, pmids[..i + 1]) ==
              InsertsOf(batch, lookup, pmids[..i]) +
              (if |lookup(pmids[i])| == 1 then [InsertFor(batch, pmids[i], lookup(pmids[i])[0])] else [])
  {
    assert pmids[..i + 1][..i] == pmids[..i];
  }

  /** The loop of addTriageDocumentsToCorpus over PMIDs in the given order:
      a PMID without a citation is skipped, an ambiguous one ends the call
      with the inserts made so far kept, and any other adds one insert and
      bumps the count. `inserts` is the log of executed inserts. */
  method InsertInOrder(batch: Batch, lookup: Lookup, pmids: seq<int>)
    returns (inserts: seq<ScoreInsert>, count: nat, outcome: AddOutcome)
    requires forall k :: 0 <= k < |pmids| ==> pmids[k] in batch.pmidCodes
    ensures var stop := FirstAmbiguous(pmids, lookup);
            && inserts == InsertsOf(batch, lookup, pmids[..stop])
            && (outcome.Ambiguous? <==> stop < |pmids|)
            && (outcome.Ambiguous? ==> outcome.pmid == pmids[stop])
    ensures count == |inserts|
  {
    ghost var stop := FirstAmbiguous(pmids, lookup);
    inserts, count, outcome := [], 0, Completed;
    var i := 0;
    while i < |pmids|
      invariant 0 <= i <= stop
      invariant inserts == InsertsOf(batch, lookup, pmids[..i])
      invariant count == |inserts|
      decreases |pmids| - i
    {
      var pmid := pmids[i];
      var l := lookup(pmid);
      InsertsOfPrefix(batch, lookup, pmids, i);
      assert |l| <= 1 ==> i < stop;
      if |l| == 0 {
        i := i + 1;
        continue;
      } else if |l| > 1 {
        outcome := Ambiguous(pmid);
        return;
      }
      var lvi := l[0];
      count := count + 1;
      inserts := inserts + [InsertFor(batch, pmid, lvi)];
      i := i + 1;
    }
  }

  /** addTriageDocumentsToCorpus: the loop above over the PMIDs of the map in
      ascending order. */
  method AddTriageDocumentsToCorpus(batch: Batch, lookup: Lookup)
    returns (inserts: seq<ScoreInsert>, count: nat, outcome: AddOutcome)
    ensures var order := Ascending(batch.pmidCodes.Keys);
            var stop := FirstAmbiguous(order, lookup);
            && inserts == InsertsOf(batch, lookup, order[..stop])
            && (outcome.Ambiguous? <==> stop < |order|)
            && (outcome.Ambiguous? ==> outcome.pmid == order[stop])
    ensures outcome.Ambiguous? ==> outcome.pmid in batch.pmidCodes && |lookup(outcome.pmid)| > 1
    ensures count == |inserts| <= |batch.pmidCodes|
  {
    var pmids := Ascending(batch.pmidCodes.Keys);
    AscendingInSet(batch.pmidCodes.Keys);
    inserts, count, outcome := InsertInOrder(batch, lookup, pmids);
  }

  /** The PMIDs of `pmids` that have exactly one citation. */
  function Matched(pmids: set<int>, lookup: Lookup): set<int> {
    set p | p in pmids && |lookup(p)| == 1
  }

  /** Over distinct PMIDs, the inserts are as many as the PMIDs matched once. */
  lemma {:induction false} InsertsOfCount(batch: Batch, lookup: Lookup, pmids: seq<int>)
    requires forall k :: 0 <= k < |pmids| ==> pmids[k] in batch.pmidCodes
    requires StrictlyAscending(pmids)
    ensures |InsertsOf(batch, lookup, pmids)| == |Matched(ElementsOf(pmids), lookup)|
    decreases |pmids|
  {
    if |pmids| > 0 {
      var init := pmids[..|pmids| - 1];
      var last := pmids[|pmids| - 1];
      assert pmids == init + [last];
      InsertsOfCount(batch, lookup, init);
      MatchedStep(init, last, lookup);
    }
  }

  /** Appending a PMID larger than all before it adds it to the matched set
      exactly when it has one citation. */
  lemma MatchedStep(init: seq<int>, last: int, lookup: Lookup)
    requires forall k :: 0 <= k < |init| ==> init[k] < last
    ensures last !in Matched(ElementsOf(init), lookup)
    ensures Matched(ElementsOf(init + [last]), lookup) ==
              Matched(ElementsOf(init), lookup) + (if |lookup(last)| == 1 then {last} else {})
  {
    assert ElementsOf(init + [last]) == ElementsOf(init) + {last};
  }

  /** A call that completes inserts, and counts, exactly the PMIDs of the map
      that have one citation. */
  lemma CompletedCountsMatched(batch: Batch, lookup: Lookup)
    requires FirstAmbiguous(Ascending(batch.pmidCodes.Keys), lookup) == |batch.pmidCodes|
    ensures |InsertsOf(batch, lookup, Ascending(batch.pmidCodes.Keys))| == |Matched(batch.pmidCodes.Keys, lookup)|
  {
    var order := Ascending(batch.pmidCodes.Keys);
    AscendingSorted(batch.pmidCodes.Keys);
    AscendingInSet(batch.pmidCodes.Keys);
    InsertsOfCount(batch, lookup, order);
    assert ElementsOf(order) == batch.pmidCodes.Keys;
  }

  /** No PMID is ambiguous exactly when the call completes. */
  lemma CompletesIffNoAmbiguity(batch: Batch, lookup: Lookup)
    ensures FirstAmbiguous(Ascending(batch.pmidCodes.Keys), lookup) == |batch.pmidCodes|
            <==> forall p :: p in batch.pmidCodes ==> |lookup(p)| <= 1
  {
    var order := Ascending(batch.pmidCodes.Keys);
    var stop := FirstAmbiguous(order, lookup);
    if stop < |order| {
      assert order[stop] in batch.pmidCodes;
    } else {
      forall p | p in batch.pmidCodes
        ensures |lookup(p)| <= 1
      {
        var k :| 0 <= k < |order| && order[k] == p;
      }
    }
  }

  /** `ins` is the insert of some PMID below `bound`. */
  ghost predicate FromSmallerPmid(batch: Batch, lookup: Lookup, ins: ScoreInsert, bound: int) {
    exists p :: p < bound && InsertOfPmid(batch, lookup, ins, p)
  }

  /** After an ambiguous PMID, every insert made belongs to a smaller PMID:
      no larger PMID was processed. */
  lemma AmbiguityKeepsOnlySmallerPmids(batch: Batch, lookup: Lookup, q: int)
    requires q in batch.pmidCodes && |lookup(q)| > 1
    ensures var order := Ascending(batch.pmidCodes.Keys);
            var stop := FirstAmbiguous(order, lookup);
            && stop < |order|
            && var log := InsertsOf(batch, lookup, order[..stop]);
               forall i :: 0 <= i < |log| ==> FromSmallerPmid(batch, lookup, log[i], order[stop])
  {
    CompletesIffNoAmbiguity(batch, lookup);
    var order := Ascending(batch.pmidCodes.Keys);
    AscendingInSet(batch.pmidCodes.Keys);
    AscendingSorted(batch.pmidCodes.Keys);
    InsertsBeforeStop(batch, lookup, order, FirstAmbiguous(order, lookup));
  }

  /** Over an ascending list, every insert made before position `stop`
      belongs to a PMID smaller than the one at `stop`. */
  lemma InsertsBeforeStop(batch: Batch, lookup: Lookup, order: seq<int>, stop: nat)
    requires StrictlyAscending(order) && stop < |order|
    requires forall k :: 0 <= k < |order| ==> order[k] in batch.pmidCodes
    ensures var log := InsertsOf(batch, lookup, order[..stop]);
            forall i :: 0 <= i < |log| ==> FromSmallerPmid(batch, lookup, log[i], order[stop])
  {
    var log := InsertsOf(batch, lookup, order[..stop]);
    forall i | 0 <= i < |log|
      ensures FromSmallerPmid(batch, lookup, log[i], order[stop])
    {
      var k :| 0 <= k < stop && InsertOfPmid(batch, lookup, log[i], order[..stop][k]);
      assert order[..stop][k] == order[k] < order[stop];
    }
  }

  // -----------------------------------------------------------------------
  // deleteExistingTriageScores
  // -----------------------------------------------------------------------

  datatype CorpusRow = CorpusRow(vpdmfId: int, name: string)

  /** A TriageScore row, with the two corpus foreign keys the deletion joins on. */
  datatype ScoreRow = ScoreRow(vpdmfId: int, targetCorpusId: int, triageCorpusId: int, inOutCode: string)

  datatype FeatureRow = FeatureRow(vpdmfId: int, feature: string)

  datatype ViewRow = ViewRow(vpdmfId: int, vpdmfLabel: string)

  /** The four tables the two statements read or write. */
  datatype Db = Db(corpora: set<CorpusRow>, scores: set<ScoreRow>, features: set<FeatureRow>, views: set<ViewRow>)

  /** The WHERE conditions on `ts`, `targetc` and `triagec` that both statements share. */
  predicate ForPair(corpora: set<CorpusRow>, ts: ScoreRow, triageCorpus: string, targetCorpus: string) {
    && (exists c :: c in corpora && c.vpdmfId == ts.targetCorpusId && c.name == targetCorpus)
    && (exists c :: c in corpora && c.vpdmfId == ts.triageCorpusId && c.name == triageCorpus)
  }

  predicate HasView(views: set<ViewRow>, ts: ScoreRow) {
    exists vt :: vt in views && vt.vpdmfId == ts.vpdmfId
  }

  /** The view row shares its id with a score row of the pair. */
  predicate ViewOfPair(db: Db, vt: ViewRow, triageCorpus: string, targetCorpus: string) {
    exists ts :: ts in db.scores && ForPair(db.corpora, ts, triageCorpus, targetCorpus) && ts.vpdmfId == vt.vpdmfId
  }

  predicate PairHasScores(db: Db, triageCorpus: string, targetCorpus: string) {
    exists ts :: ts in db.scores && ForPair(db.corpora, ts, triageCorpus, targetCorpus)
  }

  /** The first statement: `tf` is not joined to anything, so every feature
      row goes as soon as one score row of the pair exists. */
  function DeleteFeatures(db: Db, triageCorpus: string, targetCorpus: string): (r: Db)
    ensures r.corpora == db.corpora && r.scores == db.scores && r.views == db.views
    ensures PairHasScores(db, triageCorpus, targetCorpus) ==> r.features == {}
    ensures !PairHasScores(db, triageCorpus, targetCorpus) ==> r.features == db.features
  {
    if PairHasScores(db, triageCorpus, targetCorpus) then db.(features := {}) else db
  }

  /** The second statement: the inner join with ViewTable deletes the pair's
      score rows that have a view row, and those view rows. */
  function DeleteScoresAndViews(db: Db, triageCorpus: string, targetCorpus: string): (r: Db)
    ensures r.corpora == db.corpora && r.features == db.features
    ensures r.scores <= db.scores && r.views <= db.views
    ensures forall ts :: ts in db.scores ==>
              (ts !in r.scores <==> ForPair(db.corpora, ts, triageCorpus, targetCorpus) && HasView(db.views, ts))
    ensures forall vt :: vt in db.views ==>
              (vt !in r.views <==> ViewOfPair(db, vt, triageCorpus, targetCorpus))
  {
    var doomed := set ts | ts in db.scores && ForPair(db.corpora, ts, triageCorpus, targetCorpus);
    var scores := set ts | ts in db.scores && !(ts in doomed && HasView(db.views, ts));
    var views := set vt | vt in db.views && !(exists ts :: ts in doomed && ts.vpdmfId == vt.vpdmfId);
    db.(scores := scores, views := views)
  }

  /** deleteExistingTriageScores: the two statements in order. Corpora are
      untouched. Feature rows are all lost as soon as the pair has one score
      row, even features of other pairs, and kept in full otherwise. Score
      rows of other pairs, and view rows of other ids, stay; a score row of
      the pair stays only when it has no view row. */
  function DeleteExistingTriageScores(db: Db, triageCorpus: string, targetCorpus: string): (r: Db)
    ensures r.corpora == db.corpora
    ensures PairHasScores(db, triageCorpus, targetCorpus) ==> r.features == {}
    ensures !PairHasScores(db, triageCorpus, targetCorpus) ==> r.features == db.features
    ensures r.scores <= db.scores && r.views <= db.views
    ensures forall ts :: ts in db.scores && !ForPair(db.corpora, ts, triageCorpus, targetCorpus) ==> ts in r.scores
    ensures forall ts :: ts in r.scores && ForPair(db.corpora, ts, triageCorpus, targetCorpus) ==> !HasView(db.views, ts)
    ensures forall vt :: vt in db.views && !ViewOfPair(db, vt, triageCorpus, targetCorpus) ==> vt in r.views
  {
    DeleteScoresAndViews(DeleteFeatures(db, triageCorpus, targetCorpus), triageCorpus, targetCorpus)
  }

  /** When every score row of the pair has its view row, none is left. */
  lemma DeleteRemovesViewBackedScores(db: Db, triageCorpus: string, targetCorpus: string)
    requires forall ts :: ts in db.scores && ForPair(db.corpora, ts, triageCorpus, targetCorpus) ==> HasView(db.views, ts)
    ensures !PairHasScores(DeleteExistingTriageScores(db, triageCorpus, targetCorpus), triageCorpus, targetCorpus)
  {
  }

  /** Running the deletion twice changes nothing more. */
  lemma {:induction false} DeleteIdempotent(db: Db, triageCorpus: string, targetCorpus: string)
    ensures var once := DeleteExistingTriageScores(db, triageCorpus, targetCorpus);
            DeleteExistingTriageScores(once, triageCorpus, targetCorpus) == once
  {
    var once := DeleteExistingTriageScores(db, triageCorpus, targetCorpus);
    var twice := DeleteExistingTriageScores(once, triageCorpus, targetCorpus);
    // A pair score row that survived has no view row left to join with.
    forall ts | ts in once.scores && ForPair(once.corpora, ts, triageCorpus, targetCorpus)
      ensures !HasView(once.views, ts)
    {
      assert !HasView(db.views, ts);
    }
    // Features: they were wiped already whenever the pair has a score row now.
    if PairHasScores(once, triageCorpus, targetCorpus) {
      var ts :| ts in once.scores && ForPair(once.corpora, ts, triageCorpus, targetCorpus);
      assert PairHasScores(db, triageCorpus, targetCorpus);
    }
    assert twice.features == once.features;
    assert twice.scores == once.scores;
    forall vt | vt in once.views
      ensures vt in twice.views
    {
      if ts :| ts in once.scores && ForPair(once.corpora, ts, triageCorpus, targetCorpus) && ts.vpdmfId == vt.vpdmfId {
        assert HasView(once.views, ts);
      }
    }
    assert twice.views == once.views;
  }

  // -----------------------------------------------------------------------
  // findTriageCorpusByName
  // -----------------------------------------------------------------------

  datatype TriageCorpus = TriageCorpus(vpdmfId: int, name: string)

  /** The TriageCorpus list query with its name set: the corpora of that
      name, in table order. */
  function ListByName(corpora: seq<TriageCorpus>, name: string): (l: seq<TriageCorpus>)
    ensures forall c :: c in l <==> c in corpora && c.name == name
    ensures |l| <= |corpora|
    decreases |corpora|
  {
    if |corpora| == 0 then []
    else
      var rest := ListByName(corpora[1..], name);
      assert forall c :: c in corpora <==> c == corpora[0] || c in corpora[1..];
      if corpora[0].name == name then [corpora[0]] + rest else rest
  }

  /** findTriageCorpusByName: null unless the list query returns exactly one
      corpus, and then that corpus. */
  function FindTriageCorpusByName(corpora: seq<TriageCorpus>, name: string): (r: Option<TriageCorpus>)
    ensures r.Some? ==> r.value in corpora && r.value.name == name
    ensures r.Some? ==> forall c :: c in corpora && c.name == name ==> c == r.value
  {
    var l := ListByName(corpora, name);
    if |l| != 1 then None
    else
      assert l[0] in l;
      Some(l[0])
  }

  /** Row `i` is the only row carrying `name`. */
  predicate OnlyNamed(corpora: seq<TriageCorpus>, name: string, i: int) {
    0 <= i < |corpora| && corpora[i].name == name
    && forall j :: 0 <= j < |corpora| && corpora[j].name == name ==> j == i
  }

  /** The list query returns one corpus exactly when one row carries the name. */
  lemma {:induction false} ListByNameSingle(corpora: seq<TriageCorpus>, name: string)
    ensures |ListByName(corpora, name)| == 1 <==> exists i :: OnlyNamed(corpora, name, i)
    decreases |corpora|
  {
    if |corpora| > 0 {
      var tail := corpora[1..];
      ListByNameSingle(tail, name);
      if corpora[0].name == name {
        ListByNameEmpty(tail, name);
        if |ListByName(tail, name)| == 0 {
          assert OnlyNamed(corpora, name, 0) by {
            forall j | 0 <= j < |corpora| && corpora[j].name == name
              ensures j == 0
            {
            }
          }
        } else {
          var k :| 0 <= k < |tail| && tail[k].name == name;
          forall i | 0 <= i < |corpora|
            ensures !OnlyNamed(corpora, name, i)
          {
            assert corpora[k + 1].name == name;
          }
        }
      } else {
        forall i
          ensures OnlyNamed(corpora, name, i) <==> OnlyNamed(tail, name, i - 1)
        {
          ShiftOnlyNamed(corpora, name, i);
        }
        if i :| OnlyNamed(tail, name, i) {
          assert OnlyNamed(corpora, name, i + 1);
        }
      }
    }
  }

  lemma ShiftOnlyNamed(corpora: seq<TriageCorpus>, name: string, i: int)
    requires |corpora| > 0 && corpora[0].name != name
    ensures OnlyNamed(corpora, name, i) <==> OnlyNamed(corpora[1..], name, i - 1)
  {
    var tail := corpora[1..];
    if OnlyNamed(corpora, name, i) {
      forall j | 0 <= j < |tail| && tail[j].name == name
        ensures j == i - 1
      {
        assert corpora[j + 1].name == name;
      }
    }
    if OnlyNamed(tail, name, i - 1) {
      forall j | 0 <= j < |corpora| && corpora[j].name == name
        ensures j == i
      {
        assert j > 0;
        assert tail[j - 1].name == name;
      }
    }
  }

  /** The list query returns nothing exactly when no row carries the name. */
  lemma ListByNameEmpty(corpora: seq<TriageCorpus>, name: string)
    ensures |ListByName(corpora, name)| == 0 <==> forall j :: 0 <= j < |corpora| ==> corpora[j].name != name
  {
    var l := ListByName(corpora, name);
    if |l| > 0 {
      assert l[0] in l;
    }
    if j :| 0 <= j < |corpora| && corpora[j].name == name {
      assert corpora[j] in l;
    }
  }

  /** findTriageCorpusByName succeeds exactly when one table row carries the name. */
  lemma FindByNameExactlyOne(corpora: seq<TriageCorpus>, name: string)
    ensures FindTriageCorpusByName(corpora, name).Some? <==> exists i :: OnlyNamed(corpora, name, i)
    ensures FindTriageCorpusByName(corpora, name).Some? ==>
              forall i :: OnlyNamed(corpora, name, i) ==> FindTriageCorpusByName(corpora, name).value == corpora[i]
  {
    ListByNameSingle(corpora, name);
  }
}
