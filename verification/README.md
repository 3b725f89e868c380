# skmTriage triage-score core in Dafny

This project models four pieces of sequential logic from the BMKEG skmTriage repository and proves properties of them:

- **The triage-score aggregation reader** (`TriageScoreCollectionReader`).
  - It reads score rows `(vpdmfId, inOutCode, text)` in ascending id order and collapses each maximal run of equal ids into one aggregated score.
  - Codes are merged under the precedence "in" > "out" > anything else.
  - With `skipUnknowns` it hands out only the items whose aggregated code is "in" or "out".
  - It is modelled twice:
    - as pure functions over `seq<Row>` (module `Aggregation`);
    - as the reader's own state machine (module `ScoreReader`), a `ResultSet` position plus the `eof` flag and the `currentAs` lookahead.
  - `ScoreReader.ReadAll` proves that the two agree.
- **The triage DAO** (`TriageDaoExImpl`, module `TriageDao`).
  - `addTriageDocumentsToCorpus` walks the PMIDs of a map in ascending order. It takes an abstract PMID→citations lookup and records its inserts in an append-only log.
  - `deleteExistingTriageScores` is a set-based transition over the corpus, score, feature and view tables.
  - `findTriageCorpusByName` is an exactly-one lookup.
- **The delimited-line handler** (`FilteredLineHandler.handleLine`, module `FilteredLineHandler`).
- **The pure parts of `ImportOAPapersFromPmidSet`** (module `OaImport`):
  - reading the PMID file, the PMC map file and the PDF location file line by line;
  - the report loop that counts PMC hits and PDF hits and builds FTP locations;
  - `readSetOfStrings`.

Supporting modules:
- `Wrappers` holds `Option` and `Result`.
- `SetFacts` picks an element of a non-empty set and bounds subset cardinality.
- `JavaStrings` covers `java.lang.String`: `indexOf`, `startsWith`, and `split` around one character. `split` drops trailing empty fields and gives `[s]` when the separator does not occur.

Conventions:
- An SQL NULL is `None`.
- The TriageCode constants are the strings "in", "out" and "unknown".
- `new Integer(s)` is an abstract partial parse `string -> Option<int>`.
- The clock reading of `addTriageDocumentsToCorpus` is a parameter (`Batch.timestamp`).

Behaviour the code has that its comments and names do not spell out, which the model follows (paths here are relative to the main package `src/main/java/edu/isi/bmkeg/skm/triage`):
- **Aggregated code without "in" or "out".** The class comment at `cleartk/cr/TriageScoreCollectionReader.java:29-32` only ranks "in" over "out" and "unknown", and "out" over "unknown". When no row of a run is "in" or "out", the code keeps the first row's code, which may be NULL or any other string (`Aggregation.AggregatedCodePrecedence`).
- **Feature deletion.** The comment at `dao/vpdmf/TriageDaoExImpl.java:112-113` speaks of removing the existing scores and features. The first DELETE (lines 116-122) joins nothing to `TriageFeature`, so it removes every feature row as soon as the pair has one score row (`TriageDao.DeleteExistingTriageScores`).
- **Score and view deletion.** The second DELETE (lines 129-135) is an inner join with `ViewTable`, so it leaves any pair score row that has no view row. `TriageDao.DeleteRemovesViewBackedScores` proves that every pair score goes when each one has its view row. `TriageDao.DeleteIdempotent` proves that a second run changes nothing.
- **Ambiguous PMIDs.** `addTriageDocumentsToCorpus` throws at line 207 on an ambiguous PMID, with no transaction around the loop: the inserts already made for smaller PMIDs (line 254) stay, and the model keeps them (`TriageDao.AddTriageDocumentsToCorpus`, `TriageDao.AmbiguityKeepsOnlySmallerPmids`).
- **Missing delimiter.** A line without the delimiter makes `substring(0, -1)` throw. The model returns a `Result` failure rather than requiring the delimiter. The failure also covers the empty line, where only an empty delimiter occurs and `substring(1)` is out of range.

Source paths below are relative to the repository root. The main package `src/main/java/edu/isi/bmkeg/skm/triage` is written out in full.

## Model

| member | source | states |
|---|---|---|
| Aggregation.FoldCodesPrecedence | src/main/java/edu/isi/bmkeg/skm/triage/cleartk/cr/TriageScoreCollectionReader.java:298-306 | folding the codes of the later rows of a run onto an accumulated code gives "in" if the accumulator or any row is "in", else "out" if the accumulator or any row is "out", else the accumulator unchanged |
| Aggregation.AggregatedCodePrecedence | src/main/java/edu/isi/bmkeg/skm/triage/cleartk/cr/TriageScoreCollectionReader.java:29-32 | a run's aggregated code is "in" if any row is "in", otherwise "out" if any row is "out", otherwise the first row's code |
| Aggregation.AggregatedCodeOrderIndependent | src/main/java/edu/isi/bmkeg/skm/triage/cleartk/cr/TriageScoreCollectionReader.java:298-306 | for rows coded "in", "out" or "unknown", any permutation of a run has the same aggregated code |
| Aggregation.RunEnd | src/main/java/edu/isi/bmkeg/skm/triage/cleartk/cr/TriageScoreCollectionReader.java:296-307 | the run starting at a row ends at the first later row with a different id, or at the end; every row in between shares the id |
| Aggregation.AggregateFromRuns | src/main/java/edu/isi/bmkeg/skm/triage/cleartk/cr/TriageScoreCollectionReader.java:288-310 | every item produced from a run boundary on collapses a maximal run of equal ids that starts at or after that boundary |
| Aggregation.AggregateRuns | src/main/java/edu/isi/bmkeg/skm/triage/cleartk/cr/TriageScoreCollectionReader.java:293-294 | every item collapses a maximal run, and its id and text are those of the run's first row |
| Aggregation.Merge | src/main/java/edu/isi/bmkeg/skm/triage/cleartk/cr/TriageScoreCollectionReader.java:300-303 | one step of the inner loop: the merged code is the accumulated or the new code; it is "in" exactly when either is "in", and "out" exactly when neither is "in" and one is "out" |
| Aggregation.Collapse | src/main/java/edu/isi/bmkeg/skm/triage/cleartk/cr/TriageScoreCollectionReader.java:293-309 | a run collapses to its first row's id and text, with code "in" if any row is "in", else "out" if any row is "out", else the first row's code |
| Aggregation.AggregateFrom | src/main/java/edu/isi/bmkeg/skm/triage/cleartk/cr/TriageScoreCollectionReader.java:288-310 | from a row on, there is at most one item per remaining row, none exactly at the end, and the first item carries that row's id and text |
| Aggregation.Aggregate | src/main/java/edu/isi/bmkeg/skm/triage/cleartk/cr/TriageScoreCollectionReader.java:288-310 | the reader yields at most one item per row, and none exactly when the query returns no rows |
| Aggregation.KeepDecided | src/main/java/edu/isi/bmkeg/skm/triage/cleartk/cr/TriageScoreCollectionReader.java:265-274 | the skipUnknowns loop never yields more items than it is given, and each one it yields is "in" or "out" |
| Aggregation.Emitted | src/main/java/edu/isi/bmkeg/skm/triage/cleartk/cr/TriageScoreCollectionReader.java:265-274 | the reader emits at most one item per row; with skipUnknowns every item is "in" or "out", without it every aggregated item is emitted |
| Aggregation.AggregateCountsDistinctIds | src/main/java/edu/isi/bmkeg/skm/triage/cleartk/cr/TriageScoreCollectionReader.java:195 | over rows sorted by id, as the ORDER BY makes them, there are exactly as many items as distinct citation ids |
| Aggregation.KeepDecidedCounts | src/main/java/edu/isi/bmkeg/skm/triage/cleartk/cr/TriageScoreCollectionReader.java:265-274 | the skipUnknowns filter keeps only "in" and "out" items and keeps all of them; its length is the input length minus the undecided items |
| Aggregation.KeepDecidedAppend | src/main/java/edu/isi/bmkeg/skm/triage/cleartk/cr/TriageScoreCollectionReader.java:268-272 | the filter distributes over concatenation, so kept items keep their relative order |
| Aggregation.KeepDecidedOfDecided | src/main/java/edu/isi/bmkeg/skm/triage/cleartk/cr/TriageScoreCollectionReader.java:270 | a sequence of only "in" and "out" items passes the filter unchanged |
| Aggregation.SkipUnknownsKeepsInOutCounts | src/test/java/edu/isi/bmkeg/skm/triage/cleartk/cr/TriageScoreCollectionReaderTest.java:201-203 | with skipUnknowns every emitted code is "in" or "out"; the "in" and "out" counts equal those without it, and no other item remains |
| Aggregation.SkipUnknownsCount | src/test/java/edu/isi/bmkeg/skm/triage/cleartk/cr/TriageScoreCollectionReaderTest.java:97-99 | with skipUnknowns over sorted rows, the number of items is the number of distinct ids minus those whose aggregated code is neither "in" nor "out" |
| ScoreReader.ComputeAggregatedScore | src/main/java/edu/isi/bmkeg/skm/triage/cleartk/cr/TriageScoreCollectionReader.java:288-310 | once eof is set it returns null and changes nothing; otherwise it consumes exactly one maximal run of equal ids, returns the first row's id and text with the run's aggregated code, and advances the functional item list by that one item |
| ScoreReader.FoldRun | src/main/java/edu/isi/bmkeg/skm/triage/cleartk/cr/TriageScoreCollectionReader.java:296-307 | the inner loop stops on the first row with another id or at the end; the code it computes is the precedence fold of the run's rows |
| ScoreReader.MoveNext | src/main/java/edu/isi/bmkeg/skm/triage/cleartk/cr/TriageScoreCollectionReader.java:265-274 | after moveNext, the lookahead followed by the unread items is exactly the filtered items that were pending at the cursor |
| ScoreReader.Initialize | src/main/java/edu/isi/bmkeg/skm/triage/cleartk/cr/TriageScoreCollectionReader.java:207-208 | priming the cursor and the lookahead leaves exactly the items the functional model emits for the rows |
| ScoreReader.HasNext | src/main/java/edu/isi/bmkeg/skm/triage/cleartk/cr/TriageScoreCollectionReader.java:248-250 | hasNext is true exactly when some item remains to be handed out |
| ScoreReader.GetNext | src/main/java/edu/isi/bmkeg/skm/triage/cleartk/cr/TriageScoreCollectionReader.java:221-243 | getNext hands out the first remaining item, with "" for a NULL text and the text otherwise, plus its id and code; the rest of the remaining items is what is left after it |
| ScoreReader.ReadOne | src/main/java/edu/isi/bmkeg/skm/triage/cleartk/cr/TriageScoreCollectionReader.java:225-235 | one getNext call by the consumer yields the document of the first item still to come, and what remains afterwards is exactly the rest of those items |
| ScoreReader.Drain | src/main/java/edu/isi/bmkeg/skm/triage/cleartk/cr/TriageScoreCollectionReader.java:221-250 | pulling until hasNext is false yields one document per remaining item, in order |
| ScoreReader.ReadAll | src/main/java/edu/isi/bmkeg/skm/triage/cleartk/cr/TriageScoreCollectionReader.java:205-250 | the reader driven from initialize to exhaustion sees exactly the documents of the functional model's items, in order: group by run, fold the codes, then filter when skipUnknowns is set |
| ScoreReader.SelectedRows | src/main/java/edu/isi/bmkeg/skm/triage/cleartk/cr/TriageScoreCollectionReader.java:174-192 | with no triage corpus name, or an empty one, a row is returned exactly when some score whose target corpus is the named one projects onto it; with a non-empty name, exactly when some score whose target corpus and triage corpus are both the named ones does |
| ScoreReader.EmptyTriageNameReadsAllCorpora | src/main/java/edu/isi/bmkeg/skm/triage/cleartk/cr/TriageScoreCollectionReader.java:185 | a null and an empty triage corpus name select the same rows: every score of the target corpus |
| ScoreReader.TriageNameNarrows | src/main/java/edu/isi/bmkeg/skm/triage/cleartk/cr/TriageScoreCollectionReader.java:185-192 | naming a triage corpus returns a subset of the unrestricted rows, each from a score of that corpus |
| TriageDao.Ascending | src/main/java/edu/isi/bmkeg/skm/triage/dao/vpdmf/TriageDaoExImpl.java:193-194 | the sorted key list holds exactly the keys of the map, each once |
| TriageDao.AscendingSorted | src/main/java/edu/isi/bmkeg/skm/triage/dao/vpdmf/TriageDaoExImpl.java:194 | the key list is strictly ascending |
| TriageDao.AscendingUnique | src/main/java/edu/isi/bmkeg/skm/triage/dao/vpdmf/TriageDaoExImpl.java:194 | any strictly ascending listing of the keys is that list, so the PMID order is fully determined |
| TriageDao.InsertFor | src/main/java/edu/isi/bmkeg/skm/triage/dao/vpdmf/TriageDaoExImpl.java:209-254 | an insert carries the triage and target corpus names, the citation's id and label, the map's code for the PMID, inScore "-1", and the one timestamp as both classify and scored timestamp |
| TriageDao.InsertsOf | src/main/java/edu/isi/bmkeg/skm/triage/dao/vpdmf/TriageDaoExImpl.java:204-254 | the log is never longer than the PMID list; each insert is the insert of a listed PMID with exactly one citation, and each listed PMID with exactly one citation has its insert in the log |
| TriageDao.FirstAmbiguous | src/main/java/edu/isi/bmkeg/skm/triage/dao/vpdmf/TriageDaoExImpl.java:206-207 | the stopping point has no ambiguous PMID before it, and the PMID at it, if any, has more than one citation |
| TriageDao.InsertInOrder | src/main/java/edu/isi/bmkeg/skm/triage/dao/vpdmf/TriageDaoExImpl.java:195-256 | the loop inserts exactly the reference inserts of the PMIDs before the first ambiguous one, and ends with the ambiguity error exactly when there is one, naming that PMID; the count equals the number of inserts |
| TriageDao.AddTriageDocumentsToCorpus | src/main/java/edu/isi/bmkeg/skm/triage/dao/vpdmf/TriageDaoExImpl.java:177-261 | the call processes the map's PMIDs in ascending order; it is the loop above on that order, an error names a PMID of the map with several citations, and the count is at most the map size |
| TriageDao.InsertsOfCount | src/main/java/edu/isi/bmkeg/skm/triage/dao/vpdmf/TriageDaoExImpl.java:204-231 | over distinct PMIDs, the number of inserts equals the number of PMIDs with exactly one citation |
| TriageDao.CompletedCountsMatched | src/main/java/edu/isi/bmkeg/skm/triage/dao/vpdmf/TriageDaoExImpl.java:231 | a call that completes makes, and counts, one insert per PMID of the map with exactly one citation |
| TriageDao.CompletesIffNoAmbiguity | src/main/java/edu/isi/bmkeg/skm/triage/dao/vpdmf/TriageDaoExImpl.java:204-208 | the call completes exactly when no PMID of the map has more than one citation |
| TriageDao.AmbiguityKeepsOnlySmallerPmids | src/main/java/edu/isi/bmkeg/skm/triage/dao/vpdmf/TriageDaoExImpl.java:193-207 | when some PMID of the map has several citations the call stops at an ambiguous PMID, and every insert made before it belongs to a smaller PMID, so no larger PMID was processed |
| TriageDao.DeleteFeatures | src/main/java/edu/isi/bmkeg/skm/triage/dao/vpdmf/TriageDaoExImpl.java:116-122 | the first statement leaves every other table alone; it empties the feature table when the pair has a score row and leaves it unchanged otherwise |
| TriageDao.DeleteScoresAndViews | src/main/java/edu/isi/bmkeg/skm/triage/dao/vpdmf/TriageDaoExImpl.java:129-137 | the second statement removes a score row exactly when it belongs to the pair and has a view row, and removes a view row exactly when a score row of the pair has its id |
| TriageDao.DeleteExistingTriageScores | src/main/java/edu/isi/bmkeg/skm/triage/dao/vpdmf/TriageDaoExImpl.java:107-141 | corpora are untouched; every feature row, of any pair, is lost once the pair has a score row, and all are kept otherwise; rows are only ever removed; score rows of other pairs and view rows of other ids survive; a pair score row survives only when it had no view row |
| TriageDao.DeleteRemovesViewBackedScores | src/main/java/edu/isi/bmkeg/skm/triage/dao/vpdmf/TriageDaoExImpl.java:129-137 | when every pair score row has its view row, no pair score row is left |
| TriageDao.DeleteIdempotent | src/main/java/edu/isi/bmkeg/skm/triage/dao/vpdmf/TriageDaoExImpl.java:107-141 | running the deletion a second time changes nothing |
| TriageDao.ListByName | src/main/java/edu/isi/bmkeg/skm/triage/dao/vpdmf/TriageDaoExImpl.java:150-153 | the list query returns exactly the corpora carrying the name |
| TriageDao.FindTriageCorpusByName | src/main/java/edu/isi/bmkeg/skm/triage/dao/vpdmf/TriageDaoExImpl.java:148-161 | a corpus found carries the name and is the only table row that does |
| TriageDao.ListByNameSingle | src/main/java/edu/isi/bmkeg/skm/triage/dao/vpdmf/TriageDaoExImpl.java:154 | the list has size one exactly when a single row carries the name |
| TriageDao.FindByNameExactlyOne | src/main/java/edu/isi/bmkeg/skm/triage/dao/vpdmf/TriageDaoExImpl.java:153-157 | the lookup gives a corpus, rather than null, exactly when one row carries the name, and then it gives that row |
| FilteredLineHandler.ViewUri | src/main/java/edu/isi/bmkeg/skm/triage/cleartk/cr/filteredLineReader/FilteredLineHandler.java:66 | the URI is the file URI, then "#", then the id |
| FilteredLineHandler.HandleLine | src/main/java/edu/isi/bmkeg/skm/triage/cleartk/cr/filteredLineReader/FilteredLineHandler.java:57-71 | fails exactly when the delimiter does not occur or the line is empty; otherwise the id is the prefix before the first occurrence and holds no occurrence of a non-empty delimiter, and the text starts one character after it: for a one-character delimiter id + delimiter + text is the line, for a longer one the text starts with the delimiter minus its first character |
| FilteredLineHandler.HandleLineOfParts | src/main/java/edu/isi/bmkeg/skm/triage/cleartk/cr/filteredLineReader/FilteredLineHandler.java:60-61 | a line built from an id without the one-character delimiter, the delimiter and a text is handled back into that id, text and URI |
| FilteredLineHandler.FirstOccurrencePrefix | src/main/java/edu/isi/bmkeg/skm/triage/cleartk/cr/filteredLineReader/FilteredLineHandler.java:60 | the prefix before the first occurrence of a non-empty delimiter does not contain it |
| JavaStrings.IndexOf | src/main/java/edu/isi/bmkeg/skm/triage/cleartk/cr/filteredLineReader/FilteredLineHandler.java:60 | indexOf is -1 exactly when the pattern does not occur; otherwise it is an occurrence with none before it |
| JavaStrings.Split | src/main/java/edu/isi/bmkeg/skm/triage/bin/mgiTools/ImportOAPapersFromPmidSet.java:93 | split gives the whole string when the separator is absent; otherwise it gives the separator-free pieces in order, with only trailing empty pieces dropped |
| JavaStrings.SplitAllOfJoin | src/main/java/edu/isi/bmkeg/skm/triage/bin/mgiTools/ImportOAPapersFromPmidSet.java:119 | splitting separator-free pieces joined by the separator gives them back, empty ones included |
| JavaStrings.JoinedFields | src/main/java/edu/isi/bmkeg/skm/triage/bin/mgiTools/ImportOAPapersFromPmidSet.java:193 | split gives back separator-free joined pieces whose last piece is not empty |
| OaImport.ReadPmids | src/main/java/edu/isi/bmkeg/skm/triage/bin/mgiTools/ImportOAPapersFromPmidSet.java:81-84 | the reading stops at the first line that does not parse, and only there; the set is no larger than the number of lines |
| OaImport.ReadPmidsContents | src/main/java/edu/isi/bmkeg/skm/triage/bin/mgiTools/ImportOAPapersFromPmidSet.java:81-84 | a PMID is in the set exactly when some line read before the stop parses to it |
| OaImport.DuplicatePmidLinesCollapse | src/main/java/edu/isi/bmkeg/skm/triage/bin/mgiTools/ImportOAPapersFromPmidSet.java:82-83 | repeating a line of the PMID file leaves the set unchanged |
| OaImport.BuildMap | src/main/java/edu/isi/bmkeg/skm/triage/bin/mgiTools/ImportOAPapersFromPmidSet.java:118-129 | every line's entry key is in the map, and every mapping comes from some line |
| OaImport.BuildMapLastWins | src/main/java/edu/isi/bmkeg/skm/triage/bin/mgiTools/ImportOAPapersFromPmidSet.java:105 | a key maps to the value of the last line carrying it, so later lines overwrite earlier ones |
| OaImport.LastHit | src/main/java/edu/isi/bmkeg/skm/triage/bin/mgiTools/ImportOAPapersFromPmidSet.java:95-108 | the right-to-left scan finds the rightmost "PMC" field whose next field parses, passing over a last field or one followed by an unparsable field; it reports none exactly when no such field exists |
| OaImport.PmcEntry | src/main/java/edu/isi/bmkeg/skm/triage/bin/mgiTools/ImportOAPapersFromPmidSet.java:93-108 | a PMC map line gives no entry exactly when none of its comma fields is a hit; otherwise it gives (parsed next field, "PMC" field) of the rightmost hit |
| OaImport.PmcEntryOfFields | src/main/java/edu/isi/bmkeg/skm/triage/bin/mgiTools/ImportOAPapersFromPmidSet.java:92-106 | for a line joined from comma-free fields ending in a non-empty one, the entry is that of the rightmost hit among those very fields |
| OaImport.ReadPmcMap | src/main/java/edu/isi/bmkeg/skm/triage/bin/mgiTools/ImportOAPapersFromPmidSet.java:89-109 | the first line is skipped; every mapping comes from a later line's entry, each later line with an entry has its key mapped, and every PMC id starts with "PMC" |
| OaImport.LocationEntry | src/main/java/edu/isi/bmkeg/skm/triage/bin/mgiTools/ImportOAPapersFromPmidSet.java:119-127 | a location line contributes an entry exactly when its tab split has three fields; the entry maps the third field to the first, and neither contains a tab |
| OaImport.LocationEntryOfFields | src/main/java/edu/isi/bmkeg/skm/triage/bin/mgiTools/ImportOAPapersFromPmidSet.java:119-127 | the line loc TAB mid TAB id, with tab-free parts and a non-empty id, maps id to loc |
| OaImport.TrailingEmptyFieldIgnored | src/main/java/edu/isi/bmkeg/skm/triage/bin/mgiTools/ImportOAPapersFromPmidSet.java:119-123 | a line whose third field is empty loses it to split and contributes nothing |
| OaImport.ReadPdfLocations | src/main/java/edu/isi/bmkeg/skm/triage/bin/mgiTools/ImportOAPapersFromPmidSet.java:118-129 | every mapping comes from a three-field line, and every three-field line's PMC id is mapped |
| OaImport.ReadInputs | src/main/java/edu/isi/bmkeg/skm/triage/bin/mgiTools/ImportOAPapersFromPmidSet.java:67-150 | the PMIDs are those read; an unparsable PMID line leaves both maps empty; otherwise a present PMC or PDF file gives the map read from it and an absent one an empty map |
| OaImport.HitsNested | src/main/java/edu/isi/bmkeg/skm/triage/bin/mgiTools/ImportOAPapersFromPmidSet.java:158-172 | PDF hits are no more than PMC hits, which are no more than the PMIDs |
| OaImport.VisitKeepsReport | src/main/java/edu/isi/bmkeg/skm/triage/bin/mgiTools/ImportOAPapersFromPmidSet.java:161-171 | one loop iteration keeps the counters and the FTP locations in step with the visited PMIDs |
| OaImport.Visit | src/main/java/edu/isi/bmkeg/skm/triage/bin/mgiTools/ImportOAPapersFromPmidSet.java:161-171 | one loop iteration bumps the PMC count exactly when the PMID has a PMC id, bumps the PDF count only then and exactly when that id has a PDF location, in which case it stores the FTP prefix followed by the location under the PMID, and leaves every other PMID's location untouched |
| OaImport.JoinLocations | src/main/java/edu/isi/bmkeg/skm/triage/bin/mgiTools/ImportOAPapersFromPmidSet.java:152-172 | the PMC count is the number of PMIDs with a PMC id; the FTP locations are keyed by exactly the PMIDs whose PMC id has a PDF location, each valued as the FTP prefix followed by that location; the PDF count is their number; and pdfCount <= pmcCount <= number of PMIDs |
| OaImport.ReadSetOfStrings | src/main/java/edu/isi/bmkeg/skm/triage/bin/mgiTools/ImportOAPapersFromPmidSet.java:192-199 | the set holds exactly the fields of the ':' split; no member contains ':', and every non-empty ':'-separated piece is a member |
| OaImport.ReadSetOfStringsOfJoin | src/main/java/edu/isi/bmkeg/skm/triage/bin/mgiTools/ImportOAPapersFromPmidSet.java:192-199 | reading a ':'-joined list of colon-free pieces that ends in a non-empty piece gives exactly the set of those pieces |

## Left out

- The UIMA/ClearTK scaffolding of the reader is not modelled: the JCas, the `TriageScore` annotation object, the `load` overloads, `close` and `getProgress`. A document is modelled as the triple that `getNext` stores.
- JDBC and the ORM are not modelled.
  - The query result is a `seq<Row>`, and the SQL text is not modelled beyond its triage-corpus condition and its ORDER BY. The ORDER BY appears as the `SortedById` precondition of the counting lemmas.
  - A cursor failure mid-read is not modelled.
  - The unescaped concatenation of corpus names into SQL is out of scope.
- The DAO's list queries are abstract: `TriageDao.Lookup` for the PMID query, and the TriageCorpus name query as name equality over the table.
- The insert query is not modelled beyond the log of `ScoreInsert` records it receives.
- Logging, the wall-clock timing, the progress message every 50 inserts, `prettyPrintSQL`, and the row counts that `deleteExistingTriageScores` only logs are all left out.
- `findTriageCorpusByName` returns the listed corpus itself. The ORM re-fetch by id is not modelled.
- File reading, the command-line parser and the `DigitalLibraryEngine` upload of `ImportOAPapersFromPmidSet` are left out. The files are given as line sequences, and an absent optional file as `None`.
- `new Integer(s)` is not modelled beyond an abstract partial parse. Its grammar and 32-bit range are left out.
- `File.toURI` and the `URISyntaxException` check of `FilteredLineHandler` are left out. The file URI is an opaque string.
- `ScoreReader.SelectedRows` returns the rows as a set. The DISTINCT and ORDER BY arrangement into a sequence is not derived from the facts.
- `OaImport.JoinLocations` visits the PMIDs in an arbitrary order, as iteration over a HashSet does. It does not model `pmidsWithPdfs` or the printed counts.
- ScoreReader.GetNext: calling `getNext` on an exhausted reader dereferences a null `currentAs` in Java and surfaces as a `CollectionException` (`cleartk/cr/TriageScoreCollectionReader.java:225-239`); the precondition `HasNext(s)` excludes that call instead of modelling the exception, since the collection-reader protocol only calls `getNext` after `hasNext` is true.
- FilteredLineHandler.HandleLine: strings are sequences of Unicode scalar values, not UTF-16 code units. When the delimiter starts with a supplementary character, `indexOf(delimiter) + 1` at `cleartk/cr/filteredLineReader/FilteredLineHandler.java:61` cuts inside its surrogate pair, while the model skips the whole character.
- TriageDao.AddTriageDocumentsToCorpus: returns the number of inserts, which the Java method (void) only logs at `dao/vpdmf/TriageDaoExImpl.java:259`.
- Java `int` and `long` overflow is not modelled. The counters and ids are unbounded integers.
- The remaining repository is not part of this model: the cross-validation pipeline, `GenotypeFeatureFunction`, `DestroyTriageDatabase` and the integration tests that depend on fixture databases.
