# kernel-lore search core: a verified model

This project models the algorithms and protocols of kernel-lore-mcp, a search server over mailing-list
archives written in Rust. Nearly everything in it is a fast derived tier that must agree with a slow source
of truth; the theorems here say when it does.

Run `dafny verify dfyconfig.toml` to check everything.

## How it is organised

| file | component |
|---|---|
| `base.dfy`, `sorting.dfy`, `text.dfy` | shared types, stable sorting and bytewise order, line files |
| `qgram.dfy`, `trigram.dfy`, `patch_search.dfy` | the q-gram argument, the trigram segment, the confirm step |
| `store.dfy`, `ingest.dfy`, `ingest_shard.dfy`, `scan.dfy` | the append-only body store, the crash-safe ingest, the corpus scan |
| `whitespace.dfy`, `tier_ids.dfy`, `visible.dfy`, `over_gate.dfy` | squeezed message ids, ids across the tiers, what a scan finds of a saved commit, when over.db is trusted |
| `thread.dfy`, `tid.dfy`, `tid_rebuild.dfy` | thread queries, thread ids, propagation to cover letters |
| `over.dfy`, `over_scan.dfy`, `file_index.dfy`, `migration.dfy` | over.db as an index, its queries, its file index after an upgrade, its schema migration |
| `bm25.dfy` | the reload protocol of the BM25 readers |
| `glob.dfy`, `maintainers.dfy`, `sync.dfy` | globs compiled to regular expressions, section lookup, wildcards and the manifest diff |
| `path_tier.dfy`, `embedding.dfy` | the path vocabulary, nearest-vector search |
| `router.dfy`, `dispatch.dfy` | rank fusion, and which queries lose hits to the cut behind it |

Code that updates state in place is modelled by classes and methods with loops, proved equal to specification
functions; the theorems are lemmas about those functions. Crashes and interleavings are step machines.

## Premises

- A process crash keeps the bytes written; the last write may be partial. Power failure is not modelled.
- One writer at a time holds the writer lock; every ingest call has a fresh run id. `Ingest.RenameKeepsFilesExactly`
  says what a reused one costs.
- Message frames (zstd) and bitmaps (roaring) are self-delimiting encodings (`Base.SelfDelimiting`;
  `Base.CountedIsSelfDelimiting` shows that the premise can be met). The key map is a sorted map, over.db a set of
  tables, a BM25 reload one atomic step, the regular-expression engine its published semantics.
- SQL leaves the order of rows with equal dates open; the queries are specified up to such ties.
- Message ids are UTF-8 text. The Parquet files' modification times follow the order of their renames.
- Scores of rank fusion are real numbers. Embedding scores are an ordered type with a lowest not-a-number.
- No query deadline fires.

## Where the code does not do what is expected of it

Each item is proved, with the exact condition where there is one.

- Fuzzy search is complete exactly below the needle's cover (`Trigram.FuzzySearchMissesNothingExactly`), over UTF-8
  text as well (`Trigram.TextSearchMissesNothingExactly`). The usual condition of more than `3k` trigrams is
  sufficient and not necessary.
- Exact search finds nothing for a needle of three or more bytes without an all-ASCII window
  (`Trigram.ExactSearchMissesNothingExactly` for `candidate_docids`, `Trigram.FuzzySearchMissesNothingExactly` with
  `k = 0` for the query, which returns every document for a shorter needle).
- `mid.tsv` and `vocab.txt` lose carriage returns at line ends (`Embedding.MidsReadBackExactly`,
  `PathTier.VocabRoundTrip`). `docs.tsv` would too (`Trigram.ReopenServesExactly`), but the ids the ingest writes to
  it have none (`TierIds.SegmentsInUseServe`).
- The diagnostic trigram iterator decodes keys shifted by eight bits (`Trigram.IteratedKeyIsShifted`).
- The thread cap counts repetitions: it returns the whole thread exactly if it reaches the last first occurrence
  (`Thread.WholeThreadExactly`), which for a plain chain of `n` messages takes `2 n - 2`
  (`Thread.PlainThreadIsWholeExactly`). The empty message id joins threads that have nothing to do with each other
  (`Thread.EmptyIdJoinsStrangers`, `Thread.CollectedIsComponentExactly`).
- A message and its parent get different thread ids exactly when they are on a reply cycle, or when the parent has no
  other parent and its fallback is not its own id (`Tid.ParentAgreesExactly`, `Tid.CycleMemberGetsItsPredecessor`).
- A store writer that lives on after its own failed write has a wrong position (`Store.TornWriteWithoutReopen`), and
  its next pointer reads what the failed write left (`Store.NextPointerReadsTheTornFrame`).
- The comments promise that the next clean ingest reconciles a failed over.db write. It writes what it walks itself,
  and the saved tip keeps it from walking the lost commits (`OverGate.FailedWriteIsMadeUpExactly`,
  `OverGate.NeverWalkedAgain`); yet it makes the gate trust over.db again (`OverGate.CleanRunHidesTheLoss`,
  `OverGate.FailedSecondRunIsHidden`). The gate also trusts a missing marker, so a failed first run goes unnoticed
  (`OverGate.FailedFirstRunIsTrusted`); `OverGate.WronglyTrustedExactly` says when it is wrong.
- A crash between saving the tip and bumping the generation is not repaired by a re-run on the same head
  (`Ingest.CrashBeforeBumpIsSilent`). Scans see the new files all the same (`Visible.SavedCommitIsScanned`); a cached
  BM25 reader, which reloads only when the generation has advanced (`Bm25.BmReader.MaybeReload`), is not told.
- The metadata row keeps the raw message id, the other tiers drop its white space, so the row's id finds the message
  there exactly if it has none (`TierIds.RowIdServesExactly`, `Whitespace.SqueezeKeepsExactly`).
- The file index of over.db has no readiness flag: on an old database a file query finds exactly the rows inserted
  since and those a backfill has come past (`FileIndex.FileQueryFindsExactly`, `OverScan.UnfilledFileIndexMisses`).
- The sequential scan returns a row for limit 0 (`OverScan.ScanSequential`). A query by message id filters the freshest
  cross-post only (`OverScan.CrossPostIsMissedExactly`), and so does patch search when over.db knows the candidate
  (`PatchSearch.CandidateIsHydratedExactly`).
- The schema migration stops at the first rowid gap wider than its window and then drops the table
  (`Migration.WalkReachesExactly`, `Migration.GapLosesRows`).
- A glob with a non-ASCII byte does not match even a shortest path it denotes (`Glob.MeaningKeptExactly`).
- `path_matches` documents `[...]` classes; the matcher takes brackets literally and so has the documented meaning
  exactly for patterns without a closed bracket (`Sync.DocumentedMeaningExactly`, `Sync.BracketsAreLiteral`).
- The router cuts before it filters. Words alone, and queries without words, lose nothing by it, except dates
  alone without an index; words joined with a patch substring or another predicate can lose hits under a filter
  (`Dispatch.QueryIsLosslessExactly`, `Dispatch.LosingQueriesExactly`; for one list `Router.CutThenFilterExactly`). The
  BM25 tier searches within the list but fetches rows by id, so a cross-post may come back with another list.

## Model

| member | source | states |
|---|---|---|
| `QGram.PackInjective` | src/trigram.rs:352-358 | Two all-ASCII three-byte windows pack to the same 21-bit number only if they are equal. |
| `QGram.TrigramsMean` | src/trigram.rs:345-380 | The trigrams of a text are the big-endian numbers of its three-byte windows whose bytes are all below 128, and no others. |
| `QGram.EditsLoseFewTrigrams` | src/trigram.rs:251-316 | The q-gram lemma with a context: one edit costs at most three distinct trigrams, counted across the point reached so far. |
| `QGram.SharedTrigrams` | src/trigram.rs:275-285 | A text with a substring within `k` edits of the needle keeps at least `n - 3k` of the needle's `n` distinct ASCII trigrams. |
| `QGram.TrigramsWithinCover` | src/trigram.rs:282-285 | The greedy cover of the needle (fewest byte damages that spoil every ASCII window) is at least a third of its distinct trigrams. |
| `QGram.WipingNeedsCover` | src/trigram.rs:282-285 | A text near the needle that shares none of its trigrams is at least `Cover(needle)` edits away. |
| `QGram.SpoilSharesNoTrigram` | src/trigram.rs:282-285 | A needle spoiled with a byte it does not have, or with a non-ASCII one, shares no trigram with itself. |
| `QGram.SpoilIsNear` | src/trigram.rs:282-285 | The spoiled needle is within `Cover(needle)` edits of the needle, whatever byte spoils it, so the cover is tight. |
| `QGram.SharingIsGuaranteedExactly` | src/trigram.rs:282-285 | Every text within `k` edits of the needle shares a trigram with it if and only if `k` is below the needle's cover. |
| `Trigram.Key` | src/trigram.rs:345-350 | The index key is three bytes long, most significant byte first. |
| `Trigram.KeyOrder` | src/trigram.rs:133-149 | Bytewise order of the three-byte keys is the order of the packed numbers, so the map builder is fed in strictly ascending order. |
| `Trigram.SegmentBuilder.constructor` | src/trigram.rs:53-64 | A new builder holds no document and no posting. |
| `Trigram.SegmentBuilder.Add` | src/trigram.rs:77-89 | `add` refuses an id with a line feed or a full document space and otherwise gives the patch the next document number and adds that number to the posting of each of its trigrams. |
| `Trigram.SegmentBuilder.Finalize` | src/trigram.rs:94-160 | `finalize` writes nothing for an empty builder and otherwise files from which every posting and every document name can be looked up; it fails exactly when the encoded postings no longer fit 64-bit offsets. |
| `Trigram.WritePostings` | src/trigram.rs:133-149 | The loop over the sorted postings lays them out one behind another: key `i` points at the sum of the sizes before it. |
| `Trigram.FrozenWhenLaid` | src/trigram.rs:94-160 | When the loop is through, every trigram's offset decodes to its own bitmap and trigrams of no patch are absent. |
| `Trigram.PostingReadsBack` | src/trigram.rs:199-206 | Looking a trigram up in a frozen segment gives exactly the documents that hold it. |
| `Trigram.ReopenServesExactly` | src/trigram.rs:170-189 | A reopened segment serves what was added if and only if no message id ends in a carriage return. |
| `Trigram.IteratedKeyIsShifted` | src/trigram.rs:325-343 | The diagnostic iterator yields the key shifted left by eight bits, so it is right for the all-zero trigram only. |
| `Trigram.CandidateDocids` | src/trigram.rs:208-237 | The intersection loop returns exactly the documents that hold every ASCII window of the needle, and none when the needle has no such window. |
| `Trigram.ContainsImpliesMatching` | src/trigram.rs:208-237 | A document whose patch contains the needle is among the candidates of a needle with an ASCII window. |
| `Trigram.ExactSearchMissesNothingExactly` | src/trigram.rs:208-237 | For all contents of an index, the exact path misses no document containing the needle if and only if the needle has an all-ASCII window. |
| `Trigram.AddOnes` | src/trigram.rs:287-299 | Adding one bitmap raises the count of exactly its documents by one. |
| `Trigram.CountShared` | src/trigram.rs:275-299 | The tally loop counts for every document how many of the needle's trigrams it holds. |
| `Trigram.CandidatesForSubstringFuzzy` | src/trigram.rs:251-316 | The query returns every document for a needle without windows, the exact path's documents for no edits, and otherwise the best 4096 documents at or above the threshold (most shared trigrams, then lowest number), sorted by name. |
| `Trigram.CapKeepsTheBest` | src/trigram.rs:301-315 | When the cap cuts, 4096 documents are kept; no dropped document shares more trigrams with the needle than a kept one, and at an equal number the kept one has the lower document number. |
| `Trigram.ReturnedShareEnough` | src/trigram.rs:282-315 | For `k > 0` every id returned belongs to a document that shares at least one and at least `n - 3k` of the `n` trigrams of the needle; up to 4096 such documents are all returned. |
| `Trigram.CapIs4096` | src/trigram.rs:301-315 | The query returns exactly as many ids as qualify, but never more than 4096. |
| `Trigram.QualifyingIsReturned` | src/trigram.rs:301-315 | While the cap does not cut, every document at or above the threshold is returned. |
| `Trigram.NearImpliesQualifying` | src/trigram.rs:251-300 | A document with a substring within `k` edits reaches the threshold `max(1, n - 3k)` while `k` is below the needle's cover. |
| `Trigram.FuzzySearchMissesNothingExactly` | src/trigram.rs:251-316 | For all contents of an index below the cap, as byte strings, and any `k`, 0 included, the search misses no document within `k` edits if and only if `k` is below the needle's cover, or the needle has fewer than three bytes, or it has no trigram and `k > 0`. |
| `Trigram.SpoiledDocumentIsMissed` | src/trigram.rs:282-285 | Over byte strings: with `k` at the cover or above there is a document within `k` edits that is not returned. |
| `Trigram.TextSearchMissesNothingExactly` | src/trigram.rs:251-316 | The same if-and-only-if over all indexes of UTF-8 text, for every needle that is text and lacks some ASCII character. |
| `Whitespace.AsciiSwapKeepsText` | src/parse.rs:40 | Changing ASCII characters for ASCII characters keeps UTF-8 text UTF-8 text, so the missed document is one the ingest can index. |
| `Trigram.ManyTrigramsSuffice` | src/trigram.rs:275-285 | Strictly more than `3k` distinct trigrams put `k` below the cover. |
| `Trigram.ManyTrigramsNotNeeded` | src/trigram.rs:275-285 | The documented condition is not necessary: a needle with one trigram that no single edit can wipe out. |
| `PatchSearch.FindIsOccurs` | src/reader.rs:2589-2635 | The substring test on a body is occurrence as a contiguous block. |
| `PatchSearch.ParallelConfirm` | src/reader.rs:2589-2635 | The 256-row chunks with early exit return what going row by row returns, errors included. |
| `PatchSearch.ConfirmIsFilterTake` | src/reader.rs:2589-2635 | With readable bodies the confirmed rows are the first `limit` of the given order whose body holds the needle. |
| `PatchSearch.ConfirmFailsExactly` | src/reader.rs:2589-2635 | The confirm step fails if and only if an unreadable row comes before `limit` rows are confirmed. |
| `PatchSearch.CollectCandidates` | src/reader.rs:2646-2726 | The union over all segments is exactly the documents any of them offers, or an error when it reaches 100,000 ids. |
| `PatchSearch.HydrateCandidates` | src/reader.rs:2136-2187 | Every candidate is stood for by over.db's row if it has one, else by its corpus row, and kept if that row is in the wanted list; each once, in no particular order. |
| `PatchSearch.CandidateIsHydratedExactly` | src/reader.rs:2145-2161 | A candidate with a corpus row in the wanted list is lost if and only if over.db knows it by a row of another list. |
| `PatchSearch.PatchSearch` | src/reader.rs:2093-2128 | `patch_search` refuses 100,000 candidates or more, and otherwise hydrates, sorts and confirms: of two results with dates the earlier one has the later or the same date, and an undated one never comes before a dated one unless that has the lowest date there is. |
| `PatchSearch.ConfirmSorted` | src/reader.rs:2124-2127 | Confirming keeps the order of the sorted candidates. |
| `PatchSearch.SearchReturnsTheNewestMatches` | src/reader.rs:2093-2128 | With or without over.db: every result is a hydrated candidate whose body holds the needle, in descending order of the date fields; a dated match that is left out is no newer than any dated result; none is left out below the limit. |
| `PatchSearch.PatchHolderIsCandidate` | src/reader.rs:2646-2726 | A patch that holds the needle makes its message a candidate, while the 4096 cap of its segment does not cut. |
| `Store.RollFailsExactly` | src/store.rs:185-200 | A roll fails exactly at the id limit or when the file system refuses the new file; it never meets an existing one. |
| `Store.AppendKeepsAll` | src/store.rs:154-178 | An append keeps the file invariants, gives a pointer apart from all earlier ones, and the new pointer reads back its body. |
| `Store.AppendPointsAt` | src/store.rs:154-178 | An append goes to the active segment at the writer's position, or to offset 0 of the next one if 1 GiB is reached; what it returns is that place and the length of the frame. |
| `Store.LegacyPointerReads` | src/store.rs:94-124 | A pointer whose length is 0 reads back the same body: the frame is read from the offset on. |
| `Store.OpenKeepsFiles` | src/store.rs:207-228 | Opening continues in the highest segment at its length and leaves every stored body readable. |
| `Store.RollKeepsFiles` | src/store.rs:185-201 | A roll leaves every stored body readable and keeps the position equal to the length of the active file. |
| `Store.RunsKeepStore` | src/store.rs:154-228 | Every sequence of appends, rolls, flushes, torn writes and reopens keeps the invariants of the store. |
| `Store.EveryPointerReadsBack` | src/store.rs:114-228 | After any such sequence the cached position is the length of the active file, all pointers ever returned lie apart, and each still reads back its body. |
| `Store.PointersAccumulate` | src/store.rs:154-178 | What an earlier part of a run returned is still among the pointers the whole run vouches for. |
| `Store.TornWriteWithoutReopen` | src/store.rs:154-201 | A writer that goes on after its own failed append, with or without a roll, has a position equal to the file length if and only if no byte of the frame went out or the roll itself failed. |
| `Store.NextPointerReadsTheTornFrame` | src/store.rs:154-178 | Its next append returns a pointer to the bytes left behind, with its own frame after them; if they were a whole frame, the pointer reads back the earlier body. |
| `Store.Directory.constructor` | src/store.rs:63-74 | A new store has no segment. |
| `Store.SegmentWriter.constructor` | src/store.rs:144-152 | Opening the writer puts it at the end of the highest segment, creating segment 0 in an empty store. |
| `Store.SegmentWriter.RollOver` | src/store.rs:185-201 | `roll` in place: the next segment id, a new empty file, position 0; on failure the id has moved and nothing else has. |
| `Store.SegmentWriter.AppendBody` | src/store.rs:154-178 | `append` in place: rolls first when the segment is full, writes the frame at the end, and returns the position before the write. |
| `Whitespace.SqueezeKeepsExactly` | src/ingest.rs:206-212 | The row's raw message id equals the id the other tiers use if and only if it has no white-space character (White_Space of Unicode, not only the ASCII blanks). |
| `Whitespace.SqueezeDropsWhite` | src/ingest.rs:208-212 | On UTF-8 text the id of the derived tiers is the text without its white-space characters; nothing else goes, and none is left. |
| `Whitespace.WhiteByNumber` | src/ingest.rs:208-212 | A character is dropped if and only if its code point is one of the 25 with the property White_Space. |
| `Ingest.RenameKeepsFilesExactly` | src/metadata.rs:273-300 | Renaming the new Parquet file into place keeps every earlier file if and only if the run id is new. |
| `Ingest.BeginKeeps` | src/ingest.rs:106-181 | Starting a run keeps the invariant: the walk leaves out only what the saved tip already covers, and a dangling tip means a full walk. |
| `Ingest.IngestOneKeeps` | src/ingest.rs:183-278 | One walked commit is carried into store, batch, trigram builder and prose index, or is skipped for the reasons the code skips it. |
| `Ingest.StepKeeps` | src/ingest.rs:183-370 | Every step of a run keeps the invariant. |
| `Ingest.EndKeeps` | src/ingest.rs:106-370 | A crash at any step, with any number of bytes of a frame written, and an error return keep the invariant. |
| `Ingest.ReachableIsInv` | src/ingest.rs:106-370 | Every state reachable by any history of runs and crashes satisfies the invariant. |
| `Ingest.NoLostCommit` | src/ingest.rs:138-161 | In every reachable state each ingestible commit that the saved tip reaches has a Parquet row whose pointer reads back its exact blob, and its trigram document. |
| `Ingest.VisibleRowsReadBack` | src/ingest.rs:247-289 | Every row a reader can see, saved tip or not, reads back the blob of its own commit. |
| `Ingest.OverKeepsUp` | src/ingest.rs:292-326 | If every run of the history has a working over.db writer, over.db has a row for every such commit as well. |
| `Ingest.FinishedRun` | src/ingest.rs:106-373 | A finished run in closed form: one new Parquet file with one row per ingested commit, in walk order, each reading back its blob; a trigram segment of exactly their patches; their BM25 documents and over.db ids; the saved tip; the generation and each marker. With nothing to ingest only the tip moves. |
| `Ingest.CompletedRun` | src/ingest.rs:106-373 | In every history of runs and crashes each run that is carried through has that outcome, whatever came before it. |
| `Ingest.RunFinishes` | src/ingest.rs:106-373 | A run gets to its end whenever new segments can be created and neither segment ids nor document numbers run out. |
| `Ingest.CrashBeforeBumpIsSilent` | src/ingest.rs:342-370 | After a crash between saving the tip and bumping the generation, a re-run on the same head walks nothing and leaves generation, markers and files as they were. |
| `OverGate.WronglyTrustedExactly` | src/reader.rs:366-410 | After any finished run the reader's gate trusts an over.db that lacks a recorded message if and only if the marker was set, absent or ahead and some message recorded now or earlier was neither in over.db before nor written by this run. |
| `OverGate.MarkersNeverLead` | src/ingest.rs:360-370 | In every reachable state no marker is ahead of the generation. |
| `OverGate.GateAfterEveryRun` | src/reader.rs:366-410 | The same at the end of every run of every history: the gate is wrong if and only if the run did not fail on over.db or no marker was ever set, and over.db lacks a message this run did not write. |
| `OverGate.FailedWriteIsMadeUpExactly` | src/ingest.rs:292-326 | A clean run after one whose over.db write failed: over.db holds what it held before both and what the second run walks, nothing else; on the same shard the second run meets a commit of the first if and only if the saved tip has disappeared. |
| `OverGate.CleanRunHidesTheLoss` | src/ingest.rs:357-370 | The gate distrusts over.db after the failed run and trusts it again after the clean one, although it is complete only if everything ever recorded was there before or is walked by the clean run. |
| `OverGate.NeverWalkedAgain` | src/ingest.rs:138-161 | While a shard's history only grows, no later run, crash or re-run ever walks a commit behind the saved tip again. |
| `OverGate.FailedFirstRunIsTrusted` | src/reader.rs:384-391 | A first run on an empty directory that fails to write over.db leaves no marker, and the gate trusts the empty table. |
| `OverGate.FailedSecondRunIsHidden` | src/reader.rs:366-410 | Three runs on a line of commits, the second with a failed over.db write: the gate trusts an over.db without the second message. |
| `TierIds.ReachableIsSqueezed` | src/ingest.rs:208-278 | In every reachable state every id in over.db, BM25 and the trigram segments is the squeezed id of an ingestible commit. |
| `TierIds.RowIdServesExactly` | src/ingest.rs:206-278 | In every reachable state, for each saved commit: the id in its Parquet row finds its patch, its prose and its over.db row in the other tiers if and only if that id has no white space. |
| `TierIds.SegmentsInUseServe` | src/trigram.rs:170-189 | Every trigram segment the ingest ever writes serves exactly what was put into it: squeezed ids have no line end to lose. |
| `IngestShard.DataDir.Ingest` | src/ingest.rs:106-373 | The imperative call, uninterrupted, leaves the directory exactly as the step machine does. |
| `IngestShard.DataDir.Publish` | src/ingest.rs:278-373 | Everything behind the walk, in the order of the code, leaves the directory as the remaining steps do. |
| `IngestShard.DataDir.SaveAndMark` | src/ingest.rs:342-370 | Save the tip, bump the generation, set the markers. |
| `Scan.ScanDir` | src/reader.rs:765-799 | The scan loop with its `seen` set hands the visitor the corpus rows that pass the filter, in order, until it stops. |
| `Scan.ScanIsFreshestOnce` | src/reader.rs:578-606 | The scan yields each message id once, from a file no older than any other file that has it. |
| `Scan.CorpusComesFromFiles` | src/reader.rs:765-799 | Every row the scan yields is a row of some file. |
| `Scan.DedupKeepsMids` | src/reader.rs:765-799 | Dropping repetitions loses no message id and leaves none twice. |
| `Scan.VisitAll` | src/reader.rs:765-799 | A visitor that never stops sees all rows that pass the filter. |
| `Scan.VisitFirst` | src/reader.rs:1135-1176 | A visitor that stops after `n` rows gets the first `n`, but one row even when it wants none. |
| `Visible.SavedCommitIsScanned` | src/reader.rs:765-799 | In every reachable state a scan yields exactly one row with the id of each ingestible commit the saved tip reaches; the row comes from the newest file that has the id and reads back the blob of a commit with that id. |
| `Visible.ScannedRowServes` | src/reader.rs:765-799 | Saved or not, every row a scan yields reads back the blob of a commit with its id. |
| `Thread.VisitId` | src/reader.rs:1962-1999 | One popped id: the scan collects its rows up to the cap and learns the ids it is related to. |
| `Thread.ThreadViaParquetScan` | src/reader.rs:1947-2011 | The breadth-first loop terminates on every corpus and computes the specified walk, cut at the cap, each message once, in ascending order of the date fields, undated ones first. |
| `Thread.WalkVisitsReachable` | src/reader.rs:1957-1999 | Everything visited is reachable from the seed, and everything a visited id leads to is visited. |
| `Thread.CollectedIsReachable` | src/reader.rs:1957-1999 | Without a cap the walk collects exactly the rows whose ids it can reach. |
| `Thread.VisitedIsReachable` | src/reader.rs:1957-1999 | The visited ids are exactly the reachable ones, ids missing from the corpus included. |
| `Thread.CollectedIsComponentExactly` | src/reader.rs:1947-2011 | The uncapped walk collects exactly the rows of the seed's connected component in the undirected reply graph if and only if it does not leak through the empty id. |
| `Thread.NoEmptyIdNoLeak` | src/reader.rs:1971-1991 | Without a message that has the empty id, a thread asked for by a real id never meets the empty id, so nothing leaks. |
| `Thread.EmptyIdJoinsStrangers` | src/reader.rs:1971-1991 | A corpus of two rows in which a reply with the empty id brings in a message of another thread. |
| `Thread.ThreadMembers` | src/reader.rs:1999-2011 | A capped query returns exactly the messages among the first `max` collected rows, repetitions counted. |
| `Thread.ThreadIsComponent` | src/reader.rs:1947-2011 | The result has distinct messages in ascending order of the date fields, undated ones first, at most `max`, all reachable; it is the whole component when `max` is not below the number of rows collected. |
| `Thread.WholeThreadExactly` | src/reader.rs:1957-2011 | The capped answer holds the whole component if and only if the cap reaches the last message the walk meets for the first time. |
| `Thread.CollectedIsComponentWidth` | src/reader.rs:1971-1999 | What the walk collects, counted from the headers: every message of the component takes one slot for its own id and one for each different non-empty id it cites. |
| `Thread.FullReferencesAreQuadratic` | src/reader.rs:1971-1999 | A linear thread of `n` messages with full References headers fills `n (n + 1) / 2` slots. |
| `Thread.PlainThreadIsWholeExactly` | src/reader.rs:1957-2011 | A linear thread of `n >= 2` messages without References comes back whole from its first message if and only if the cap is at least `2 n - 2`. |
| `Tid.WalkUp` | src/tid.rs:248-269 | The parent walk with its visited set terminates on every parent map and ends where the specification says. |
| `Tid.ParentIs` | src/tid.rs:252-264 | The parent of a row is the row named by In-Reply-To or, only where that header is missing, by the first reference; there is none if the corpus lacks that id. |
| `Tid.ReplyJoinsItsParent` | src/tid.rs:248-273 | A message whose In-Reply-To names a message without headers gets that message's id as thread id, whatever its references are. |
| `Tid.FirstReferenceStandsIn` | src/tid.rs:252-258 | Without In-Reply-To the first reference decides in the same way. |
| `Tid.DanglingReplyIsARoot` | src/tid.rs:255-263 | A message whose In-Reply-To is not in the corpus gets its fallback, even if its first reference is in the corpus. |
| `Tid.SearchBucket` | src/tid.rs:275-284 | The bucket loop returns the first entry inside the window. |
| `Tid.ResolveTid` | src/tid.rs:242-288 | Resolving one row computes its specified thread id. |
| `Tid.BuildIndex` | src/tid.rs:213-236 | The two maps hold where each id is and, per list, subject and author, the bucket in date order. |
| `Tid.AssignTids` | src/tid.rs:208-240 | In place, every row gets its specified thread id and keeps everything else. |
| `Tid.RootIsUnique` | src/tid.rs:248-273 | A message has at most one topmost in-corpus ancestor, at one height. |
| `Tid.AcyclicGetsItsRoot` | src/tid.rs:248-273 | A message whose parent chain ends gets its unique topmost in-corpus ancestor as thread id. |
| `Tid.TopEndsAChain` | src/tid.rs:248-269 | On any parent map the walk ends a chain without repetition that cannot be extended. |
| `Tid.TidIsAnId` | src/tid.rs:242-288 | Every thread id is the id of a message of the corpus. |
| `Tid.CycleMemberGetsItsPredecessor` | src/tid.rs:248-273 | A message on a parent cycle of two or more gets its predecessor on the cycle, the message it is the parent of. |
| `Tid.CycleMemberLosesItself` | src/tid.rs:248-273 | Every such message has a predecessor, so its thread id is never its own. |
| `Tid.ParentAgreesExactly` | src/tid.rs:242-288 | A message and its parent get one thread id if and only if the message is not an ancestor of its own parent, and the parent has a parent other than itself or else its fallback is its own id. |
| `Tid.RootAgreesExactly` | src/tid.rs:271-288 | A root agrees with the messages below it if and only if its own fallback is its own id. |
| `Tid.CycleMembersDisagree` | src/tid.rs:248-273 | The smallest case: two messages that answer each other get each other's id. |
| `Tid.FirstHitIsFirstRow` | src/tid.rs:229-231 | Among entries of one date the bucket yields the lowest row, because the sort is stable. |
| `Tid.FallbackIsEarliestInWindow` | src/tid.rs:275-288 | A message with a subject whose walk goes nowhere gets the id of the earliest message with its list, subject and author that is at most 2,592,000,000,000,000 ns older and not newer (any time if undated; an undated earlier one counts as dated 0), the first row among equals. |
| `TidRebuild.InsertAll` | src/tid.rs:113-120 | Inserting a row's values grows the set by exactly those values. |
| `TidRebuild.Collect` | src/tid.rs:104-127 | The second pass gathers, for every cover letter's thread, what the rows of that thread touch. |
| `TidRebuild.SortedVec` | src/tid.rs:342-346 | The set comes out sorted bytewise, each element once. |
| `TidRebuild.MakeRow` | src/tid.rs:167-181 | A side-table row carries the thread id, and the gathered values for cover letters only. |
| `TidRebuild.Rebuild` | src/tid.rs:88-204 | One side-table row per message in batches of 100,000, one id update per message in chunks of 50,000, all full but the last; nothing lost between chunks. |
| `TidRebuild.PropagationIsUnion` | src/tid.rs:88-127 | Every cover letter with a non-empty thread id carries exactly the files and functions of the rows with its thread id, sorted, each once; every other message carries none. |
| `TidRebuild.OnlyTheEmptyRootIsSkipped` | src/tid.rs:91-97 | In a corpus without the empty message id every cover letter's thread is propagated. |
| `Over.InsertKeepsDerived` | src/over.rs:1581-1700 | Insert-or-replace of one row keeps a side table equal to the one derived from the main rows. |
| `Over.InsertAllKeepsValid` | src/over.rs:1494-1702 | Any batch keeps both side tables equal to the derived ones, and the index state as it was. |
| `Over.InsertAllLands` | src/over.rs:1494-1519 | After any batch the last row given for each key is in the table, each row of the table comes from the batch or was there before, and rows whose keys the batch does not name are untouched. |
| `Over.PutValues` | src/over.rs:1675-1699 | Delete by key and INSERT OR IGNORE leave exactly the row's distinct non-empty values under its key, and count them. |
| `Over.OverDb.Create` | src/over.rs:199-219 | A created database has empty tables and a complete function index. |
| `Over.OverDb.InsertBatch` | src/over.rs:683-691 | `insert_batch` turns the database into the specified one: every row of the batch is in the table unless a later one has its key, and rows with other keys stay. |
| `Over.OverDb.BackfillFiles` | src/over.rs:881-936 | The chunked backfill leaves the file table equal to the derived one, counts its rows, and reads every row once in rowid order. |
| `Over.OverDb.BackfillFunctions` | src/over.rs:942-999 | The same for the function table; the state is "building" until the end and "complete" after it. |
| `Over.RefillPage` | src/over.rs:908-933 | One chunk's transaction refills exactly the chunk's rows. |
| `Over.PagesFollow` | src/over.rs:885-905 | The pages follow each other without gap or overlap. |
| `Over.RefillAllIsDerived` | src/over.rs:881-936 | Refilling every row gives the derived table, whatever was there before. |
| `Over.NextKeepsInv` | src/over.rs:942-999 | Every event (batch, begin, chunk, end, crash) keeps the invariant, and a chunk moves the cursor strictly up. |
| `Over.CompleteMeansDerived` | src/over.rs:1810-1831 | In every run from a created or a legacy database the state "complete" implies that the function table is the derived one. |
| `Over.FromEmptyAlwaysDerived` | src/over.rs:1494-1702 | From an empty database both side tables are the derived ones in every reachable state, inside a backfill too. |
| `OverScan.ScanSide` | src/over.rs:2093-2149 | Over a derived side table the indexed scan returns a newest-first top `limit` of exactly the dated rows that match. Of two dated rows returned the first has the later or the same date, no undated row comes before a dated one, and a dated match left out is no newer than any row returned. |
| `OverScan.ScanSequential` | src/over.rs:2151-2201 | The sequential scan returns a newest-first top of all rows that match, undated ones last; it returns one row even for limit 0. Of two dated rows returned the first has the later or the same date, no undated row comes before a dated one, and a dated match left out is no newer than any row returned. |
| `OverScan.ScanFunctions` | src/over.rs:1810-1831 | The function query takes the side table only when the index is complete, and is right on both paths. Of two dated rows returned the first has the later or the same date, no undated row comes before a dated one, and a dated match left out is no newer than any row returned. |
| `OverScan.ScanFiles` | src/over.rs:1801-1809 | The file query is right whenever the file table is the derived one. Of two dated rows returned the first has the later or the same date, no undated row comes before a dated one, and a dated match left out is no newer than any row returned. |
| `OverScan.InnerMirrorsIndexed` | src/over.rs:2103-2125 | Side rows picked by the query and matching main rows correspond one to one. |
| `OverScan.JoinIsTop` | src/over.rs:2127-2149 | Picking side rows first and joining afterwards gives a top of the matching rows. |
| `OverScan.TopDates` | src/over.rs:2125-2185 | What being a newest-first top means on the date fields: descending dates, undated rows last, and no dated row left out that is newer than one returned. |
| `OverScan.MatchingMeans` | src/over.rs:2103-2149 | The matching rows are the rows of the table with the value in the column, a date in the half-open range if one is asked for, and the list if one is asked for. |
| `OverScan.PathsRangeOverTheSame` | src/over.rs:2093-2201 | The indexed and the sequential path range over the same rows if and only if the value is not empty and no undated row matches (or nothing matches). |
| `OverScan.TopsAgreeOnDates` | src/over.rs:2093-2201 | Two answers to one query have the same dates position by position. |
| `OverScan.IndexAgreesWithScan` | src/over.rs:2093-2201 | For a non-empty value and dated matches the fast and the slow answer have the same length and the same dates in the same order. |
| `OverScan.UnfilledFileIndexMisses` | src/over.rs:1801-1809 | A legacy database whose file table was never filled answers a file query with nothing although a row matches. |
| `FileIndex.RunHoldsFilled` | src/over.rs:881-936 | In every run that begins with an unfilled file table, the table holds exactly the entries of the rows inserted since and of the rows a backfill chunk has moved past. |
| `FileIndex.FileQueryFindsExactly` | src/over.rs:1801-1809 | In every such run a dated row with the path is in the range of a file query if and only if the row was inserted since or some chunk of a file backfill has moved past its rowid. |
| `FileIndex.FileQueryReturnsFilled` | src/over.rs:2093-2149 | In every such run the answer to a file query is a newest-first top `limit` of exactly the matching dated rows that were inserted since or passed by a backfill. |
| `FileIndex.QueryFiles` | src/over.rs:1801-1809 | The query itself, run at any point of such a history, has that answer. Of two dated rows returned the first has the later or the same date, no undated row comes before a dated one, and a dated match left out is no newer than any row returned. |
| `FileIndex.FileTableIsDerivedExactly` | src/over.rs:1801-1809 | The file table is the derived one if and only if every row that touches a file has been filled. |
| `FileIndex.FilesStayDerived` | src/over.rs:881-936 | Once a file backfill has come to its end the file table is the derived one in every later state. |
| `OverScan.Get` | src/over.rs:1706-1719 | `get` returns a cross-post with the latest date, or nothing exactly if there is none: every other cross-post with a date has one at most as late, on the date fields. |
| `OverScan.GetMany` | src/over.rs:1722-1751 | `get_many` returns exactly the asked ids that exist, each with a freshest cross-post. |
| `OverScan.ScanMessageId` | src/over.rs:1772-1781 | A query by message id sees the freshest cross-post only. |
| `OverScan.FiltersMean` | src/over.rs:2316-2338 | `filters_ok` takes a missing date as the lowest possible one against `since` and as the highest against `until`. |
| `OverScan.CrossPostIsMissedExactly` | src/over.rs:1772-1781 | Among cross-posts with different dates a passing one is returned if and only if it is the freshest; the answer is empty if and only if the freshest one fails the filters. |
| `OverScan.FresherCrossPostHides` | src/over.rs:1772-1781 | An older cross-post in the wanted list is not found behind a fresher one in another list. |
| `Migration.WalkReachesExactly` | src/over.rs:1294-1311 | The rowid walk reaches a row if and only if no gap wider than 200,000 lies before it. |
| `Migration.Intern` | src/over.rs:1265-1286 | Interning keeps old entries, adds one for every address, and keeps the dictionary one-to-one. |
| `Migration.OverDb.CopyTrailers` | src/over.rs:1294-1339 | The chunked copy of the legacy rows, cut off after any number of transactions, stays between the start and the finished result. |
| `Migration.OverDb.CopyAuthors` | src/over.rs:1349-1396 | The same for the author rows. |
| `Migration.OverDb.Migrate` | src/over.rs:1254-1422 | From empty or filled tables, after any number of interrupted runs, a finished run leaves the old rows plus exactly the image of the reached legacy and author rows, column by column, and drops the legacy table. |
| `Migration.MigratedColumns` | src/over.rs:1313-1396 | Column by column: each reached legacy row (kind, address, message id, list, date) becomes the involvement row with the same kind, the address's number, the same message id, list and date; each reached author row the one of kind `from`; every key that is added comes from such a row; a key that was there keeps its date. |
| `Migration.ImageIsExactly` | src/over.rs:1294-1396 | An involvement row is made if and only if a legacy or author row without a gap before it makes it. |
| `Migration.ImageKeepsDates` | src/over.rs:1313-1322 | Migrated rows keep their dates; a legacy row decides where an author row has the same key. |
| `Migration.TrailerIsMigratedExactly` | src/over.rs:1294-1339 | A legacy row is carried over, with its date, exactly when its address is not empty and no gap lies before it. |
| `Migration.GapLosesRows` | src/over.rs:1302-1311 | A gap wider than the window loses the legacy rows behind it. |
| `Bm25.NextKeepsInv` | src/bm25.rs:348-363 | Every step of writer, readers and threads keeps the protocol's invariant, and no reader's generation or snapshot goes back. |
| `Bm25.RunKeepsInv` | src/bm25.rs:348-363 | In every interleaving a reader's last reloaded generation is one whose commits its snapshot holds. |
| `Bm25.NeverBack` | src/bm25.rs:348-363 | Over a whole run a reader's generation and snapshot only grow. |
| `Bm25.AnswerCoversGeneration` | src/reader.rs:276-309 | A query is served on a snapshot that holds everything committed before the generation it asked with was published. |
| `Bm25.BumpForcesReloadExactly` | src/state.rs:104-109 | After a bump the next query reloads, except on a reader already at the largest counter value. |
| `Bm25.BmReader.constructor` | src/bm25.rs:319-337 | A reader opens on the newest commit, at generation 0. |
| `Bm25.BmReader.MaybeReload` | src/bm25.rs:348-363 | Without other threads `maybe_reload` reloads exactly if the generation has advanced. |
| `Glob.CompileGlob` | src/maintainers.rs:232-268 | The compile loop emits the specified expression and counts the slashes. |
| `Glob.CountSlashesIs` | src/maintainers.rs:232-233 | The depth of a glob is the number of positions that hold the byte 47. |
| `Glob.CompiledText` | src/maintainers.rs:234-266 | The expression compiled for `a.?***[/`, byte by byte: one glob with every kind of token and a slash at its end. |
| `Glob.EscapedExactly` | src/maintainers.rs:249-254 | Of the ASCII literals exactly the twelve with a meaning in regular expressions get a backslash. |
| `Glob.CompiledParses` | src/maintainers.rs:232-268 | The emitted text parses to the glob's nodes between two anchors. |
| `Glob.MatchIsDenotes` | src/maintainers.rs:277-297 | Node by node the matcher accepts what the glob's tokens denote. |
| `Glob.CompilationKeepsMeaning` | src/maintainers.rs:232-297 | On ASCII globs and newline-free paths the compiled expression accepts exactly what the glob denotes. |
| `Glob.NonAsciiGlobMisses` | src/maintainers.rs:240-258 | A glob with a non-ASCII byte does not match a shortest path it denotes. |
| `Glob.MeaningKeptExactly` | src/maintainers.rs:232-268 | The meaning is kept on all newline-free paths if and only if the glob is ASCII. |
| `Maintainers.FirstMatch` | src/maintainers.rs:186-188 | The exclusion test holds if some X: pattern matches. |
| `Maintainers.Deepest` | src/maintainers.rs:190-195 | The F: loop finds the largest depth among the patterns that match. |
| `Maintainers.NameMatch` | src/maintainers.rs:196-205 | The N: test holds if some name expression matches. |
| `Maintainers.Lookup` | src/maintainers.rs:183-212 | The lookup returns the ranked entries. |
| `Maintainers.LookupFindsExactly` | src/maintainers.rs:183-212 | An entry is found, once, exactly if no exclude glob and some file glob (or, failing that, name expression) matches; results run in non-increasing matched depth, the number of slashes in the glob, in file order among equals. |
| `Sync.FnmatchIsDenotes` | src/sync.rs:206-226 | The recursive matcher terminates and holds exactly if the string splits into a piece for every byte of the pattern. |
| `Sync.DocumentedMeaningExactly` | src/sync.rs:187-227 | The matcher has the documented meaning (`*`, `?` and bracket expressions) on every text if and only if no `[` of the pattern is closed. |
| `Sync.BracketsAreLiteral` | src/sync.rs:187-227 | `[ab]` does not match `a`. |
| `Sync.DocumentedExamples` | src/sync.rs:187-188 | What the documented classes mean, for every byte: `[a-z]`, `[!ab]`, and `[]a]` with a leading closing bracket. |
| `Sync.PathMatchesMeans` | src/sync.rs:189-199 | No include pattern means everything; an exclude pattern always wins. |
| `Sync.DiffManifest` | src/sync.rs:231-251 | The diff lists in path order exactly the wanted entries that are new or have another fingerprint. |
| `Sync.DiffIsEmptyExactly` | src/sync.rs:231-251 | The diff is empty if and only if the cache agrees on every wanted path; against the saved manifest itself it is empty. |
| `PathTier.BlockEnds` | src/path_tier.rs:90-100 | Once a string above the prefix does not start with it, no later one does. |
| `PathTier.NormalIs` | src/path_tier.rs:29-31 | Sorting and removing repetitions gives a strictly ascending list with the same members. |
| `PathTier.BasenameIs` | src/path_tier.rs:42-46 | The basename is the only slash-free text behind the last slash. |
| `PathTier.PathVocab.constructor` | src/path_tier.rs:29-52 | Any list gives the sorted distinct paths and a basename index that matches them. |
| `PathTier.PathVocab.PartitionPoint` | src/path_tier.rs:90-91 | The partition point separates the paths below the key from the others. |
| `PathTier.PathVocab.LookupExact` | src/path_tier.rs:74-79 | The exact lookup finds the path's id if and only if the path is in the vocabulary. |
| `PathTier.PathVocab.LookupPrefix` | src/path_tier.rs:90-100 | The prefix lookup returns exactly the ids of all paths with the prefix, ascending and without a gap. |
| `PathTier.PathVocab.LookupBasename` | src/path_tier.rs:82-87 | The basename lookup returns exactly the ids with that basename, ascending. |
| `PathTier.VocabRoundTrip` | src/path_tier.rs:122-148 | Saving and loading gives the vocabulary back if and only if it is not empty, no path is empty or has a line feed, and none but the last ends in a carriage return. |
| `Text.TerminatedRoundTrip` | src/trigram.rs:114-123 | A file of terminated lines reads back unchanged if and only if no line ends in a carriage return. |
| `Text.LinesOfSeparated` | src/path_tier.rs:122-143 | A file of separated lines loses the carriage returns of all lines but the last, and an empty last line. |
| `Embedding.FloatRoundTrip` | src/embedding.rs:125-145 | Four little-endian bytes give the bit pattern back. |
| `Embedding.AllPackedAt` | src/embedding.rs:358-373 | Row `i` of the vector file starts at `i` times the row size. |
| `Embedding.EmbeddingBuilder.constructor` | src/embedding.rs:96-113 | A new build is empty. |
| `Embedding.EmbeddingBuilder.Add` | src/embedding.rs:125-145 | `add` refuses a wrong dimension and an id with a line feed, leaving both files alone, and otherwise appends one line and one row. |
| `Embedding.VectorAt` | src/embedding.rs:358-373 | `vector_at` reads back the vector that was added at that position. |
| `Embedding.MidsReadBackExactly` | src/embedding.rs:296-308 | The reader gets one id per line, and the added ids if and only if none ends in a carriage return. |
| `Embedding.HeapReplaces` | src/embedding.rs:447-451 | The heap gives up its smallest entry only for a strictly larger score, so every dropped row stays at or below every kept one. |
| `Embedding.DotAt` | src/embedding.rs:435-441 | The inner loop decodes the stored row and accumulates its dot product with the query from the left. |
| `Embedding.NearestBruteforce` | src/embedding.rs:413-460 | A query of another dimension is refused; otherwise the bounded heap returns the ids of `min(k, n)` distinct stored rows in non-increasing order of their dot products with the query, and no omitted row scores above a returned one. On the scores themselves: no returned number is below a later one, an omitted row's number is at most every returned number, and a not-a-number is returned only if every omitted row is one. |
| `Embedding.AtLeastIsScoreLe` | src/embedding.rs:251-259 | The order of the heap is the natural one: numbers by value, infinities at the ends, any not-a-number below everything. |
| `Embedding.NearestMeans` | src/embedding.rs:243-260 | What being the nearest rows means on real numbers: descending scores, no omitted score above a returned one, not-a-number after and behind all numbers. |
| `Router.MergeStep` | src/router.rs:496-511 | One more row of a tier updates exactly its id's score and tiers. |
| `Router.ContributionIs` | src/router.rs:496-500 | The row at 0-based position `r` of a tier adds `1 / (60 + r + 1)`. |
| `Router.RrfMerge` | src/router.rs:494-529 | Before the cut each id of any tier appears once, with the sum of `1 / (60 + rank)` over all its positions and exactly its tiers, in descending score order. |
| `Router.FusionIgnoresTierOrder` | src/router.rs:494-529 | The order in which the tiers are visited changes neither ids nor scores nor tiers. |
| `Router.CutThenFilterExactly` | src/router.rs:445-472 | Filtering after the cut to twice the limit keeps a prefix of the best wanted hits, and loses none if and only if enough wanted hits lie before the cut or none behind it. |
| `Router.WantedByColumn` | src/router.rs:445-472 | What the four filters ask of a hit: its list, an author that matches, a date not before `since` and before `until`; an undated hit fails both dates. |
| `Dispatch.Finish` | src/router.rs:437-474 | Fusing, cutting to twice the limit, filtering by one predicate after the other and cutting to the limit computes the specified answer. |
| `Dispatch.CapsInNumbers` | src/router.rs:294-391 | How many rows each tier may return: twice the limit for words, the limit for a patch substring or a predicate, one for a message id, and for dates or a list alone 20 times the limit, at least 10,000. |
| `Dispatch.NativesByName` | src/router.rs:294-391 | Which filters each tier has applied itself: all, none, only the list, or the list and the dates. |
| `Dispatch.SafeIsLossless` | src/router.rs:294-474 | A query that is safe by its shape returns the best wanted hits, whatever rows its tiers find within their caps and own filters. |
| `Dispatch.QueryIsLosslessExactly` | src/router.rs:294-474 | A query returns the best wanted hits whatever its tiers can find if and only if the limit is 0, the filters are absent or the date range empty, the caps of its tiers sum to at most twice the limit, every tier that runs passes all filters by itself, or the limit is 1 and BM25 has a single partner, which does. |
| `Dispatch.LosingQueriesExactly` | src/router.rs:294-474 | For limits of two or more: a query can lose a hit if and only if it discriminates and joins words with a patch substring or another predicate, or asks for dates alone without an index. |
| `Dispatch.PartnerLoses` | src/router.rs:369-391 | One row of a second tier is enough for twice the limit of BM25 rows to lose their last, wanted one. |
| `Dispatch.UndatedLoses` | src/router.rs:355-366 | Undated rows of a Parquet scan by dates crowd out a wanted row. |
| `Dispatch.CrowdLoses` | src/router.rs:494-511 | With limit 1 and all three tiers, BM25's unwanted copy of the metadata tier's message wins with the score of both and pushes the wanted hit out. |

## Left out

- SQLite, Parquet, tantivy scoring, HNSW, Aho-Corasick, zstd, roaring and fst internals: taken as tables, encodings and maps.
- Git, HTTP and the fetch and clone of shards: history is an abstract commit graph.
- Mail parsing, date parsing, patch extraction: their results are parameters of a commit's message.
- The PyO3 surface, the Python server, cursors, deadlines and cancellation.
- over.db's trailer and address side tables in `insert_batch`: filled by the same delete-and-insert as the two that are modelled, from other payload fields.
- The backfills of trailer emails, trailer references, envelope addresses, subjects and dates: the same rowid walk as the two that are modelled.
- Bulk loading of over.db without its unique index: the build relies on rows that are already distinct.
- Payload blobs that do not decode: a backfill takes them as empty, a query fails on them.
- The section parser of MAINTAINERS, the query parser, the identifier tokenizer: they only add easy members.
- Fuzzy confirmation of bodies, regex search and aggregates over the corpus.
- Shared caches of readers, the over.db connection pool and two reloads of one BM25 reader overlapping each other.
- Maintainers.Lookup: whether a raw name expression matches a path is a parameter.
- PathTier.PathVocab.LookupPrefix: ids are unbounded numbers; the code cuts them to 32 bits, so it needs fewer than 2^32 paths. The same holds for the other lookups.
- Embedding.NearestBruteforce: how one 32-bit multiply-add rounds is a parameter; row numbers are not cut to 32 bits.
- PatchSearch.PatchSearch: an over.db lookup that fails is not modelled; the error is passed on.
- Dispatch.QueryIsLosslessExactly: a tier that fails fails the query, and limits so large that twice the limit overflows are not modelled.
- Router.RrfMerge: single-precision rounding of the scores is not modelled, and which of several rows with one id is kept depends on the order of the tiers.
- Over.OverDb.InsertBatch: a transaction that fails inside SQLite is not modelled; it leaves the database as it was.
- Migration.OverDb.Migrate: a rowid above 2^63 - 1 - 200,000 would overflow the window bound.
- Ingest.NoLostCommit: covers the end-to-end call for one shard at a time; the binaries that share one BM25 writer over many shards are not modelled.
