# Knowledge-service graph store and its neighbours, in Dafny

This project models the tenant-isolated graph store of the knowledge service and five
smaller cores around it, and proves what they promise.

- **The instance pool** (`LruPool`, `PoolProtocol`, `PoolRuns`, `PoolClose`). `GraphPool`
  caches one instance per workspace behind one guard and one lock per workspace. `LruPool` is the class
  as one caller sees it. `PoolProtocol` is any number of `get` and `close` tasks on one event
  loop: a step is the code between two awaits, any waiter may be next, and every build may
  fail. Tasks that start late are tasks whose first step comes late. `PoolRuns` holds the
  results over whole runs, `PoolClose` what closing promises.
- **Evidence** (`EvidenceMerge`, `MergeMeaning`, `MergeLaws`, `MergeOrder`, `BestRows`,
  `EvidenceSearch`, `StableSort`). Normalising, deduplicating, sorting and cutting the answers of several
  workspaces, over real scores.
- **Documents** (`DocumentRef`, `RowStore`, `GraphOps`, `TenantGraph`, `DeleteSafety`,
  `MoveSafety`, `Migration`). Insert, delete, move and migrate over external tables in which
  every call may fail, before or after taking effect. `World.log` keeps the tables after
  every write, so a statement about every store of a run is a statement about every place a run can be cut.
  `RowStore` assumes of the indexing library that indexing one document touches no row of
  another path, loses no row and keeps keys unique (`RecordedOnly` shows the stand-in does);
  the source states none of this, it relies on it.
- **Ingestion** (`ExtractBatches`, `Embedding`, `Processing`). Greedy prompt batches,
  embedding batches, and the gate in front of the document store.
- **Scripts** (`ManualBlock`, `FailedCleanup`, `AccessList`) and **names** (`WorkspaceName`).

`Common`, `Positions` and `Text` hold shared vocabulary. Where a promise in the source's own words does not
hold of its code, the code is kept, a lemma gives an input that shows it, and another states
exactly when the promise holds:

- `close` is described as releasing every instance; an instance whose build is in flight is
  inserted afterwards and stays open (`CloseMissesBuildInFlight`). Everything is released in
  every complete run exactly when no get may still insert (`CloseReleasesEverything`,
  `EverythingIsReleasedIff`).
- One workspace is meant to have one instance; during a close it can have two
  (`TwoOpenDuringClose`), exactly when a build ends while a close has yet to finalize an
  instance of its workspace (`SecondInstanceIff`, `OneOpenThroughoutIff`).
- Every mounted workspace is meant to appear in merged results; ties for the best score in one
  workspace can push out another (`TiesDrownAWorkspace`). A workspace appears exactly when the
  cut is longer than the rows ranked before its best one, and all appear exactly when the
  best rows of all but the last leave room (`WorkspaceAppearsIff`, `EveryWorkspaceAppearsIff`).
- Workspace names are described as 35 characters long; they are exactly when 32 digits remain
  of the id (`NamesAreSafe`). Names of UUIDs never collide up to case (`UuidsNeverCollide`);
  names of other ids can (`ShortIdsCollide`).
- A move to the same workspace reports success without looking (`MoveInPlaceMayBeUnusable`,
  `TrueMoveIsUsableIff`).
- A successful move may leave the source (`MoveMayKeepSource`); it clears the source exactly
  when no row lay beyond the first page and the calls of its delete took effect
  (`MoveClearsSourceIff`).
- Documents counted as indexed are meant to be usable; that can be relied on exactly when no
  two targets name one document of one workspace (`IndexedAreUsableIff`, `DuplicateSpoils`).
- The vector count is meant to guard alignment; an over-long answer passes it, exactly when it
  hides texts that were never sent (`OverlongAnswerHidesTexts`, `LengthsAgreeIff`).
- `_move_to_failed` is meant to preserve metadata; a read error followed by a successful write
  loses it (`FailedReadLosesMetadata`, `MetadataSurvivesIff`).
- Block injection is not idempotent when the manual contains the END marker (`IdempotentIff`).

## Model

| member | source | states |
|---|---|---|
| LruPool.GraphPool.Get | knowledge-service/app/graph_store.py:194-218 | A get that runs alone against its specification, and nothing when the pool is disabled; what it returns is the newest entry; at most one instance is finalized. |
| LruPool.AfterGetMeans | knowledge-service/app/graph_store.py:199-217 | A resident instance is returned as it is, otherwise the one just built; it becomes the newest entry and the oldest beyond the ceiling are finalized in order; a failed build changes nothing. |
| LruPool.GraphPool.EvictIfNeeded | knowledge-service/app/graph_store.py:240-253 | Exactly the oldest entries beyond the ceiling go, each finalized once, oldest first. |
| LruPool.GraphPool.Close | knowledge-service/app/graph_store.py:255-264 | The pool is emptied and every resident instance finalized once, in order. |
| LruPool.ResidentsAreMostRecent | knowledge-service/app/graph_store.py:199-217 | After any sequence of gets, builds failing or not, the residents are the `limit` most recently answered distinct workspaces, oldest first. |
| LruPool.LargerPoolContains | knowledge-service/app/graph_store.py:246-253 | Whatever the requests and whichever builds fail, the smaller pool is part of the larger one, in the same order, and equal to it until it is full. |
| LruPool.LargerPoolBuildsNoMore | knowledge-service/app/graph_store.py:199-217 | Raising the ceiling never increases the number of builds attempted, whichever of them fail. |
| PoolProtocol.NextInv | knowledge-service/app/graph_store.py:194-264 | Every step of every task keeps the invariant: locks, guard, places of instances, one live instance per workspace, the ceiling. |
| PoolProtocol.InsertionFindsNothing | knowledge-service/app/graph_store.py:213-216 | An inserting task never overwrites a resident instance of its workspace. |
| PoolRuns.Reachable | knowledge-service/app/graph_store.py:194-264 | The invariant holds in every state of every run of any number of gets and closes. |
| PoolRuns.OneOpenInstancePerWorkspace | knowledge-service/app/graph_store.py:194-253 | Two open instances of one workspace coexist only while a close holds one of them; with no close finalizing, never. |
| PoolClose.SecondInstanceIff | knowledge-service/app/graph_store.py:194-264 | The one step that gives a workspace a second open instance: a successful build of a workspace whose instance a close has yet to finalize, and no other. |
| PoolClose.OneOpenThroughoutIff | knowledge-service/app/graph_store.py:194-264 | A run keeps one open instance per workspace throughout if and only if no such build ends in it. |
| PoolRuns.InstancesAreConserved | knowledge-service/app/graph_store.py:206-264 | Each built instance is in exactly one of builder, pool, evictor, closer, finalized; none is finalized twice; the ceiling holds at every await. |
| PoolRuns.InsertionEvictsAtMostOne | knowledge-service/app/graph_store.py:214-217 | An insertion exceeds the ceiling by at most one, evicts the oldest other entry exactly when full, and the eviction loop does not run twice. |
| PoolRuns.ReturnedIsResident | knowledge-service/app/graph_store.py:199-218 | What a get returns is resident and open at that moment and was built for the workspace asked for. |
| PoolRuns.OnlyFirstCheckRefreshes | knowledge-service/app/graph_store.py:200-212 | A hit on the first check protects the oldest entry from the next insertion; a hit on the second check does not. |
| PoolRuns.SomeTaskCanStep | knowledge-service/app/graph_store.py:199-218 | No deadlock: while a task is unfinished some task can step. |
| PoolRuns.EveryStepDecreases | knowledge-service/app/graph_store.py:194-264 | A bound on the remaining steps strictly decreases with every step. |
| PoolRuns.EveryRunEnds | knowledge-service/app/graph_store.py:194-264 | Runs are bounded, and one that cannot be extended has finished every task, released every lock and left exactly the residents open. |
| PoolRuns.EveryGetIsAnswered | knowledge-service/app/graph_store.py:194-218 | In every complete run, whatever other builds and closes do, a get raises if and only if the pool is disabled or its own build failed, and otherwise has returned an instance built for its workspace. |
| PoolClose.EverythingIsReleasedIff | knowledge-service/app/graph_store.py:194-264 | From any reachable state: every complete run releases everything if and only if no get may still insert and the pool is empty or a close is to come. |
| PoolClose.CloseReleasesEverything | knowledge-service/app/graph_store.py:255-264 | A close that empties the pool leads to everything being released, in every run, if and only if no get is then short of its insertion. |
| PoolRuns.AloneIsSequential | knowledge-service/app/graph_store.py:194-218 | From any reachable state with guard and workspace lock free, a get that runs alone does what the sequential pool does, so earlier failures block nothing. |
| PoolClose.CloseAloneIsSequential | knowledge-service/app/graph_store.py:255-264 | A close that runs alone empties the pool and finalizes its instances in order, as the sequential one does. |
| PoolClose.TwoOpenDuringClose | knowledge-service/app/graph_store.py:257-262 | A run in which one workspace has two open instances while a close finalizes. |
| PoolClose.CloseMissesBuildInFlight | knowledge-service/app/graph_store.py:213-262 | A finished run in which an instance stays open after a close. |
| StableSort.SortIsStable | knowledge-service/app/graph_store.py:493 | The sort is ascending by key, keeps the elements, and keeps the order of equal keys. |
| StableSort.StableSortIsUnique | knowledge-service/app/graph_store.py:493 | Order and stability determine the sorted list. |
| StableSort.SortPositions | knowledge-service/app/graph_store.py:493 | Every element of the sorted list comes from one position, ordered by key and then by position. |
| EvidenceMerge.MaxScoreIsMax | knowledge-service/app/graph_store.py:484 | The best score is attained and bounds all others. |
| EvidenceMerge.Merge | knowledge-service/app/graph_store.py:470-494 | The loops compute the cut, stable, descending sort of the deduplicated normalised union. |
| EvidenceMerge.MergeBatch | knowledge-service/app/graph_store.py:485-492 | The inner loop appends exactly the rows of one batch whose keys are new. |
| EvidenceMerge.KeyIdentifies | knowledge-service/app/graph_store.py:486 | Keys of workspaces without a colon are equal exactly when workspace and id are. |
| MergeMeaning.NormalisedMeans | knowledge-service/app/graph_store.py:484-491 | Scores are divided by the best of their batch unless that is zero; nothing else of a row changes. |
| MergeMeaning.EachRowOnce | knowledge-service/app/graph_store.py:479-492 | Of every workspace and id that was answered exactly one row is there before the cut. |
| MergeMeaning.MergedMeans | knowledge-service/app/graph_store.py:479-494 | The merged list, said of the rows alone: the first rows of their workspace and id, ranked by normalised score and then by position; a row is left out only when `top_k` rows rank before it. |
| MergeMeaning.NegativeCut | knowledge-service/app/graph_store.py:494 | A negative `top_k` leaves out as many of the last rows. |
| MergeLaws.FirstWinsExact | knowledge-service/app/graph_store.py:486-489 | A row is kept if and only if it is the first with its key; kept keys are distinct. |
| MergeLaws.UnionIsFirstWins | knowledge-service/app/graph_store.py:479-492 | Deduplication runs over all batches in order; apart from scores nothing else happens to a row. |
| MergeLaws.MergeIsStableTop | knowledge-service/app/graph_store.py:493-494 | Any list that is sorted by score and stable with respect to the union, once cut, is the merged list. |
| MergeLaws.ScaleInvariance | knowledge-service/app/graph_store.py:484-491 | Multiplying one workspace's scores by a positive constant changes nothing in the merged list. |
| MergeLaws.ScaleFreeIsExact | knowledge-service/app/graph_store.py:484-491 | A batch is normalised alike at every scale if and only if its best score is not zero or all its scores are. |
| MergeLaws.NonNegativeIsScaleFree | knowledge-service/app/graph_store.py:465 | Non-negative scores meet that condition. |
| MergeOrder.OrderIndependence | knowledge-service/app/graph_store.py:479-494 | Permuting batches with separate keys keeps the returned scores and, without a tie at the cut, the rows. |
| MergeOrder.KeptRowsAreOwnBest | knowledge-service/app/graph_store.py:479-494 | The rows kept from a workspace are a prefix of its own stable ranking. |
| MergeOrder.OwnRankingIsRaw | knowledge-service/app/graph_store.py:484-493 | With a positive best score that ranking is the ranking by raw scores. |
| BestRows.BestRowsComeFirst | knowledge-service/app/graph_store.py:484-493 | With non-negative scores the best rows of all workspaces open the ranking, in union order. |
| BestRows.BestRowsSurvive | knowledge-service/app/graph_store.py:493-494 | All rows that are best in their workspace are returned if and only if there are at most as many as rows returned. |
| BestRows.EveryWorkspaceSurvives | knowledge-service/app/graph_store.py:479-494 | With one best row each, every workspace's best row is returned exactly when `top_k` covers the non-empty batches. |
| BestRows.FirstOwnRow | knowledge-service/app/graph_store.py:479-494 | How many rows are ranked before a workspace's first: those that beat its best share and those of earlier workspaces that equal it. |
| BestRows.WorkspaceAppearsIff | knowledge-service/app/graph_store.py:479-494 | A workspace appears if and only if the cut is longer than that, for scores of any sign and repeated keys. |
| BestRows.BestRowsBeforeLeaveRoom | knowledge-service/app/graph_store.py:484-494 | For non-negative scores: a workspace appears if and only if the best rows of the workspaces before it are fewer than `top_k`. |
| BestRows.EveryWorkspaceAppearsIff | knowledge-service/app/graph_store.py:484-494 | Every answering workspace appears if and only if the best rows of all but the last of them are fewer than `top_k`. |
| BestRows.TiesDrownAWorkspace | knowledge-service/app/graph_store.py:493-494 | Two rows tied for best in one workspace fill a cut of two and push out another workspace. |
| EvidenceSearch.ToEvidence | knowledge-service/app/graph_store.py:442-468 | In order, exactly one row per chunk that has content or text, carrying the content or else the text, the score or else 0.5, the chunk id or else its position, and its path; nothing for an unusable payload. |
| EvidenceSearch.ChunkIdsStayApart | knowledge-service/app/graph_store.py:458-459 | Rows of one workspace have equal ids exactly when their chunks have, if these are given. |
| EvidenceSearch.EvidenceIsTraceable | knowledge-service/app/graph_store.py:453-463 | A row is attributed to a document only when its path holds the separator, and to the right id and filename for clean ids. |
| EvidenceSearch.Search | knowledge-service/app/graph_store.py:402-440 | The loop merges one contribution per requested workspace, empty where the workspace fails. |
| EvidenceSearch.SearchMeans | knowledge-service/app/graph_store.py:417-440 | What a search returns, said of the rows that the requested workspaces contributed. |
| EvidenceSearch.OnlyRequestedWorkspaces | knowledge-service/app/graph_store.py:417-440 | The result depends on the requested workspaces only, carries only their labels, and is empty for an empty request. |
| EvidenceSearch.FailureIsIsolated | knowledge-service/app/graph_store.py:422-437 | A failing workspace changes nothing but its own contribution. |
| EvidenceSearch.RepetitionIsHarmless | knowledge-service/app/graph_store.py:439-489 | Repeating a workspace in the request does not change the result. |
| EvidenceSearch.SearchesAreApart | knowledge-service/app/graph_store.py:458-486 | Rows of different workspaces never share a deduplication key. |
| EvidenceSearch.SearchIsFair | knowledge-service/app/graph_store.py:439-494 | The order of the request changes neither scores nor, without a tie at the cut, rows; each workspace's rows are a prefix of its own ranking. |
| EvidenceSearch.AnswerAppearsIff | knowledge-service/app/graph_store.py:417-440 | Exactly when a mounted workspace that answers appears in the result of a search. |
| DocumentRef.RefRoundTrip | knowledge-service/app/graph_store.py:453-463 | Id and filename are recovered from a path, for every filename, if and only if the id has no `__` and does not end in `_`. |
| DocumentRef.PrefixMatches | knowledge-service/app/graph_store.py:383-392 | Which rows of which ids the prefix of a clean id matches. |
| DocumentRef.PrefixIdentifies | knowledge-service/app/graph_store.py:359-367 | Between clean ids the prefix matches exactly the document's own rows. |
| DocumentRef.PrefixOvermatches | knowledge-service/app/graph_store.py:383-392 | Deleting `a` also matches the rows of `a__b`. |
| GraphOps.NothingToIndex | knowledge-service/app/graph_store.py:304-312 | There is text to index exactly when some chunk has content. |
| GraphOps.TextOfOne | knowledge-service/app/graph_store.py:304-308 | The indexed text of one chunk: place and page, or their stand-ins, above its content; nothing without content. |
| GraphOps.TextOfParts | knowledge-service/app/graph_store.py:304-308 | The indexed text of a list of chunks is that of its parts with a blank line between. |
| TenantGraph.TenantGraph.Insert | knowledge-service/app/graph_store.py:282-347 | An insert touches one workspace and one path in every store it passes through; it succeeds exactly under the condition of `InsertSucceedsIff`, and then the document can be read there; without text nothing happens. |
| TenantGraph.TenantGraph.DeleteDocs | knowledge-service/app/graph_store.py:377-400 | The deletion loop against its specification, stopping at the first call that raises. |
| TenantGraph.TenantGraph.Delete | knowledge-service/app/graph_store.py:496-508 | Success means exactly that something matched and no call raised; then all matching rows of the first page are gone and nothing else; a failure has removed nothing but matching rows. |
| TenantGraph.TenantGraph.Move | knowledge-service/app/graph_store.py:545-585 | A document readable in the source is readable in source or target in every store of the run; it succeeds exactly when enabled and the insert into another workspace does; failure leaves the source as it was. |
| TenantGraph.TenantGraph.MigrateLegacy | knowledge-service/app/graph_store.py:587-651 | The migration loop against its specification; each counter of the report is the number of outcomes of its kind, and the details are the failures in order. |
| DeleteSafety.InsertIsLocal | knowledge-service/app/graph_store.py:282-347 | An insert touches one workspace and one path, and success means the document is usable there. |
| DeleteSafety.InsertSucceedsIff | knowledge-service/app/graph_store.py:304-347 | An insert succeeds if and only if enabled, some chunk has content, both calls work, the document can be recorded, and its status is empty or "processed". |
| DeleteSafety.DeleteIsLocal | knowledge-service/app/graph_store.py:377-400 | In every store a delete passes through, all other workspaces are as they were. |
| DeleteSafety.DeleteIsExact | knowledge-service/app/graph_store.py:377-400 | Success removes every matching row of the first page, at least one, and nothing else; failure removes nothing but matching rows. |
| DeleteSafety.DeleteIsComplete | knowledge-service/app/graph_store.py:381-395 | After success the document is gone if and only if it had no row beyond the first 1000. |
| DeleteSafety.DeleteSucceedsIff | knowledge-service/app/graph_store.py:377-400 | A delete reports success if and only if something matched on the first page and no call raised. |
| DeleteSafety.DeleteLeavesNothingIff | knowledge-service/app/graph_store.py:377-400 | Whatever it reports, a delete leaves no row of the document if and only if none lies beyond the first page and its calls take effect. |
| DeleteSafety.DeleteSparesOthers | knowledge-service/app/graph_store.py:383-395 | Between clean ids a delete leaves every row of every other document. |
| MoveSafety.MoveNeverLoses | knowledge-service/app/graph_store.py:545-585 | A document usable in the source is usable in source or target in every store the run passes through, whichever calls fail. |
| MoveSafety.MoveOutcome | knowledge-service/app/graph_store.py:565-585 | What a true and a false result mean, and everything a move leaves unchanged. |
| MoveSafety.MoveSucceedsIff | knowledge-service/app/graph_store.py:565-585 | A move succeeds if and only if enabled and source and target are the same or the insert into the target succeeds. |
| MoveSafety.MoveClearsSourceIff | knowledge-service/app/graph_store.py:580-585 | Exactly when a successful move leaves no row of the document in the source. |
| MoveSafety.MoveSparesOthers | knowledge-service/app/graph_store.py:580-585 | Between clean ids a move leaves every row of every other document in the source. |
| MoveSafety.TrueMoveIsUsableIff | knowledge-service/app/graph_store.py:567-568 | After a true result the document can be read in the target, unless source and target are the same and it could not be read before. |
| MoveSafety.MoveInPlaceMayBeUnusable | knowledge-service/app/graph_store.py:567-568 | A move to the same workspace that reports success for an unreadable document. |
| MoveSafety.MoveMayKeepSource | knowledge-service/app/graph_store.py:580-585 | A successful move after which the source is still usable. |
| Migration.ReportAddsUp | knowledge-service/app/graph_store.py:610-651 | Indexed, skipped and failed count the outcomes of their kind and add up to the targets; the details are the failed documents with their reasons, once each, in order. |
| Migration.OutcomeExact | knowledge-service/app/graph_store.py:611-641 | What becomes of one target: skipped exactly when the lookup finds a row; else failed with the loader's reason cut at 200, "no chunks" or "insert failed"; else indexed exactly when the insert succeeds. |
| Migration.HasMeansPresent | knowledge-service/app/graph_store.py:349-375 | The lookup answers true exactly when it works and a matching row is on the first page; that row means presence, and is presence in a workspace of one page. |
| Migration.CleanRunLeavesAll | knowledge-service/app/graph_store.py:611-641 | After a run in which no target failed every target is present. |
| Migration.SkipsAllIff | knowledge-service/app/graph_store.py:611-619 | A run skips every target, and writes nothing, if and only if every lookup works and finds a row on the first page. |
| Migration.SkippedReport | knowledge-service/app/graph_store.py:611-619 | A report counts every target as skipped if and only if every lookup finds a row; nothing is then indexed or failed. |
| Migration.MigrationIsIdempotent | knowledge-service/app/graph_store.py:600-619 | After a run without failures a second run skips all its targets and writes nothing exactly under that condition; pages matter only in workspaces that targets name. |
| Migration.IndexedAreUsable | knowledge-service/app/graph_store.py:627-636 | What is counted as indexed is usable at the end, unless a later target of the same document failed. |
| Migration.IndexedAreUsableIff | knowledge-service/app/graph_store.py:610-636 | In every environment everything counted as indexed is usable at the end, if and only if no two targets name one document of one workspace. |
| Migration.DuplicateSpoils | knowledge-service/app/graph_store.py:610-636 | For any targets with such a duplicate, an environment in which an indexed document ends unusable. |
| Migration.SkippedMayBeUnusable | knowledge-service/app/graph_store.py:615-619 | Skipped means present, not usable. |
| ExtractBatches.PackChunks | knowledge-service/app/providers.py:97-109 | The loop computes the greedy packing of the numbered chunks. |
| ExtractBatches.PackedIsSplit | knowledge-service/app/providers.py:97-109 | The packing is an ordered split of all pieces into non-empty batches within the limit or of one piece. |
| ExtractBatches.PackedIsGreedy | knowledge-service/app/providers.py:97-109 | A batch ends only where the next piece would take it beyond 12000 characters; only single pieces exceed that. |
| ExtractBatches.PackedIsNumbered | knowledge-service/app/providers.py:97-109 | All chunks are there, in order, under their own numbers. |
| ExtractBatches.FirstIsLongest | knowledge-service/app/providers.py:100-107 | The first batch is the longest prefix that may be sent. |
| ExtractBatches.PackedIsFewest | knowledge-service/app/providers.py:97-109 | No other such split uses fewer batches. |
| ExtractBatches.PromptIsBounded | knowledge-service/app/providers.py:67-72 | The joined text of a batch of several chunks has at most 15426 characters. |
| ExtractBatches.PieceTells | knowledge-service/app/providers.py:67-72 | The prompt text of one chunk is its number in brackets and its content, and tells both. |
| ExtractBatches.SourceOfParts | knowledge-service/app/providers.py:67-72 | The prompt text of several chunks is theirs in order, with blank lines between. |
| Embedding.Embed | knowledge-service/app/providers.py:131-152 | The loop computes the batched, index-sorted result, void on failure and cut at the first incomplete answer. |
| Embedding.FullAnswerIsAligned | knowledge-service/app/providers.py:143-144 | An honest answer has at most one vector per text, and a full one is aligned after sorting. |
| Embedding.FullResultIsAligned | knowledge-service/app/providers.py:131-152 | The result is full exactly when every request was answered in full, and then vector i is that of text i. |
| Embedding.StopsEarly | knowledge-service/app/providers.py:131-152 | After any number of full answers a failure voids everything and an answer of another length is the last; what the full answers gave is aligned. |
| Embedding.LengthsAgreeIff | knowledge-service/app/providers.py:131-152 | Whatever the service answers, result and input have equal length exactly when all requests were answered in full or an over-long answer, after full ones, hides texts that were never sent. |
| Embedding.OverlongAnswerHidesTexts | knowledge-service/app/providers.py:149-152 | Such an answer: the result has full length although later texts were never sent. |
| Processing.DescribeImageChunks | knowledge-service/app/providers.py:154-202 | In place: image and space never change; the text changes exactly for images with a non-blank description, which then stands, marked, after the stripped text. |
| Processing.DocumentStore.Process | knowledge-service/app/processing.py:36-52 | The document is replaced exactly when the vector set is complete; stored chunks have no image, the space, and a text changed exactly where described; their vectors are aligned; otherwise the store is unchanged. |
| ManualBlock.InjectionLaws | scripts/gen_browser_manual.py:18-26 | What is put is read back, the surroundings are kept, and a second injection replaces the first. |
| ManualBlock.InjectedText | scripts/gen_browser_manual.py:18-26 | The text written, told by the places of the first BEGIN and of the first END after it. |
| ManualBlock.UpToDateIff | scripts/gen_browser_manual.py:18-26 | An injection leaves the text as it is exactly when the text already holds that block. |
| ManualBlock.InjectNeedsMarkers | scripts/gen_browser_manual.py:21-24 | Injection is possible exactly when some END follows the first BEGIN. |
| ManualBlock.IdempotentIff | scripts/gen_browser_manual.py:22-26 | Injecting twice equals injecting once if and only if the stripped manual holds no END. |
| FailedCleanup.CandidatesDiffer | scripts/cleanup_windows_sandbox.py:828-834 | No two of the names that are tried are equal. |
| FailedCleanup.StemCuts | scripts/cleanup_windows_sandbox.py:828-834 | The stem in a numbered name is what precedes the last dot, or the whole name. |
| FailedCleanup.TriedNames | scripts/cleanup_windows_sandbox.py:831-834 | As many names as were found taken are in the directory. |
| FailedCleanup.Metadata.MoveToFailed | scripts/cleanup_windows_sandbox.py:813-862 | The name itself or the first free numbered one is used, after at most n+1 checks; a written record notes the reason beside the metadata that was read; no earlier record is overwritten; metadata that was read stays readable at every point. |
| FailedCleanup.MetadataSurvivesIff | scripts/cleanup_windows_sandbox.py:836-860 | Exactly when the metadata of a readable original can still be read at the end. |
| FailedCleanup.FailedReadLosesMetadata | scripts/cleanup_windows_sandbox.py:837-860 | A read error followed by a successful write and removal loses the metadata. |
| AccessList.Dacl.RemoveSid | scripts/cleanup_windows_sandbox.py:146-167 | Collecting ascending and deleting descending leaves the order-preserving selection of the other entries. |
| AccessList.WithoutMatching | scripts/cleanup_windows_sandbox.py:298-315 | Deleting the collected indices, last first, equals the selection. |
| AccessList.KeptExact | scripts/cleanup_windows_sandbox.py:146-167 | Entries of other identifiers all stay, in order; one of the target stays exactly where it could not be read. |
| AccessList.SecondPassFindsNothing | scripts/cleanup_windows_sandbox.py:161-163 | A second pass finds nothing to delete if and only if the first could read every entry of the target. |
| AccessList.AscendingOrderIff | scripts/cleanup_windows_sandbox.py:165-167 | Why the order matters: ascending deletion gives the same list if and only if at most one entry matches. |
| WorkspaceName.NamesAreSafe | knowledge-service/app/graph_store.py:51-64 | Names hold no separator, two ids share one exactly when their compact forms agree, and a name has 35 characters exactly when 32 digits remain of the id. |
| WorkspaceName.AcceptedIff | knowledge-service/app/graph_store.py:61-64 | Of ids without blanks those are accepted that consist of dashes and at least one hexadecimal digit of either case. |
| WorkspaceName.UuidsNeverCollide | knowledge-service/app/graph_store.py:51-64 | UUIDs, in either case, get valid names of 35 characters, the prefix and their digits, and share one only when they differ in case alone. |
| WorkspaceName.ShortIdsCollide | knowledge-service/app/graph_store.py:61-64 | Ids that are not UUIDs can share a name. |

## Left out

- Task cancellation, a negative instance ceiling, and the disposal order of `asyncio.Lock` waiters: any waiter may be next.
- BestRows.BestRowsSurvive: assumes non-negative scores; a negative best score reverses the order of its batch in the code.
- EvidenceSearch.RepetitionIsHarmless: assumes that a workspace named twice in one request answers both queries alike; the code queries it twice.
- Floating-point rounding: scores are reals.
- The order in which a page of rows is returned, and rows that change while a page is processed.
- Several operations on the same document at once: a document operation meets failures, not other writers.
- What the indexing library does inside one workspace beyond the row of the document it is given, and its rewriting of file names that contain path separators.
- `count_documents`, the connection settings, the environment variables, the model and embedding adapters, logging.
- The progress callback of the migration, assumed not to raise.
- The answers of the extraction model, the heuristic extraction, and the thread pool, which keeps order.
- Parsing, the facts stored beside the chunks, the recorded parser backend and the graph indexing that follow the document store.
- The second access-list routine's security descriptor, and failures of `DeleteAce`, which the code ignores.
- Timestamps, metadata that is valid JSON but not an object, and metadata that is not valid UTF-8.
- Lower-casing outside ASCII in workspace names: such characters are rejected as not hexadecimal either way.
- The constant `page` and `source` fields of a row of evidence.
- Everything else in the cleanup script, the end-to-end tests, the console and the website: interface and platform plumbing.
