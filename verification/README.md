# LadyM: verified model

LadyM keeps an agent's memory as a graph of memory rows and typed, time-bounded edges, an in-process vector
index over the rows' embeddings, and background cycles that rewrite both: consolidation of episodes into facts,
extraction and merging of mental models, prediction of intents, merging of resource aliases. This project models
that code in Dafny and proves what it promises: what every step keeps, what holds over whole runs and under
interleaving, and where a promise holds only under a condition, exactly that condition.

| file | models |
|---|---|
| `Clustering.dfy` | union-find with path halving and the grouping by similarity |
| `VectorIndex.dfy` | the index of three parallel containers with swap-with-last delete |
| `IndexProtocol.dfy`, `SqliteStore.dfy` | the two-phase writes racing the lazy load, as a state machine, and the store's methods as runs of it |
| `Graph.dfy`, `Supersedes.dfy` | rows, edges and retirement; version chains |
| `Recall.dfy` | the hop-bounded expansion of search hits |
| `MentalModels.dfy` | extraction and merging of mental models |
| `Aliases.dfy`, `Resources.dfy` | merging of resources; the name registry |
| `Backlogs.dfy`, `Consolidate.dfy`, `Worker.dfy` | the oldest-first backlog, one pass over it, and replicated workers with crashes |
| `Predict.dfy` | the watermark and the windows of intent prediction |
| `Regex.dfy`, `Tokenizer.dfy` | the meaning of the tokenizer's regular expressions, and the hand-written matcher |
| `QueryCache.dfy` | the least-recently-used embedding cache |
| `SecretFile.dfy`, `Secrets.dfy` | the secrets file as text, and the encrypted store on top |
| `Hooks.dfy` | hook install and uninstall as edits of a JSON document |
| `Sorting.dfy`, `Wrappers.dfy` | Go's string order and stable sort; option and result types |

Code that works by changing things step by step is modelled by methods with loops on arrays, fields, sequences
and maps; each is proved against a specification function or predicate, and the lemmas are about those. A `Store`
holds the rows and the edges; `Now()` is its state as a value. Similarities, embeddings, hashes, ciphers, the
clock and the answers of language models are parameters: what is proved holds for all of them.

Where the code and its own documentation or the obvious claim differ, the model follows the code:

- `Retire` is documented to close the outgoing edges of the retired memory. It closes the edges in both directions
  (operations/supersedes.go:36-43), so retiring A for B and then B for C leaves the chain of A at A
  (`Supersedes.ChainOfTwoIsCut`); `Supersedes.RetireCutsChains` says where every chain then ends.
- `ResolveResource` does not skip retired resources, neither among the owners of a name nor among the vector hits.
  Uniqueness holds among live resources only. The answer is live, whatever the order of the listing, if and only if
  no retired resource owns the name and, when nobody owns it, the first good vector hit, if there is one, is not
  retired (`Resources.AnswerLiveIff`). Which names retired resources come to own is stated exactly
  (`Resources.OwnersAfterRun`): those of merged-away resources, and those given to a retired hit. A name given to a
  retired hit is lost: no later run gives it a live owner (`Resources.LostNamesStayLost`).
- `Tokenize` is documented to make camelCase and snake_case spellings tokenize alike. That holds if and only if,
  after the first word, no two one-letter words stand next to each other (`Tokenizer.CamelLikeSnake`).
- A put without a vector, a put or an update of a wrong dimension and the bulk deletes leave stale index entries
  (`IndexProtocol.PutKeepsExactIff`, `IndexProtocol.UpdateKeepsExactIff`, `IndexProtocol.BulkDeleteKeepsExactIff`).
  What a hot index holds beyond the database is exactly the entries such a write overtook and nothing cleared since,
  over every run (`IndexProtocol.BeyondTheDatabase`).
- Moving the watermark of `PredictL6` passes over episodes of its workspace that the cut left out and that share the
  creation time of the window's end; it passes over none of them if and only if the cut falls between two creation
  times, cuts nothing off or keeps nothing (`Predict.CutPassesNothingIff`).
- There is one watermark for all workspaces (operations/l6.go:15). A prediction for one passes over episodes of
  another that are not newer than the last of its window: over none if and only if every episode still ahead there is
  newer (`Predict.OtherWorkspaceIff`), which a clean cut does not give (`Predict.OtherWorkspacePassedOver`). Over a
  run the windows for a workspace leave no gap if and only if no prediction for another took anything of it
  (`Predict.NoGapIff`).
- A model's UPDATE verdict with nothing similar leaves the episode unstamped (operations/consolidate.go:225-227). What
  a pass leaves of the backlog is stated exactly, with those episodes and with a pass that breaks off
  (`Consolidate.BacklogAfter`), and the worker protocol has a step for it. Passes drain the backlog by what they stamp
  (`Worker.BacklogDrainsBut`), and one that stamps nothing leaves the next the same batch (`Worker.StuckBatch`).
- A new fact takes over the metadata of the row it is modelled on: the episode for an ADD, the nearest fact for an
  UPDATE. Neither search nor backlog skips retired rows, so the new fact is live if and only if that row is not
  retired (`Consolidate.LiveFactsAfter`); an UPDATE of a retired fact stamps the episode and changes no live fact
  (`Consolidate.UpdateOfRetired`).
- A pass over mental models without a workspace reads the rows of all workspaces, and the models it makes are seen by
  no pass over a workspace. A pass takes only uncovered memories if and only if it sees the models of all covered ones
  it sees (`MentalModels.TakenUncoveredIff`); passes that all name a workspace, or all name none, keep that. After any
  pass each memory still has one live model at most if and only if no cluster it made a model of held a covered memory
  (`MentalModels.ExtractL5`).
- A secret whose name has blanks around it, `=`, a newline or a leading `#` is not read back as it was set
  (`Secrets.Store.Set`, `SecretFile.RoundTripIff`).
- Uninstalling hooks drops groups and lists that were empty before, and installing replaces a null
  (`Hooks.FileRestoredIff`).

## Model

| member | source | states |
|---|---|---|
| Clustering.Find | operations/l5.go:86-93 | the walk ends at the root of the tree of its argument, and path halving on the way leaves every position in its tree |
| Clustering.HalvingKeepsForest | operations/l5.go:88-91 | pointing a position at its grandparent changes no tree and keeps the heights that bound the walks |
| Clustering.Union | operations/l5.go:94-99 | merges exactly the two trees of its arguments and no others |
| Clustering.JoinKeepsForest | operations/l5.go:94-99 | hanging one root under another gives a forest in which exactly those two trees became one |
| Clustering.ChainShares | operations/l5.go:100-106 | once every close pair shares a tree, so do the ends of every chain of close pairs |
| Clustering.ConnectedComponents | operations/l5.go:73-116 | the groups are a partition of the ids, none missing and none twice, order kept inside a group, and two ids share a group if and only if a chain of pairs at least as similar as the threshold connects them |
| VectorIndexes.VectorIndex.Upsert | storage/vector_index.go:50-70 | refines setting one key of a map from id to unit vector; a vector of another dimension is refused without effect |
| VectorIndexes.VectorIndex.Delete | storage/vector_index.go:109-126 | refines removing one key: swapping the last row into the gap loses and mixes up nothing |
| VectorIndexes.VectorIndex.Search | storage/vector_index.go:72-107 | returns the min(topK, N) best entries, each with its inner product with the normalised query, the greatest first and equal ones by id, and no entry left out has a greater one |
| VectorIndexes.TopKUnique | storage/vector_index.go:98-106 | there is only one such answer: it depends on the map from id to vector alone, not on the history of insertions and deletions |
| IndexProtocol.NextKeepsInv | storage/store_sqlite.go:216-237 | every atomic step of a writer, deleter, load or rebuild keeps the invariant that links rows, pending writes, snapshot and index |
| IndexProtocol.HotIndexCovers | storage/store_sqlite.go:227-260 | in every interleaving, once the index is hot each id without a pending write and with an embedding of the right dimension is in it with exactly that normalised vector |
| IndexProtocol.CleanRunIsExact | storage/store_sqlite.go:310-341 | with only vectored puts and updates and single deletes, a hot index equals the database whenever no write is in flight |
| IndexProtocol.OpenedStoreTheorem | storage/store_sqlite.go:209-211 | both hold for every run that starts from a freshly opened database with any rows |
| IndexProtocol.NextStaleIff | storage/store_sqlite.go:310-341 | a step leaves an entry without a row of the index dimension behind exactly when it overtakes it, or when it was so before and the step does not clear it |
| IndexProtocol.BeyondTheDatabase | storage/store_sqlite.go:227-341 | over every run from a freshly opened database, a hot index with no write in flight holds the database and, besides, exactly the entries that a put without a vector, a refused vector or a bulk delete overtook and no later step cleared; it equals the database if and only if there are none |
| IndexProtocol.PutKeepsExactIff | storage/store_sqlite.go:335-340 | an exact index stays exact over a put if and only if the vector has the index dimension or there was no entry to leave stale |
| IndexProtocol.UpdateKeepsExactIff | storage/store_sqlite.go:413-431 | an exact index stays exact over an update if and only if there is no vector, or it has the index dimension, or there was no entry to leave stale |
| IndexProtocol.BulkDeleteKeepsExactIff | storage/store_sqlite.go:788-802 | an exact index stays exact over a bulk delete if and only if no indexed row is deleted |
| IndexProtocol.LoadIsARun | storage/store_sqlite.go:242-260 | a whole load is a run of the protocol's steps, in any order of the rows |
| IndexProtocol.BrokenLoadIsARun | storage/store_sqlite.go:233-259 | a load that breaks off after any of its rows is a run of the protocol's steps that leaves the index cold |
| SqliteStores.SqliteStore.constructor | storage/store_sqlite.go:209-211 | a store opens cold, with an empty index, over whatever rows the database holds |
| SqliteStores.SqliteStore.PutMemory | storage/store_sqlite.go:310-341 | is the two halves of a put of the protocol; fails exactly for a vector of another dimension, whose row is written all the same |
| SqliteStores.SqliteStore.UpdateMemoryContent | storage/store_sqlite.go:406-433 | is an update of the protocol: without a vector the embedding stays, a missing row is a no-op |
| SqliteStores.SqliteStore.DeleteMemory | storage/store_sqlite.go:391-399 | is a delete of the protocol, row and index entry |
| SqliteStores.SqliteStore.DeleteMany | storage/store_sqlite.go:788-802 | is a bulk delete of the protocol: the index is not told |
| SqliteStores.SqliteStore.WarmIndexFromBlobs | storage/store_sqlite.go:242-260 | copies stored embeddings of the index dimension, all of them unless the query breaks off, and reports whether it did |
| SqliteStores.SqliteStore.EnsureIndex | storage/store_sqlite.go:227-237 | loads at most once; a load that fails, at once or after some rows, leaves the index cold with what was copied, to be tried again |
| SqliteStores.SqliteStore.RebuildVectorIndex | storage/store_sqlite.go:269-275 | is a rebuild of the protocol: new dimension, empty and cold index |
| SqliteStores.SqliteStore.VectorSearch | storage/store_sqlite.go:279-284 | unless the load failed, the answer is the top k over an index that covers every settled indexable row |
| Graph.RetireKeepsWellFormed | operations/supersedes.go:21-52 | retiring keeps every row and edge under its own id and every edge between stored rows |
| Graph.Store.PutMemory | storage/store_sqlite.go:310-334 | upserts one row; an existing row keeps its creation time |
| Graph.Store.PutEdge | storage/store_sqlite.go:562-577 | upserts one edge and nothing else |
| Graph.Store.DeleteMemory | storage/store_sqlite.go:391-394 | removes the row and every edge at it |
| Graph.Store.Neighbors | storage/store_sqlite.go:607-629 | lists exactly the valid edges at an id, of one relation or all, each once |
| Graph.Store.IterMemories | storage/store_sqlite.go:460-489 | lists exactly the rows of the workspace, layer and type asked for, each once |
| Graph.Store.Retire | operations/supersedes.go:21-52 | the row names its replacement, or gets the bare flag when there is none, and nothing else of it changes, nor any other row; every valid edge at it ends now, and the only edge added is the supersedes edge to the successor, if any |
| Graph.RowsAfterRetire | operations/supersedes.go:21-52 | with a successor the mark is its name and the flag stays as it was, without one the flag is set and the name stays; every other field and row is as it was |
| Graph.EdgesEndedByRetire | operations/supersedes.go:32-50 | exactly the valid edges at the row get this moment as their end, the only new edge leads to the successor, and no other edge changes |
| Graph.LinksAfterRetire | operations/supersedes.go:36-50 | the valid links after retiring are those away from the retired memory and the one to its successor |
| Supersedes.OnlyEdgeOfRetired | operations/supersedes.go:36-50 | a retired memory has one valid edge, to its successor, or none |
| Supersedes.RetireKeepsAcyclic | operations/supersedes.go:21-52 | retiring for another memory closes no cycle of valid supersedes edges |
| Supersedes.RunKeepsChains | operations/supersedes.go:21-52 | over any run of retirements the valid supersedes graph stays without cycles and without forks |
| Supersedes.RetiredEndsWithSuccessor | operations/supersedes.go:44-50 | after retiring m for n, the chain of m ends exactly where the chain of n does |
| Supersedes.LatestAgrees | operations/supersedes.go:55-79 | so the walks from m and from n have the same result |
| Supersedes.RetireCutsChains | operations/supersedes.go:36-43 | a chain that led into the retired memory ends at the last memory before it, and every other chain where it did |
| Supersedes.ChainOfTwoIsCut | operations/supersedes.go:36-43 | retiring a for b and then b for c leaves the chain of a at a: c is not found |
| Supersedes.LatestInChain | operations/supersedes.go:55-79 | ends on every graph, at an id reached over newest valid supersedes edges; without cycles, at the end of the chain |
| Recall.FollowSupersedes | operations/recall.go:215-231 | exactly the unseen newer versions inside the workspace get a new hit, each one step on from the node, with 6 tenths of the score over the depth, and 0.05 at least; exactly all newer versions become seen |
| Recall.VisitNeighbors | operations/recall.go:232-257 | exactly the unseen neighbours inside the workspace get a new hit, with 5 tenths of the score, and are queued one hop further; exactly all neighbours become seen |
| Recall.VisitNode | operations/recall.go:215-257 | both together: a newer version is reported with 6 tenths of the score and never queued, every other neighbour with 5 tenths and queued, and nothing else is |
| Recall.WalkReported | operations/recall.go:207-259 | once the queue is empty whatever a walk within the hop bound ends at is reported, no farther than the walk is long, if the walk avoids what was known before and goes on through no newer version |
| Recall.ShortestReported | operations/recall.go:254-256 | the path given with a hit is a shortest such walk |
| Recall.ExpandAnchor | operations/recall.go:207-259 | on every graph one anchor's search ends and reports exactly what it reaches within the bound by walks that avoid the anchors and what was reported before, and go on through none of the newer versions it reports, nearest first, each by a shortest such walk and with its similarity |
| Recall.SuccessorHit | operations/recall.go:215-231 | a direct successor of the anchor that was not known before comes straight from it with 6 tenths of its score, and no path goes on through it |
| Recall.LoneExact | operations/recall.go:207-259 | with nothing but itself to avoid and no newer versions, an anchor gets exactly the memories within the bound, by shortest paths |
| Recall.Backtrack | operations/recall.go:261-287 | adds exactly unseen file rows of visited symbols, of every symbol visited before it started |
| Recall.Tier2Expand | operations/recall.go:194-289 | for any anchors: no hit twice and none an anchor; every graph hit has a valid path of at most hops + 1 ids and its exact similarity; each anchor in turn gets exactly what it reaches within the bound past the anchors and what earlier ones got, and through no newer version; so no direct neighbour is missed, a successor of an anchor has 6 tenths of its score and nothing is reached through it, and a lone anchor without newer versions gets everything within the bound |
| MentalModels.LinkedModelsCover | operations/l5.go:348-354 | linking a live model to stored memories covers exactly those in addition, whoever covered them before |
| MentalModels.LinkedKeepsCover | operations/l5.go:348-354 | linking a live model to memories nobody covers keeps one live model a memory at most |
| MentalModels.LinkedTwice | operations/l5.go:348-354 | linking a memory that is covered already gives it two live models |
| MentalModels.TakenUncoveredIff | operations/l5.go:295-309 | the memories an extraction takes are all uncovered if and only if it sees the model of every covered one it sees |
| MentalModels.MixedScopes | operations/l5.go:286-287 | a model made without a workspace is not seen by a pass over the workspace of its members |
| MentalModels.RetireKeepsCover | operations/supersedes.go:21-52 | retiring any memory leaves no valid abstracts edge at a retired model and doubles none |
| MentalModels.DeleteKeepsCover | storage/store_sqlite.go:391-394 | deleting any row keeps one live model a memory at most |
| MentalModels.OtherEdgeKeepsCover | storage/store_sqlite.go:562-577 | writing an edge of another relation, even over an abstracts edge, keeps one live model a memory at most |
| MentalModels.CoveredMemberIds | operations/l5.go:49-70 | returns exactly the memories that a live model seen by the pass abstracts |
| MentalModels.FindCandidates | operations/l5.go:295-309 | lists exactly the abstractable memories the pass sees, and sees no model of, each once; when the scope is in order, exactly the uncovered ones |
| MentalModels.AddModel | operations/l5.go:163-185 | stores one live model whose content is its title and, behind it, its text, and links it to all its members; coverage grows by exactly the members, and one live model a memory at most remains if none of them was covered |
| MentalModels.ExtractClusters | operations/l5.go:311-359 | a cluster of what the pass takes gets a new model if and only if it is large enough and the provider summarised it; the model holds that summary and abstracts all of the cluster, and exactly the members of such clusters become covered in addition; one live model a memory at most remains if and only if no such cluster held a covered memory, as in every scope in order |
| MentalModels.CollectMembers | operations/l5.go:224-243 | lists exactly the stored memories that some model of the component abstracts, each once |
| MentalModels.MergeMoves | operations/l5.go:258-275 | retiring the models and linking the new one moves every member, leaves coverage as it was, and gives no memory a second model |
| MentalModels.MergeKeepsTwice | operations/l5.go:216-280 | a memory with one model the pass sees and one it does not still has both kinds after a merge |
| MentalModels.MergeGroup | operations/l5.go:216-280 | either nothing happens or one new live model, holding title and text of the summary of the members, abstracts all that the retired ones did, each of which names it; no other row or abstracts edge changes |
| MentalModels.MergeL5 | operations/l5.go:187-282 | the components are exactly those of similar live models; each is kept as it is or replaced as a whole, its models naming the replacement, every memory stays as covered as it was, and with a provider that answers every component of two or more with members is merged |
| MentalModels.ExtractL5 | operations/l5.go:285-384 | over every pass and whatever the provider answers at each call, no memory loses its cover and no retired model keeps a valid edge; afterwards each memory has at most one live model if and only if no chosen cluster held a covered one, and so always when the pass sees the models of the covered memories it sees, which it keeps; models are made as extraction and merge say, and a merge comes with every n-th cycle |
| Aliases.MergeWinner | operations/maintain.go:431-442 | the survivor is the older of the two, the id deciding between equals |
| Aliases.MergeResourcePair | operations/maintain.go:445-493 | the two rows, the repointed links and the retirement are those of one merge, and nothing else changes |
| Aliases.AppendOnce | operations/resource.go:33-44 | a name is appended if and only if no alias is equal to it up to case |
| Aliases.SurvivorRow | operations/maintain.go:448-470 | the survivor keeps its aliases in front, gains every one of the other's that it did not have up to case and none twice, and changes in nothing else |
| Aliases.LosersNameWinners | operations/maintain.go:489-492 | over any sequence of merges every resource merged away names exactly what it was merged into |
| Aliases.LinksAfterMerge | operations/maintain.go:472-492 | after a merge the valid operates_on links are those away from the loser, and for each source of the loser one to the winner |
| Aliases.LiveAfterMerge | operations/maintain.go:489-492 | a merge takes exactly the loser from the live resources |
| Aliases.SurvivorIsOldest | operations/maintain.go:360-442 | over any sequence of merges, what a resource became part of is live and at least as old as it |
| Aliases.HistoryFollows | operations/maintain.go:472-487 | over any sequence of merges, a source outside the resources that operated on a live resource still operates on what that became part of |
| Aliases.NothingIntoMerged | operations/maintain.go:489-492 | no valid operates_on edge leads to a resource that was merged away |
| Aliases.MergesCount | operations/maintain.go:419-423 | the live resources go down by exactly the number of merges |
| Aliases.MergeAliases | operations/maintain.go:360-427 | the pass is a sequence of merges of pairs that were similar and confirmed, its count their number, and each resource merged away names its survivor; run to its end it leaves no confirmed pair of live resources apart |
| Resources.GrowKeepsRegistry | operations/resource.go:94-107 | an alias nobody owned, added to one resource, gives no name a second live owner |
| Resources.CreateKeepsRegistry | operations/resource.go:110-119 | a new resource for an unowned name keeps every name with one live owner at most |
| Resources.FoldKeepsRegistry | operations/maintain.go:445-493 | a merge keeps every name with one live owner at most, and every owned name owned |
| Resources.NamesStayOwned | operations/resource.go:46-120 | however resolving and merging interleave, each folded name has at most one live owner, and one that has an owner always has one |
| Resources.EmptyIsRegistry | operations/resource.go:110-119 | an empty store is well registered, so what holds over runs holds from the start |
| Resources.GrowOwners | operations/resource.go:94-107 | giving a name to a vector hit gives it a live owner if and only if the hit is live, a retired one if it is retired, and changes the owners of no other name |
| Resources.FoldOwners | operations/maintain.go:445-493 | a merge changes no name's having a live owner; those with a retired owner gain exactly the names of the loser |
| Resources.OwnersAfterRun | operations/resource.go:58-120 | after any run of resolving and merging a name has a retired owner if and only if it had one, or a step merged away a resource that owned it, or a step gave it to a retired hit; and a live one if and only if it had one, or a step created it or gave it to a live hit |
| Resources.LostNamesStayLost | operations/resource.go:61-76 | a name that only retired resources own never has a live owner again |
| Resources.NeverRetiredIff | operations/resource.go:61-76 | for every order of the listing the owner found is not a retired one if and only if no retired resource of the workspace owns the name |
| Resources.AnswerLiveIff | operations/resource.go:58-120 | for every order of the listing the whole answer is live if and only if no retired resource of the workspace owns the name and, when nobody owns it, there is no good hit or the first one is not retired |
| Resources.MergedNameHasTwoOwners | operations/resource.go:67-76 | after every merge the retired loser owns its name beside the live winner |
| Resources.FindOwner | operations/resource.go:61-76 | finds the first resource, in the order of a listing of all resources of the workspace, retired or not, whose content or one of whose aliases is the name up to case |
| Resources.ResolveResource | operations/resource.go:58-120 | returns a stored resource that owns the name: the first owner in listing order, else the first good vector hit, which takes the name as one more alias and keeps all else, else a new entity with just this name; keeps the registry; the answer is live exactly when AnswersLive of AnswerLiveIff says so, and the name has a live owner afterwards if and only if it had one or was given to a live resource |
| Backlogs.OldestIsOldest | operations/consolidate.go:153-156 | stable sort and cut take the oldest min(n, all) rows, oldest first |
| Sorting.SortStable | operations/consolidate.go:153-187 | the sort keeps elements that are equal in the order as they stood |
| Sorting.StringLessIff | operations/maintain.go:431-442 | one string is less than another if and only if it is a proper prefix of it or has the smaller character where they first differ |
| Consolidate.OfflineClassify | operations/consolidate.go:77-90 | NOOP exactly for a fact of the same content, UPDATE exactly when the nearest reaches the threshold otherwise, never DELETE |
| Consolidate.FindPending | operations/consolidate.go:137-152 | lists exactly the episodic rows of the workspace without a positive stamp and not older than the bound, and counts those with one |
| Consolidate.SelectBatch | operations/consolidate.go:137-156 | the batch is the oldest min(500, pending) of the backlog |
| Consolidate.ProjectProvenance | operations/consolidate.go:97-124 | afterwards the valid links are those before, one from the fact to its episode, and one from the fact to everything the episode operates with, in either direction |
| Consolidate.FindSimilar | operations/consolidate.go:172-187 | lists exactly the rows of the hits of similarity 0.1 or more, of the workspace and of the semantic layer, nearest first, equally near ones in the order of the hits |
| Consolidate.AddFact | operations/consolidate.go:212-223 | adds one fact of the workspace that says the verdict's text or, without one, the episode's, with the hash of what it says, the episode's tags and metadata and its id as source, and exactly its provenance to the valid links |
| Consolidate.UpdateFact | operations/consolidate.go:224-253 | adds the nearest fact again with the verdict's text or the episode's, its hash, and the ids of the episode and the fact it came from; that fact names the new one as its replacement and nothing else of it changes, nor any other row; the valid links lose those of the old fact and gain its succession and the provenance of the new one |
| Consolidate.ConsolidateOne | operations/consolidate.go:170-267 | the verdict is the classifier's on what was found, rows and links change as that verdict says, not at all for a word that is no verdict, and the episode is stamped unless the verdict was UPDATE with nothing similar |
| Consolidate.RowsAfterVerdict | operations/consolidate.go:212-258 | field by field what each verdict stores, and which rows it leaves as they were |
| Consolidate.StoredIsNotAddedAgain | operations/consolidate.go:77-90 | once a verdict has stored a fact, the offline classifier answers NOOP for every candidate of the same hash that finds it among the similar ones |
| Consolidate.LiveFactsAfter | operations/consolidate.go:212-258 | for every verdict, the live facts afterwards are those before less the one replaced, and the new one if and only if the row whose metadata it takes over is not retired |
| Consolidate.UpdateOfRetired | operations/consolidate.go:224-253 | an UPDATE leaves the live facts as they were if and only if the nearest fact was retired, and then the new fact is retired from the start |
| Consolidate.Consolidate | operations/consolidate.go:130-270 | runs through the oldest 500 of the backlog, one such step each, in order, until an error; counts verdicts and skipped episodes right; stamps exactly the episodes it reached less those passed over, and exactly those leave the backlog; an offline pass reaches all and passes over none |
| Consolidate.BacklogAfter | operations/consolidate.go:262-268 | what leaves the backlog is the batch as far as the pass went, less what it passed over |
| Consolidate.PassIsACycle | operations/consolidate.go:130-270 | what is promised of a pass is a cycle of the worker protocol: select, then effect and stamp, or pass over, for each episode; it can release at its end if and only if the pass was a success |
| Worker.BacklogDrains | operations/consolidate.go:153-156 | n passes over a backlog that gets no new episodes leave max(0, pending - 500 n) |
| Worker.BacklogDrainsBut | operations/consolidate.go:153-156 | passes that pass episodes over leave the backlog less the sum of what they stamped |
| Worker.StuckBatch | operations/consolidate.go:225-227 | a pass that passes over its whole batch leaves the next pass the same backlog and batch |
| Worker.BatchesInOrder | operations/consolidate.go:153-156 | nothing in a later batch is older than anything in an earlier one |
| Worker.NextKeepsInv | cli/worker.go:22-58 | taking the lock, working, passing over, failing, crashing and releasing, by any replica, keep mutual exclusion and the account of effects |
| Worker.WorkersTheorem | cli/worker.go:22-58 | in every interleaving of replicas with crashes and with episodes passed over, at most one cycle runs at a time, and a verdict is applied at most 1 + (cycles that died between its effect and its stamp) times, exactly that often once stamped |
| Worker.FinishedCycle | operations/consolidate.go:137-269 | a cycle that ends has stamped exactly the oldest 500 of the backlog it found under the lock, less those it passed over; whatever else it left is no older |
| Worker.FinishedOfflineCycle | operations/consolidate.go:202-204 | in runs that pass nothing over, as with the offline classifier, a cycle that ends has stamped exactly its batch |
| Predict.SweepExpired | operations/l6.go:52-76 | marks exactly the intents of the workspace that are not retired and whose time has passed, a missing time counting as 0 and one that is no number never passing, ends exactly the valid edges at them, changes nothing else, and counts them |
| Predict.SelectWindow | operations/l6.go:87-100 | the window is the oldest min(cap, all) of the episodes past the watermark |
| Predict.NothingPassedOverIff | operations/l6.go:93-100 | moving the watermark to the end of any oldest window passes over nothing else if and only if no episode outside it shares the creation time of its last |
| Predict.CutPassesNothingIff | operations/l6.go:91-100 | on the input: sorting and cutting passes over no episode of the workspace if and only if the cap is 0, no more than the cap are pending, or the last kept and the first cut off differ in creation time |
| Predict.OtherWorkspaceIff | operations/l6.go:79-184 | a successful prediction for any workspace with a nonempty window leaves what is ahead of a workspace as it was if and only if every episode ahead there is newer than the last of the window |
| Predict.OtherWorkspacePassedOver | operations/l6.go:15-184 | two episodes of two workspaces and a clean cut for the later one: the other is never seen |
| Predict.WatermarkMonotone | operations/l6.go:180-184 | the watermark never goes back |
| Predict.WindowIsNextStretch | operations/l6.go:91-100 | with distinct increasing times the window is the next stretch of the timeline |
| Predict.WindowsFollowTimeline | operations/l6.go:78-104 | the windows of successive predictions, between which episodes arrive and other workspaces move the watermark, are end to end a front of the timeline in order, less what those moves passed over; without them the watermark is the end of the last window |
| Predict.ActMatches | operations/l6.go:78-104 | each call for the workspace, successful or not, each arriving episode, each call for another workspace and each write elsewhere is an event of the timeline of the workspace |
| Predict.ForeignPasses | operations/l6.go:79-184 | a call for another workspace passes over exactly what it takes off the episodes ahead |
| Predict.PredictionsFollowTimeline | operations/l6.go:78-184 | over any run of a store in which the episodes of a workspace arrive at distinct, increasing times, with predictions for it and for others: the windows for the workspace are end to end a front of its episodes in time order less exactly what the others took off; the watermark never goes back |
| Predict.NoGapIff | operations/l6.go:78-184 | over such a run the windows are a front without a gap and without a repeat if and only if no successful prediction for another workspace took anything off |
| Predict.EmptyTimeline | operations/l6.go:83-86 | a store without episodes and watermark is where such a run can start |
| Predict.PredictL6 | operations/l6.go:41-186 | sweeps, selects the window past the watermark, adds one live row for each intent with a text, which expires exactly when its horizon, or the default one, is over, and then, and only on success, moves the watermark to the end of the window; it is a prediction of the runs of PredictionsFollowTimeline, seen from its own workspace and from any other |
| Predict.TextsInOrder | operations/l6.go:140-150 | the intents stored are those with a text, in the order of the answer |
| Tokenizer.FirstIsStep | storage/embeddings.go:67-68 | the preferred match of the camelCase pattern, alternatives in order and greedy, is the one given by the runs of capitals, small letters and digits |
| Tokenizer.PartsAreMatches | storage/embeddings.go:67-68 | all matches of the pattern from left to right are the parts in closed form |
| Tokenizer.FindHump | storage/embeddings.go:79-87 | the backward scan finds the capital that starts a hump exactly when there is one, at the last capital |
| Tokenizer.SplitCamel | storage/embeddings.go:69-129 | the hand-written matcher returns exactly the findall of the regular expression |
| Tokenizer.PartsKeepAlnum | storage/embeddings.go:69-129 | the parts are nonempty and end to end give the input without its other characters |
| Tokenizer.Tokenize | storage/embeddings.go:135-154 | on ASCII text, gives the lower-case parts of every match of the token pattern, or the match itself if it has none; end to end that is the text in lower case, less what the pattern skips and the underscores of words |
| Tokenizer.SignsSeparate | storage/embeddings.go:135-151 | for every text, each of the signs .,;:()[]{} is a token of its own wherever it stands, and any other sign that is no word character only separates |
| Tokenizer.UnderscoreRun | storage/embeddings.go:148-151 | a run of underscores is one token |
| Tokenizer.TokensCut | storage/embeddings.go:135-154 | a text tokenizes piece by piece wherever no two word characters are torn apart |
| Tokenizer.TokensKeepText | storage/embeddings.go:135-154 | end to end the tokens are the text in lower case, less what the pattern skips and the underscores of matches that have parts |
| Tokenizer.PartsCut | storage/embeddings.go:69-129 | a word comes apart wherever a letter meets a digit, a small letter a capital, or anything another character |
| Tokenizer.LettersParts | storage/embeddings.go:74-110 | of capitals with small letters behind them the last capital goes with the small letters, and the others are one part |
| Tokenizer.DigitsPart | storage/embeddings.go:118-125 | a run of digits is one part |
| Tokenizer.CamelLikeSnake | storage/embeddings.go:131-154 | every list of lowercase words is what its snake_case spelling tokenizes to, and what its camelCase spelling tokenizes to if and only if no two one-letter words meet after the first |
| QueryCache.RecentSplit | storage/query_cache.go:51-60 | what was requested since the last request for a text stands behind it, in its own order of recency |
| QueryCache.KeptIffFewSince | storage/query_cache.go:39-47 | a text is among the k most recent if and only if fewer than k other texts were requested since |
| QueryCache.OrderNext | storage/query_cache.go:36-57 | moving a listed text to the end, or appending it and dropping the oldest, gives the most recent texts of the longer history |
| QueryCache.CachedEmbedding.Embed | storage/query_cache.go:27-49 | answers what the inner provider answers, also while that is down for a cached text; order stays the last min(size, distinct) successful texts by recency, idx its inverse and cache the same keys |
| QueryCache.CachedEmbedding.CachedIffFewSince | storage/query_cache.go:28-31 | a text is answered from the cache if and only if it was requested before and fewer other texts than the size since |
| SecretFile.RoundTripIff | secrets/secrets.go:306-336 | a rendered file reads back as the same entries if and only if every name is well formed and every ciphertext clean |
| SecretFile.ParseRepresentable | secrets/secrets.go:306-324 | whatever a file holds, the entries read from it are ones that can be written and read back |
| SecretFile.RenderingUnique | secrets/secrets.go:326-336 | the entries sorted by name have one rendering |
| SecretFile.ReadText | secrets/secrets.go:306-324 | the loop over the lines skips blanks, comments and lines without an equals sign, cuts at the first one, trims both parts, and lets later lines win |
| SecretFile.EntryAppended | secrets/secrets.go:314-322 | one more line with an entry sets exactly that entry, whatever blanks stand around name and value and whatever stood there before |
| SecretFile.OtherLineAppended | secrets/secrets.go:315-318 | one more line that is blank, a comment, or without an equals sign changes nothing |
| SecretFile.RenderKV | secrets/secrets.go:326-336 | writes the entries sorted by name, one line each |
| Secrets.SetEffect | secrets/secrets.go:213-236 | writing one more sealed value adds exactly it, with every ciphertext still opening and the cache still agreeing, if and only if its name is well formed |
| Secrets.Store.SetMasterKey | secrets/secrets.go:104-123 | refuses exactly when there are entries, and changes no value |
| Secrets.Store.Get | secrets/secrets.go:181-211 | in a valid store, returns the value of the name or an empty string, and caches nothing that disagrees; fails exactly for an uncached entry that does not open |
| Secrets.Store.Set | secrets/secrets.go:214-236 | in a valid store, adds exactly the value and stays valid if and only if the name is well formed; needs a master key |
| Secrets.Store.Remove | secrets/secrets.go:249-263 | removes exactly the value from file and cache; false exactly for an absent name |
| Secrets.Store.ResetMasterKey | secrets/secrets.go:126-178 | every value is the same under the new key and the cache is empty; nothing changes unless every entry opens under the old one |
| Hooks.InstalledAll | cli/hook_install.go:39-51 | every installed event has a hook of ours behind the groups it had, and other events are untouched |
| Hooks.InstalledExactly | cli/hook_install.go:39-51 | an event with a command of our prefix keeps its groups, one with other groups gets ours behind them, and one without or with a null gets ours alone |
| Hooks.InstallIdempotent | cli/hook_install.go:40-42 | installing again, for any harness, changes nothing |
| Hooks.OthersKeptInOrder | cli/hook_install.go:163-185 | uninstalling keeps exactly the hook entries that are not ours, in their order |
| Hooks.GroupsLeft | cli/hook_install.go:163-185 | the groups left are those that hold a foreign hook or are no objects, in their order, with all their other fields and their foreign hooks |
| Hooks.NoneLeft | cli/hook_install.go:158-191 | after uninstalling no event holds a hook of ours |
| Hooks.UninstallCancelsInstall | cli/hook_install.go:158-191 | to uninstall after installing is to uninstall, but for the nulls installing replaced |
| Hooks.FileRestoredIff | cli/hook_install.go:142-200 | uninstalling after installing restores the hooks and all other keys if and only if the hooks were an object or missing, no list or group in them was empty or held ours, and no installed event was null |
| Hooks.FindOurs | cli/hook_install.go:110-132 | true exactly when some group of the event's list holds a command with our prefix |
| Hooks.AddGroups | cli/hook_install.go:39-51 | fails exactly when an event holds something else than a list or null; otherwise adds our group to exactly the events without a hook of ours |
| Hooks.StripEvents | cli/hook_install.go:158-191 | drops our entries, the groups and the lists this empties, and leaves everything else |
| Hooks.HookConfig.Install | cli/hook_install.go:30-54 | writes the installed document, or leaves a file it cannot read or extend alone; the first file found is backed up once |
| Hooks.HookConfig.Uninstall | cli/hook_install.go:146-200 | writes the uninstalled document, removes a file that held nothing else, and leaves an unreadable or missing one alone |

## Left out

- The HTTP API, MCP server, CLI commands, web console, SDKs, benchmarks and evaluation harness: they wrap the code modelled here.
- SQL text, pragmas, transactions and the Postgres backend: only the effect of each statement on rows and edges is modelled, and statements do not fail except where a parameter says so.
- Embeddings, hashes, ciphers and language models: parameters. Projected edge ids are injective by construction; the model has no hash collisions. Errors of the embedding provider inside a pass are not modelled.
- Floating point: similarities, scores and times are real numbers; nothing is said about rounding or NaN, and a query vector shorter than the index dimension, on which the dot product would panic, is not modelled.
- Same-id concurrent writers and the visibility of one process's hot index to another: the protocol has one write in flight per id, in one process.
- VectorIndexes.VectorIndex: the index's own read-write lock is not modelled; its methods are atomic, as the lock makes them.
- Rows in the database that cannot be scanned: the load skips them in the code, the model has none.
- Aliasing: rows handed out by the store are values in the model. Where the code updates a row shared by a list and a map, the model updates the list it later reads.
- Consolidate.ProjectProvenance: says which valid links there are, not when each became valid; weights and metadata of edges are not modelled.
- Times of update and access, access counts, activation, and metadata other than what decides or names a source are not modelled.
- Worker.WorkersTheorem: a cycle is its consolidation pass (`Consolidate.PassIsACycle`) with the lock around it; episodes are not deleted by decay while workers run, and the endless loop, sleeping and metrics are left out. Passes started by the API, the MCP tool or the `consolidate` command (api/api.go:697, mcp/server.go:397, cli/cli.go:328) take no worker lock and are not steps of the protocol, so what is proved about one cycle at a time and about repeated effects does not cover them.
- Worker.BacklogDrains: about passes that stamp their whole batch, as every offline pass does; `Worker.BacklogDrainsBut` is about any.
- Recall: the merge of tiers, ranking, token budget and access counting around the expansion; which of several equally near routes to a memory is taken depends on the order of the edges, which is any.
- Predict.PredictionsFollowTimeline: distinct increasing creation times within the workspace, as under a clock that does not repeat; `Predict.CutPassesNothingIff` says what ties do.
- Predict.SelectWindow: a negative cap, on which the slice in the code panics, is not modelled.
- Predict.CutPassesNothingIff: about the episodes of the window's own workspace; `Predict.OtherWorkspaceIff` says what the shared watermark does to the others.
- Resources.ResolveResource: one case folding stands for `strings.EqualFold` in `appendAlias` and for `strings.ToLower` in the comparison of names; the two differ on a few letters outside ASCII, such as the long s.
- Tokenizer.Tokenize: ASCII text; CJK runs go to a foreign segmenter.
- The rest of the maintenance cycle, backfill, linking, decay, procedural memories and code indexing: easy members or foreign libraries.
- QueryCache.CachedEmbedding.Embed: the copy made of a cached vector guards callers' slices from each other; vectors are values here. Batches pass through to the provider.
- Secrets.Store: reading and writing files succeed; permissions, the temporary files of atomic writes and a master key file of the wrong length, on which the code panics, are not modelled.
- Hooks: documents are JSON values; the text around them, number precision and key order are not modelled.
