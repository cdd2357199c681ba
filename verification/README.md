# A verified model of the Web-of-Trust oracle

The service keeps a graph of public follow lists, answers distance and path queries between
public keys, and keeps the graph up to date from relay events that it first writes to a
database. This project models that core in Dafny and proves what its parts promise each other.
`dafny verify dfyconfig.toml` checks everything.

## How the project is built

Four layers, each resting on the one before.

**Queries.** `Walks` defines walks in a directed graph, counts them and proves that the count is
the number of distinct walks; `Sums` has finite sums and saturating 64-bit arithmetic. `Search`
is the bidirectional breadth-first search as a function, level by level; `SearchProof` and
`SearchTheorems` prove it exact, whatever side is expanded at each round, and `Layers` says which
nodes it reports as bridges. `Bfs` is the search on
the reusable state, with its buffers cleared, filled and swapped in place, and computes that
function. `Distances` and `Paths` turn it into the two queries between public keys, stated over
chains of follows. `NewNodes` shows that creating a node changes no answer.

**The store.** `Lists` says what the graph and the database have in common: a list with a version
for each author and kind, and what offering an update does to it (`Offer`). `EventIds` justifies
treating event ids as numbers. `GraphData` and `Store` are the in-memory graph (class
`WotGraph`), `Tables` and `Sqlite` the database (class `Database`), `Reload` the way back from
the database into the graph. All of them are proved against `Lists`.

**Concurrency.** `Live` is a transition system of one writer at a time, any number of requests
that try the cache and then compute, and evictions, with a step for every access to shared state;
`LiveProof` has its invariant, and `LiveProgress` shows what requests and the writer can always go on to do. `Locks` is a transition system of threads running the store's operations as
acquisitions and releases; its two closing lemmas show, on invented threads, that neither the
order nor its strictness can be given up. `Queries` has the query cache and the two distance endpoints as code.

**Ingestion.** `Events` turns a received event into an update. `Ingestion` has winner selection, one persistence attempt and the retrying flush
as code; `IngestionRuns` is the transition system of whole runs with losses in the "seen" filter,
failed transactions, crashes and restarts, and `IngestionProgress` shows that it can always come to rest.

## What is assumed

- An event id is a hash: two events with one id are the same event (`IdsDetermine`). Ids are
  numbers; `EventIds.SameOrder` proves that raw bytes and hex strings compare alike.
- Fewer than 2^32 nodes; the revision counter does not wrap; the clock is at least ten minutes
  away from the end of the 64-bit range.
- A transaction happens entirely or not at all, and may fail. New row ids are arbitrary unused
  numbers. The order in which hash maps yield their entries is arbitrary.
- An event that was only in memory when the process stopped does not count until it is received
  again; the others count for ever (`IngestionRuns.AbsorbedForEver`). While the process lives,
  everything received counts (`IngestionRuns.ReceptionsStay`).
- The cache and the "seen" filter may drop any entry at any time.
- Memory is sequentially consistent.
- The hop bound is any natural number (the service uses 8 bits, and 1 to 5 at the endpoints).
- In the lock model an operation's branches are fixed when it starts; every combination of
  branches is covered.

## What the code does that its documentation does not say

- Bridges can be missing although every path passes one account: while the frontier on the source's
  side has a single account the search never expands the other side, and then the sides meet at
  the target itself. `Distances.SingleFileHasNoBridges` is the example; `Distances.DistanceTruthful`
  has the exact condition, a single account on every level before the target.
- A query that finds nothing always reports `mutual_follow` as false. With a bound of 0 that is
  wrong for two accounts that follow each other: `Distances.MutualFlagLost` is the example,
  `Distances.MutualFollowExact` has the exact condition. The endpoints reject a bound of 0.
- The architecture notes say a reload preserves newer live events. A live list that never had a
  version counts as older than any stored row of its author, even a row without a list:
  `Reload.UnversionedListLost` is the example, `Reload.RestoreKeepsNewer` the exact condition.
- A retried batch may find its follow lists already committed by the attempt before:
  `Ingestion.SecondAttempt` shows why that does no harm.

## Model

| member | source | states |
|---|---|---|
| Distances.DistanceTruthful | src/graph/bfs.rs:117-186 | for every query, hops is d exactly if d is within the bound and the shortest chain of follows has length d; the path count is the number of shortest chains if that is below 2^64, and otherwise 2^64-1; requested bridges are all inner keys at one depth, which the sizes of the levels around both ends determine and which is never 0; the list is empty exactly if every level before the target has a single key, and otherwise each shortest chain passes exactly one bridge |
| Distances.SingleFileHasNoBridges | src/graph/bfs.rs:334-345 | on the chain a, b, c the distance from a to c is 2, b lies on every shortest chain, and no bridge is reported |
| Layers.ServiceCorrect | src/graph/bfs.rs:225-358 | with the smaller-frontier rule: exact distance and count, and the bridges are the layer at the depth given by the level sizes, which cuts every shortest walk unless the walks start in single file |
| Layers.RoundsSplit | src/graph/bfs.rs:225-232 | the number of forward rounds is what comparing the sizes of the levels around both ends yields |
| Layers.MeetingLayerCuts | src/graph/bfs.rs:334-345 | the layer at that depth is never the source's; it is empty if and only if every level before the target has one node, and otherwise every shortest walk passes exactly one of its nodes |
| Layers.SplitAllForward | src/graph/bfs.rs:225-232 | every round goes forward exactly as long as no level around the source grows beyond one node |
| Distances.ComputeDistance | src/graph/bfs.rs:117-186 | the two lookups, the direct-follow test by binary search and the in-place search return the truthful answer from any leftover search state |
| Distances.MutualFollowExact | src/graph/bfs.rs:79-89 | the mutual-follow flag is right if and only if the bound is positive or there is no mutual follow |
| Distances.MutualFlagLost | src/graph/bfs.rs:79-89 | two accounts follow each other, and with a bound of 0 the flag says they do not |
| Distances.ChainsCounted | src/graph/bfs.rs:325-332 | a count that is right for walks of ids is right for chains of public keys, exactly below 2^64 and capped at 2^64-1 from there on |
| Distances.BridgeNames | src/graph/bfs.rs:334-345 | the resolved bridges are exactly the inner keys at one depth of shortest chains |
| Bfs.BfsState.Bidirectional | src/graph/bfs.rs:189-358 | the search over reused maps and swapped buffers computes the functional search with the smaller-frontier rule |
| Bfs.BfsState.Clear | src/graph/bfs.rs:43-53 | nothing of an earlier query is left |
| Bfs.BfsState.ForwardLevel | src/graph/bfs.rs:234-277 | one forward level: meetings, new nodes, saturated counts, buffers swapped |
| Bfs.BfsState.BackwardLevel | src/graph/bfs.rs:278-322 | the same over follower lists |
| Bfs.DiscoverArc | src/graph/bfs.rs:258-271 | scanning one more arc inserts a new node, adds to a node of the new level, or changes nothing |
| Bfs.BfsState.SumPaths | src/graph/bfs.rs:328-332 | the saturating fold is the specified total |
| Bfs.BfsState.CollectBridges | src/graph/bfs.rs:335-342 | met nodes without endpoints and repetitions, in order of first meeting |
| SearchTheorems.BidirectionalCorrect | src/graph/bfs.rs:189-358 | on transposed sorted adjacency, under any expansion order: exact distance within the bound, exact count below 2^64 and 2^64-1 otherwise, and the bridges are the whole inner layer at the final forward level |
| SearchTheorems.ScheduleIndependent | src/graph/bfs.rs:225-232 | any two ways of choosing the side to expand give the same distance and count |
| SearchTheorems.ExplorationKeeps | src/graph/bfs.rs:212-256 | in every state of every exploration a recorded meeting lies at the current total distance, and the answer is then final |
| SearchTheorems.EveryMeetingKept | src/graph/bfs.rs:245-256 | after any prefix of the arcs of a level, what was recorded stays recorded: the clear-on-improvement branch discards nothing |
| SearchTheorems.NoMeeting | src/graph/bfs.rs:212-223 | a search that stops without a meeting, by the bound or an empty frontier, has proved that no walk within the bound exists |
| SearchProof.ExpandKeepsSide | src/graph/bfs.rs:234-277 | a level keeps a side complete: every node within its radius with its exact depth and saturated count |
| SearchProof.ArrivalsExact | src/graph/bfs.rs:258-271 | saturating at every visit equals saturating the true number of shortest walks |
| SearchProof.DisjointApart | src/graph/bfs.rs:212-223 | two complete sides without a common node: the ends are further apart than both levels together |
| SearchProof.MeetsLastLevel | src/graph/bfs.rs:244-246 | an arc into the other side reaches its last level, whose counts are final |
| SearchProof.MeetArcsExact | src/graph/bfs.rs:245-256 | the products recorded over a level add up to the walks crossing it |
| SearchProof.MeetingLayer | src/graph/bfs.rs:245-256 | the met nodes are exactly one layer of the shortest walks |
| Walks.CountIsCardinality | src/graph/bfs.rs:325-332 | the recursive count is the number of distinct walks of that length |
| Walks.SplitCount | src/graph/bfs.rs:328-332 | every walk of a + c edges passes exactly one node after a edges |
| Walks.ReverseCount | src/graph/bfs.rs:278-322 | walks over follower lists are the walks over follow lists read backwards |
| Sums.SatMulExact | src/graph/bfs.rs:331 | clamping both factors first does not change the clamped product |
| SortedLists.BinarySearch | src/graph/bfs.rs:141-146 | on a strictly sorted list: whether and where the id is, or where it belongs |
| Paths.ComputePath | src/graph/bfs.rs:361-533 | a path is returned exactly if the distance is within the bound; framed by the ends it is a shortest chain of follows, with neither end inside |
| Paths.FindPath | src/graph/bfs.rs:416-485 | the search with parent maps stops at a meeting that closes a shortest walk |
| Paths.PathLevel | src/graph/bfs.rs:448-484 | one level: the next frontier and parents, or the first meeting with a parent on the frontier |
| Paths.TraceBack | src/graph/bfs.rs:489-502 | the first loop reaches the source by decreasing level and never takes the silent break |
| Paths.TraceOn | src/graph/bfs.rs:504-515 | so does the second towards the target; together they give a walk of the summed levels |
| Paths.MeetingDepth | src/graph/bfs.rs:452-456 | the first meeting closes a walk of the least length |
| Paths.PathAgreesWithDistance | src/graph/bfs.rs:117-533 | a path has one key fewer than the distance has hops, and there is a path exactly if there is a distance |
| NewNodes.NewNodeInvisible | src/graph/store.rs:217-223 | creating a node changes no answer to any query, naming it or not |
| EventIds.SameOrder | src/sync/ingestion.rs:71-76 | ids as bytes, as hex strings and as numbers are ordered alike |
| Lists.SameRule | src/db/sqlite.rs:413-430 | the database's test and the graph's test accept exactly the same updates |
| Lists.RuleByFields | src/graph/store.rs:45-62 | the rule on the fields: a list without a time is always replaced, one with a time never by an update without; a later time wins; at equal times an id replaces a missing or greater id, and a missing id replaces nothing |
| Lists.OfferedFollows | src/graph/store.rs:252-361 | what an offered update leaves of follow lists, field by field: the author's list replaced exactly if accepted, every other list as it was, and the known keys |
| Lists.OfferedMutes | src/graph/store.rs:364-399 | the same for mute lists |
| Lists.AbsorbWinner | src/graph/store.rs:45-62 | a sequence of updates acts on a list as its winner alone, missing timestamps and ids included |
| Lists.SameEntry | src/db/sqlite.rs:247-261 | per author: applying the winners leaves the list of applying every update in turn |
| Lists.BatchEqualsSequential | src/db/sqlite.rs:243-354 | persisting the winners in any order equals applying all updates in order, except that nodes without a list may be missing |
| Lists.PermutedOffers | src/db/sqlite.rs:299 | the order in which the winners map is visited does not matter |
| Lists.RepeatedOffers | src/sync/ingestion.rs:190-221 | repeating a committed batch of versioned updates changes nothing |
| GraphData.FollowersUnique | src/graph/store.rs:172-181 | the follower vector is determined by the follow vector |
| GraphData.AddNodeView | src/graph/store.rs:200-226 | a new node keeps ids a bijection, lengths equal and adjacency transposed, and is a node without a list |
| GraphData.RewiredView | src/graph/store.rs:315-358 | replacing one row changes exactly that author's list |
| SortedLists.SortedDiff | src/graph/store.rs:291-312 | the two-pointer merge yields exactly the old ids not in the new list and the new ids not in the old one |
| Store.WotGraph.GetOrCreateNode | src/graph/store.rs:200-226 | existing ids are returned and kept; a new one is the next index, and only then the revision moves |
| Store.WotGraph.Unfollow | src/graph/store.rs:321-328 | removes the author from exactly the given follower lists, which stay sorted |
| Store.WotGraph.Refollow | src/graph/store.rs:335-343 | inserts the author into exactly the given follower lists, in place |
| Store.WotGraph.ReplaceFollows | src/graph/store.rs:285-347 | the delta leaves both vectors as replacing the whole list would, and the revision moves exactly if an edge changed |
| Store.DiffRewires | src/graph/store.rs:315-347 | removing and adding the difference is exact replacement in both directions, self-follows included |
| Store.WotGraph.UpdateFollows | src/graph/store.rs:252-361 | accepted exactly by the rule on the stored and offered time and id; the author's list becomes the set of targets, all other lists and all ids stay, every invariant holds; the revision moves once per created node, and once more exactly if an accepted list has other targets than the stored one |
| Store.WotGraph.UpdateMutes | src/graph/store.rs:364-399 | the same for mute lists, independently of follow versions; the revision moves once per created node and once more exactly if the list is accepted |
| Store.WotGraph.RestoreNodes | src/graph/store.rs:111-185 | merging a snapshot is creating its nodes and offering its lists; adjacency is valid again afterwards; the revision moves once per created node, and once more if any edge or mute list changed; it does not if every row is refused |
| Store.WotGraph.RebuildFollowers | src/graph/store.rs:172-181 | pushing sources in order rebuilds the reverse lists |
| Store.ReverseWellFormed | src/graph/store.rs:172-181 | the rebuilt lists are strictly sorted and the exact transpose |
| Tables.RewrittenView | src/db/sqlite.rs:310-345 | rewriting one author's rows is replacing that author's list, for any numbering of rows |
| Sqlite.EnsureNode | src/db/sqlite.rs:290-292 | the key has a row afterwards; no other row changes and keys stay unique |
| Sqlite.DeleteEdges | src/db/sqlite.rs:326-330 | deletes exactly the author's edges to keys no longer desired |
| Sqlite.InsertEdges | src/db/sqlite.rs:331-344 | adds exactly the missing edges, never a duplicate key, with the id cache always agreeing with the node table |
| Sqlite.ApplyUpdate | src/db/sqlite.rs:299-346 | accepted exactly by the rule on the stored and offered time and id; a losing update changes nothing; a winning one leaves the desired set as the author's edges, others untouched, every edge with its node row and every mute edge with its list row |
| Sqlite.Database.Coalesce | src/db/sqlite.rs:247-261 | keeps the winner of each author |
| Sqlite.Database.UpdateListsBatch | src/db/sqlite.rs:243-354 | committed, or nothing to do: the winners were offered in some order, and the count is the number accepted; otherwise nothing changed |
| Reload.ReadEdges | src/db/sqlite.rs:133-148 | succeeds exactly if every edge has both rows, and then the snapshot has exactly the stored edges |
| Reload.ReadMuteEdges | src/db/sqlite.rs:164-178 | succeeds exactly if every mute edge has a list row and a target row |
| Reload.LoadGraph | src/db/sqlite.rs:101-182 | the outcome is the first defect in the order of reading: 2^32 nodes or more, an edge without a node, a mute list without a node, a mute edge without list or target; without a defect the graph is the per-author join of live and stored lists, with one it is untouched |
| Reload.RestoredEntry | src/graph/store.rs:123-171 | after the merge each author has the accepted one of the live and the stored list |
| Reload.RestoredView | src/graph/store.rs:111-185 | merging the snapshot of the tables is the join of the two sets of lists, nodes and known-empty mute lists included |
| Reload.RestoreIdempotent | src/graph/store.rs:111-185 | restoring the same snapshot again changes nothing |
| Reload.RestoreKeepsNewer | src/graph/store.rs:125-132 | a live list survives if and only if nothing is stored, it is newer, or the stored one is equal |
| Reload.UnversionedListLost | src/graph/store.rs:125-132 | a live list without a version is lost to a stored row without a list |
| Reload.Restart | src/db/sqlite.rs:101-182 | a fresh graph from a valid database has exactly its nodes, lists and versions |
| Reload.PersistAndRestart | src/db/sqlite.rs:243-354 | from an empty database, after any batches, loading never fails as corrupt and yields the lists of applying every update in turn |
| Ingestion.SelectWinners | src/sync/ingestion.rs:292-306 | the slot loop selects each winner once, in order of arrival |
| Ingestion.CommitIsOffers | src/sync/ingestion.rs:307-319 | a transaction leaves what offering its items in turn leaves, whatever order it visits them in |
| Ingestion.BothCommitted | src/sync/ingestion.rs:319 | the follow and the mute transaction together leave what publishing the selection leaves |
| Ingestion.SecondAttempt | src/sync/ingestion.rs:190-221 | an attempt after a committed follow transaction and a failed mute transaction ends where a clean one would |
| Ingestion.PersistAndApply | src/sync/ingestion.rs:289-338 | succeeds exactly if both transactions commit or have nothing to do; then graph and database both take the selection and the count is the number of its updates that the stored lists accept; otherwise the graph is untouched and the database has the follow lists exactly if that transaction went through |
| Ingestion.Flush | src/sync/ingestion.rs:185-223 | succeeds if and only if the batch is empty or one of three attempts goes through; then graph and database are equal with the whole batch; otherwise the graph is left alone |
| Events.ProcessEvent | src/sync/ingestion.rs:257-285 | the loop over the tags computes the update of the event, or none for another kind |
| Events.UpdateLists | src/sync/ingestion.rs:262-277 | the update's targets are exactly the lower-case forms of the 64-digit hexadecimal keys in the event's p tags |
| IngestionRuns.DominatesIsAtLeast | src/sync/ingestion.rs:71-76 | the "seen" filter skips exactly what the database would not prefer; clamping timestamps never bites |
| IngestionRuns.StepKeeps | src/sync/ingestion.rs:129-223 | every step keeps the invariant: each event that counts, and each "seen" entry, is covered by something stored or waiting |
| IngestionRuns.NeverAhead | src/sync/ingestion.rs:287-338 | in every reachable state the graph has no version ahead of the database |
| IngestionRuns.IdleAgrees | src/sync/ingestion.rs:185-223 | between flushes and after restarts graph and database agree on nodes, lists and versions |
| IngestionRuns.Converged | src/sync/ingestion.rs:142-170 | drained, the database holds for each author the follow list of the winning kind-3 event and the mute list of the winning kind-10000 event among all events received at most 600 seconds ahead of the clock: the greatest creation time, then the least id (section "Kinds" of NIP-01); the stored version is that time and id, the stored targets are exactly the keys of that event's well-formed p tags in lower case; no such event, no list; and the graph equals the database |
| IngestionRuns.RunsAgree | src/sync/ingestion.rs:113-223 | two runs that received the same events end with the same lists, whatever the order, duplicates, batches, evictions, failures and restarts |
| IngestionRuns.ReceptionsStay | src/sync/ingestion.rs:142-170 | while the process lives every reception counts, whatever the filter and the batches do with it |
| IngestionRuns.OnlyReceptions | src/sync/ingestion.rs:142-170 | nothing counts that was not received |
| IngestionRuns.GivesUpAfterThree | src/sync/ingestion.rs:190-221 | ingestion stops on a batch only after exactly three failed transactions |
| IngestionRuns.NeverWorse | src/sync/ingestion.rs:287-338 | along every run stored versions never get worse, whatever fails, crashes or restarts |
| IngestionRuns.RepeatsDropped | src/sync/ingestion.rs:149-155 | once a list event has been received, the same event or one it supersedes never reaches a batch again while the filter has an entry for the author and kind |
| IngestionRuns.AbsorbedForEver | src/sync/ingestion.rs:287-338 | a reception the database accounts for keeps counting and stays accounted for, across crashes |
| IngestionProgress.CanConverge | src/sync/ingestion.rs:185-223 | from every reachable state in which ingestion has not given up, a bounded number of steps without a failure leads to a database and a graph that hold the winning lists of everything received |
| LiveProof.WriterKeeps | src/graph/store.rs:200-347 | every writer step keeps the published topologies valid and the memory a known distance from the last of them |
| LiveProof.DiffStillCurrent | src/graph/store.rs:285-318 | the list read before the locks were released is still current when the write locks are taken |
| LiveProof.ConversionExact | src/cache.rs:45-80 | turning an answer into ids and back loses nothing, bridge order included |
| LiveProof.QueryMoves | src/api/http.rs:234-241 | each step of a computation keeps its answer explained by a topology published meanwhile |
| LiveProof.CacheCoherent | src/cache.rs:107-126 | whatever the cache serves is the answer computed afresh on the topology of the revision it was read under, in every interleaving |
| LiveProof.AnswerExplained | src/api/http.rs:226-251 | a computed answer is the answer on a topology published since the computation read the revision |
| LiveProof.RequestAnswered | src/api/http.rs:202-260 | whole requests: a response, from the cache or computed, is the answer to its query on a topology published between the request's arrival and its response, in every interleaving with writers and other requests |
| LiveProof.HitAnswersQuery | src/cache.rs:107-115 | a key made from a query stands for that query, so a hit for the key answers the query |
| LiveProof.SnapshotConsistent | src/graph/store.rs:530-540 | while a search holds its read locks it sees the published topology: sorted, of equal length, transposed, all ids resolvable |
| LiveProgress.BoundedMoves | src/api/http.rs:202-260 | in every run, a request takes at most thirteen steps of its own before it responds, each bringing it closer |
| LiveProgress.EveryRequestCanRespond | src/graph/store.rs:198-207 | from every reachable state each request can be answered by at most five steps of the writer and thirteen of its own |
| LiveProgress.CanCreate | src/graph/store.rs:200-226 | a node for any new key can be published under the next revision, leaving requests and cache alone |
| LiveProgress.CanRewire | src/graph/store.rs:285-347 | any list of known ids can be published for any node: follow and follower lists are those with that list replaced, and the revision moves exactly if something changed |
| LiveProgress.HitServed | src/cache.rs:107-115 | an entry of the current revision is served to a request that arrives, unless the writer interferes |
| LiveProgress.RepeatServed | src/api/http.rs:212-252 | an answer still current can be put into the cache, and a later request with the same query is then served that very answer from the cache |
| Locks.OperationsTame | src/graph/store.rs:198-207 | every operation takes its locks in the documented order, writes only under the mutation mutex and with both adjacency locks from the forward one on, and gives everything back |
| Locks.Progress | src/graph/store.rs:198-199 | if some thread is unfinished, some thread can go on, even if waiting writers keep readers out |
| Locks.NoDeadlock | src/graph/store.rs:109-575 | no reachable state of any number of threads is a deadlock |
| Locks.EverythingFinishes | src/graph/store.rs:109-575 | without new arrivals every run is finite, and it can only stop when every operation is done and every lock free |
| Locks.WritersAlone | src/graph/store.rs:204-207 | in every reachable state the holder of a write lock is its only holder |
| Locks.OneWriter | src/graph/store.rs:109-120 | in every reachable state a writer of any of the graph's vectors holds the mutation mutex, a writer of follower lists also the follow lock, a writer of names both; nobody else writes |
| Locks.FollowsWrittenLocked | src/graph/store.rs:315-347 | an accepted follow list goes through a section with the mutex and both adjacency locks held for writing |
| Locks.BatchWrittenLocked | src/db/sqlite.rs:263-264 | a batch is written with the database connection held |
| Locks.MutesWrittenLocked | src/graph/store.rs:387-399 | an accepted mute list goes through a section with the mutex and the mute lock held for writing |
| Locks.NodeCreatedLocked | src/graph/store.rs:200-226 | a new node goes through a section with the mutex and all four vectors' locks held for writing |
| Locks.SnapshotMergedLocked | src/graph/store.rs:111-120 | a snapshot is merged with the connection, the mutex and the four locks it needs held at once |
| Locks.TraversedLocked | src/graph/store.rs:532-540 | a search goes through a section with both adjacency locks held for reading |
| Queries.QueryCache.Get | src/cache.rs:107-115 | a hit is the fresh answer, from an entry of the revision read both before and after the lookup; if the two readings differ there is no hit |
| Queries.QueryCache.Insert | src/cache.rs:117-126 | a result of another revision is dropped; the cache stays right |
| Queries.ReachableIsCoherent | src/cache.rs:107-126 | every reachable state of the concurrent system meets the endpoints' requirement on the cache |
| Queries.GetDistance | src/api/http.rs:202-260 | keys that are not 64 hexadecimal digits and bounds outside 1 to 5 are refused in that order; otherwise the caller gets the truthful answer whatever the cache holds; without a permit nothing is computed, and "busy" means that the cache has no entry or was to be bypassed; a computed answer for known keys is in the cache afterwards |
| Queries.DistinctTargets | src/api/http.rs:280-291 | each distinct target once, and where each given target sits among them |
| Queries.FillHits | src/api/http.rs:292-310 | every slot has its answer from an entry the cache held, or is listed as a miss, no slot twice; a miss means that no entry is left or the cache was to be bypassed |
| Queries.BatchDistance | src/api/http.rs:262-367 | refused with the first failing check: source key, bound from 1 to 5, at most 100 targets, target keys of 64 hexadecimal digits; otherwise the i-th result is the truthful individual answer for the i-th target, for any duplicates, hits and misses; the queries computed are exactly those of the missed targets, each once; without a permit nothing is computed, all answers come from the cache, and "busy" means that the cache lacks one or was to be bypassed; computed answers for known keys are in the cache afterwards |

## Left out

- Relay connections, subscriptions, reconnecting and the event loop's timing: only "receive", "flush", "lag", "crash" and "restart" remain, as steps in any order.
- Signature checks, and the sorting and deduplication of an event's keys: lists are sets of keys from there on.
- SQL itself, pragmas, indexes, migrations, read errors, `upsert_node`, `sync_state` and `get_stats`: tables are maps and sets, and edges are read in any order.
- Eviction policies, expiry times and capacities of the cache and the filter: entries vanish arbitrarily.
- HTTP routing, limits, serialisation, the semaphore's accounting (a permit is given or not) and failures of the blocking pool.
- The DVM interface, governor keys, configuration, metrics and status counters; the counters do not follow commits exactly when an attempt fails half-way.
- String interning and shared pointers: keys are values.
- Common follows, paging and mute evidence, apart from their locks: simpler than the list difference and the adjacency invariant.
- Memory orderings weaker than sequential consistency, and fairness of locks: which waiting thread goes first is arbitrary.
- Distances.ComputeDistance: the topology is passed as a value, since the read locks keep it unchanged; `Live` has the interleavings.
- Store.WotGraph.RestoreNodes: only one thread at a time, as the mutation mutex ensures; readers in between are in `Live`.
- Queries.GetDistance: on an unchanging graph; `LiveProof.RequestAnswered` has the same request while the graph changes.
- Queries.BatchDistance: on an unchanging graph; while the graph changes, each target is a request of its own in the sense of `LiveProof.RequestAnswered`.
- Insertion into the cache in `Live`: the conversion to ids and the write into the cache are one step; ids never change, so splitting it would show nothing new.
