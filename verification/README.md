# Verification of the lynxes in-memory graph engine

Dafny models of the engine in `crates/lynxes-core` and proofs about them. `dafny verify dfyconfig.toml`
checks everything.

Nodes are identified by string ids and, inside an edge frame, by compact indices; an edge table is a sequence of
rows with source, target, type and opaque user columns. The pieces:

* **Frames.** `Csr` (the sorted adjacency index and its reverse), `Rows`, `NodeFrames`, `EdgeFrames`, `GraphFrames`
  (tables with indexes that always agree with their rows).
* **The mutable graph.** `PlainGraphs` is the reference: a list of nodes, a list of edges, and the meaning of
  every operation on them. `MutableStores` says which plain graph a state (base snapshot with tombstones, frozen
  chunks, pending buffer) stands for and what invariant ties the two; `MutableReads`, `MutableSteps` and
  `MutableMerges` prove the read path, the single changes, compaction and freezing; `MutableGraphs` is the class,
  and `Revivals` drives it into states where it parts from the plain graph.
* **Path searches.** `Networks` defines walks, costs and distances independently of any search. `Dijkstra`,
  `ShortestPath`, `AllPaths`, `AStar` and `HopSearch` are the searches over arrays and heaps (`Heaps`,
  `PathReadback`). For the k shortest paths, `Deviations` says what one spur search adds, `YenRuns` gives Yen's
  scheme as a relation between lists, `YenInvariants` proves what every run keeps, `Yen` is the algorithm as a run of
  it, and `YenGaps` proves when answers are exact. `PathQueries` restates the results by node id over edge rows
  through `Adjacency`.
* **Reachability.** `Balls` defines bounded distance once; `Traversal` (level-synchronous search), `Searches`
  (FIFO search, path test), `Components`, and `Assignments`, `Partition`, `DistributedSearch` (shards) are all
  measured against it.
* **Kernels over the reals.** `Sums`, `RouteCounts`, `Brandes`, `BrandesKernel`, `Betweenness`
  and `PageRank`.
* **Expressions.** `ExprCodec`.

Where the code keeps less than one might expect, the exact condition is proved:

* Adding nodes can make frozen edges of a deleted id visible again. `AddNodesBatch` and `UpdateNode` keep the edge
  list if and only if no hidden frozen edge gets both endpoints back, and whole-run simulation is proved for runs
  that never re-add a deleted id (an update under the same id counts as one). `Revivals` reaches such a state.
* `update_edge_row` is not atomic: on an error the graph is unchanged if and only if the row was not live.
* `k_shortest_paths` can miss paths: its candidate search is by edge row, its duplicate test by node sequence. The
  answers are complete for every positive weighting if and only if no branch is hidden, that is, no two wanted paths
  part at a node where a second edge runs beside the step of one of them (`YenGaps.ExactIffNothingHidden`). The order
  of costs needs no condition: whatever the edges, the list never falls in cost and every path uses its cheapest rows
  (`YenInvariants.YieldsInOrder`), which rests on the search's tie-break.
* A literal or a cast survives encoding if and only if it is `Encodable`. It can come back changed without an error
  if and only if it is `Decodable` and not `Encodable`.
* The expansion over shards returns the induced edges of each shard whatever their type, although the search itself
  follows only eligible edges; the edge rows it collects per shard along the way are not used for the answer. Which
  edges between shards come back depends on the assignment: one whose end a shard scan meets in the same round is
  left out (`DistributedSearch.EdgesReturned` says exactly which).

Conventions: a fresh index or frame is modelled as a value, so sharing through reference counts disappears; "true" in
a tombstone vector means live; the hash function, the heuristic and the node filter's verdicts are parameters.

## Model

| member | source | states |
|---|---|---|
| MutableGraphs.MutableGraphFrame.FromGraphFrame | crates/lynxes-core/src/frame/mutable_graph_frame.rs:133-183 | loading a closed graph gives a valid store that stands for exactly its node rows and its edge rows under their row ids, with nothing deleted |
| MutableGraphs.MutableGraphFrame.OutNeighbors | crates/lynxes-core/src/frame/mutable_graph_frame.rs:332-384 | until a deleted id is added again, the ids of the returned targets are, as a multiset, the successors of the node in the plain edge list, wherever each edge sits; an unknown index has none |
| MutableGraphs.MutableGraphFrame.Run | crates/lynxes-core/src/frame/mutable_graph_frame.rs:189-435 | simulation over whole runs: after any sequence of adds, deletes and updates that never re-adds a deleted id, the store stands for the plain graph the same operations produce, whenever flushes fired and whichever operations failed |
| MutableGraphs.MutableGraphFrame.Execute | crates/lynxes-core/src/frame/mutable_graph_frame.rs:189-435 | one operation of such a run moves the plain graph by that operation's plain meaning, including what a failing operation leaves behind, and keeps the invariant; on success the edges and nodes change as stated row by row in Effect |
| PlainGraphs.ApplyEffect | crates/lynxes-core/src/frame/mutable_graph_frame.rs:189-435 | what each operation of the reference does, row by row: which edges and nodes are lost, in which order the rest stays, and which row is appended with which ends; a failing operation changes nothing except the row an edge-row update has already cleared |
| PlainGraphs.SuccessorsPick | crates/lynxes-core/src/frame/mutable_graph_frame.rs:332-384 | the successors of a node are the targets of exactly the edges whose source it is, in edge order |
| MutableReads.ReadsAgree | crates/lynxes-core/src/frame/mutable_graph_frame.rs:332-384 | the merged read of base, frozen and pending edges equals the successors of the node in the plain graph, as multisets of ids, in every valid state without a re-added id |
| MutableGraphs.MutableGraphFrame.ResolveEdgeNodeIdx | crates/lynxes-core/src/frame/mutable_graph_frame.rs:818-831 | succeeds exactly for live nodes, leaves the plain graph and every current index alone, and otherwise names the missing id and changes nothing |
| MutableGraphs.MutableGraphFrame.FlushPending | crates/lynxes-core/src/frame/mutable_graph_frame.rs:833-858 | a flush moves every pending row into one new chunk; the plain graph and every read, re-added ids or not, stay the same |
| MutableGraphs.MutableGraphFrame.AddEdgeRow | crates/lynxes-core/src/frame/mutable_graph_frame.rs:259-310 | one row with two live endpoints is appended to the plain edge list; anything else is refused with the right error and the plain graph unchanged; the buffer is flushed exactly when it exceeds 1024 rows |
| MutableGraphs.MutableGraphFrame.AddEdge | crates/lynxes-core/src/frame/mutable_graph_frame.rs:318-321 | the default row is appended exactly when both endpoints are live |
| MutableGraphs.MutableGraphFrame.DeleteEdge | crates/lynxes-core/src/frame/mutable_graph_frame.rs:426-435 | the stable row disappears from the plain graph; a dead row deletes again without error; an id past the last row is refused without any change |
| MutableGraphs.MutableGraphFrame.ValidateBaseEdgeRow | crates/lynxes-core/src/frame/mutable_graph_frame.rs:650-658 | accepts a row exactly while the plain graph still holds an edge under that stable id, and then the stored row is that edge |
| MutableGraphs.MutableGraphFrame.UpdateEdgeRow | crates/lynxes-core/src/frame/mutable_graph_frame.rs:249-253 | success removes the old row and appends the new one; an error leaves the plain graph unchanged if and only if the row was not live to begin with (the operation is not atomic) |
| MutableGraphs.MutableGraphFrame.UpdateEdge | crates/lynxes-core/src/frame/mutable_graph_frame.rs:242-245 | success takes the row out and appends one edge from the given source to the given target with the old type and payload; every error leaves the whole state unchanged and names the missing endpoint or row in the order they are checked |
| MutableGraphs.MutableGraphFrame.AddNodesBatch | crates/lynxes-core/src/frame/mutable_graph_frame.rs:204-214 | succeeds exactly when no id repeats, appending the rows to the live nodes; the edges stay as they were if and only if no hidden frozen edge gets both endpoints back |
| MutableGraphs.MutableGraphFrame.AddNode | crates/lynxes-core/src/frame/mutable_graph_frame.rs:189-197 | a single row is added like a batch of one; any other row count is refused without change |
| MutableGraphs.MutableGraphFrame.DeleteNode | crates/lynxes-core/src/frame/mutable_graph_frame.rs:392-419 | the node and every edge touching it leave the plain graph, wherever the edges sit; an unknown id changes nothing |
| MutableGraphs.MutableGraphFrame.TombstoneEdges | crates/lynxes-core/src/frame/mutable_graph_frame.rs:399-405 | the two index walks clear exactly the live stable rows that touch the deleted id |
| MutableGraphs.MutableGraphFrame.UpdateNode | crates/lynxes-core/src/frame/mutable_graph_frame.rs:222-235 | an error leaves the whole state unchanged; success deletes the old node with its edges and appends the new one, faithfully if and only if no hidden frozen edge is revived |
| MutableSteps.ReplaceNodesView | crates/lynxes-core/src/frame/mutable_graph_frame.rs:591-627 | rebuilding the node tables around more nodes keeps the edge list if and only if no frozen row with a dead endpoint becomes live |
| MutableSteps.NovelRevivesNothing | crates/lynxes-core/src/frame/mutable_graph_frame.rs:356-366 | adding only ids that were never deleted revives no hidden frozen edge |
| MutableGraphs.KeepingIdRevives | crates/lynxes-core/src/frame/mutable_graph_frame.rs:222-235 | updating a node under its own id brings dropped edges back if and only if a visible frozen edge touches it |
| Revivals.ReAddedNode | crates/lynxes-core/src/frame/mutable_graph_frame.rs:408-415 | a reachable state: 1025 edges, one flush, an endpoint deleted and added again; the edges are back although the plain graph has none |
| Revivals.UpdatedInPlace | crates/lynxes-core/src/frame/mutable_graph_frame.rs:222-235 | the same after updating the endpoint under its own id |
| MutableSteps.DropNodeView | crates/lynxes-core/src/frame/mutable_graph_frame.rs:392-419 | deleting a node in the store is deleting it from the plain graph, frozen edges included although they are only hidden |
| MutableSteps.Flush | crates/lynxes-core/src/frame/mutable_graph_frame.rs:833-858 | replacing the pending buffer by a chunk built from it keeps the invariant and the plain graph |
| MutableMerges.FlushKeepsReads | crates/lynxes-core/src/frame/mutable_graph_frame.rs:833-858 | the chunk's index answers every node exactly as the pending rows did |
| MutableGraphs.MutableGraphFrame.Compact | crates/lynxes-core/src/frame/mutable_graph_frame.rs:443-528 | the first compaction answers every neighbour query as before, empties pending and frozen, and publishes an index that lists for every node exactly its visible edges |
| MutableMerges.RebuiltHolds | crates/lynxes-core/src/frame/mutable_graph_frame.rs:470-505 | the rebuilt index holds for each node the merged live rows and nothing else, so no tombstoned row and no dead endpoint survives |
| MutableMerges.CompactKeepsReads | crates/lynxes-core/src/frame/mutable_graph_frame.rs:443-528 | reads after the swap equal reads before it, for every index |
| MutableMerges.HoldsPlain | crates/lynxes-core/src/frame/mutable_graph_frame.rs:443-528 | the published index lists exactly the successors of the plain graph |
| MutableGraphs.MutableGraphFrame.CurrentLiveNodeFrame | crates/lynxes-core/src/frame/mutable_graph_frame.rs:591-599 | the live node rows in table order, with a valid id index |
| MutableGraphs.MutableGraphFrame.LiveBaseEdgeFrame | crates/lynxes-core/src/frame/mutable_graph_frame.rs:660-692 | the rows of the live base edges of the plain graph in original order |
| MutableGraphs.MutableGraphFrame.MaterializeDeltaEdgeFrame | crates/lynxes-core/src/frame/mutable_graph_frame.rs:766-806 | the live rows of all chunks in insertion order, however many chunks are empty |
| MutableGraphs.MutableGraphFrame.Freeze | crates/lynxes-core/src/frame/mutable_graph_frame.rs:541-576 | never fails: the frozen graph is valid and closed, its nodes are the live nodes, its edges the live base rows in original order followed by the live added rows in insertion order with their payloads, and without a re-added id its out-neighbours are those read just before |
| MutableMerges.ViewClosed | crates/lynxes-core/src/frame/mutable_graph_frame.rs:541-576 | every visible edge joins two live nodes, so endpoint validation passes |
| MutableMerges.FrozenMatches | crates/lynxes-core/src/frame/mutable_graph_frame.rs:541-576 | the frozen graph's out-neighbours of a node are those the mutable graph returned just before |
| MutableMerges.FreezeKeepsReads | crates/lynxes-core/src/frame/mutable_graph_frame.rs:541-576 | a frame holding the visible edges answers every node as the mutable graph did, isolated nodes included |
| MutableMerges.FrozenIsolated | crates/lynxes-core/src/frame/mutable_graph_frame.rs:541-576 | a node the frozen graph has no edge index for had no successors |
| MutableMerges.FrameReads | crates/lynxes-core/src/frame/edge_frame.rs:176-187 | an immutable frame's out-neighbours of a node are its successors in the edge list, as multisets |
| ShortestPath.DijkstraSingle | crates/lynxes-core/src/algo/shortest_path.rs:393-441 | none exactly when the target cannot be reached; otherwise a cheapest path in which every node is preceded by its lowest-index tight predecessor |
| ShortestPath.CanonicalUnique | crates/lynxes-core/src/algo/shortest_path.rs:425-436 | the tie-break determines the path: a query has at most one path of that form |
| ShortestPath.ParentIsLowest | crates/lynxes-core/src/algo/shortest_path.rs:425-436 | the recorded predecessor of a settled node is the lowest-index one among all tight predecessors |
| PathReadback.ReconstructPath | crates/lynxes-core/src/algo/shortest_path.rs:662-677 | following predecessors whose labels fall ends at the source and returns the chain from source to target |
| Dijkstra.DijkstraDistances | crates/lynxes-core/src/algo/shortest_path.rs:486-519 | every label is the exact distance, present exactly for reachable nodes, for non-negative weights |
| Dijkstra.Exact | crates/lynxes-core/src/algo/shortest_path.rs:486-519 | labels that are walk costs and cannot be improved by any arc are the distances |
| AllPaths.CollectPredecessors | crates/lynxes-core/src/algo/shortest_path.rs:464-479 | each list holds exactly the tight predecessors of its node, each once |
| AllPaths.PathEnumerator.Enumerate | crates/lynxes-core/src/algo/shortest_path.rs:726-744 | appends exactly the predecessor chains from the source to the top of the stack, extended by the rest of the stack, and terminates because distance falls along tight predecessors |
| AllPaths.ChainsDistinct | crates/lynxes-core/src/algo/shortest_path.rs:719-744 | no chain is listed twice |
| AllPaths.DijkstraAll | crates/lynxes-core/src/algo/shortest_path.rs:450-483 | every minimum-cost node path exactly once and nothing else |
| AStar.AStarSingle | crates/lynxes-core/src/algo/shortest_path.rs:522-577 | fails only on a negative estimate; none exactly when the target is unreachable, for any heuristic; the path is real, and of minimum cost whenever the heuristic is admissible, consistent or not |
| AStar.PoppedIsOptimal | crates/lynxes-core/src/algo/shortest_path.rs:546-555 | with an admissible heuristic the target popped fresh carries the true distance |
| AStar.ScoresFollow | crates/lynxes-core/src/algo/shortest_path.rs:557-573 | along every walk cheaper than all heap entries the scores never exceed the cost so far, re-opened nodes included |
| HopSearch.ShortestPathCandidate | crates/lynxes-core/src/algo/shortest_path.rs:579-658 | the least walk within the hop limit that avoids the banned nodes and rows: cheapest, then with fewest edges, then with the lowest nodes read from the target; always simple, and none exactly when an end is banned or there is no such walk |
| HopSearch.HeapCovers | crates/lynxes-core/src/algo/shortest_path.rs:607-655 | some heap entry is at most every solution in (cost, hops) as long as a solution exists |
| HopSearch.PoppedIsBest | crates/lynxes-core/src/algo/shortest_path.rs:618-622 | the target popped first is the least solution within the limit, and the path read back is simple |
| HopSearch.PoppedIsLowest | crates/lynxes-core/src/algo/shortest_path.rs:647-653 | among the solutions as cheap and as short, the lowest-predecessor rule leaves the one with the lowest nodes read from the target |
| HopSearch.CutLoop | crates/lynxes-core/src/algo/shortest_path.rs:579-658 | dropping a loop leaves an allowed walk that is shorter and no dearer |
| HopSearch.Reconstruct | crates/lynxes-core/src/algo/shortest_path.rs:680-717 | the layered links read back as an allowed walk with exactly the popped hop count and cost |
| Yen.KShortestPaths | crates/lynxes-core/src/algo/shortest_path.rs:193-312 | for every input: up to k simple paths within the hop limit, none twice, with true costs that never fall; for positive k none exactly when there is none, and the first is cheapest; unless a parallel edge hides a branch, each is the cheapest one left and fewer than k come back only when no other exists |
| YenInvariants.YieldsPaths | crates/lynxes-core/src/algo/shortest_path.rs:193-312 | every run of the scheme, whatever the edges, lists distinct wanted paths, at most k, none exactly when there is none, and a cheapest one first |
| YenInvariants.YieldsInOrder | crates/lynxes-core/src/algo/shortest_path.rs:291-299 | in every run, parallel edges or not, costs never fall and each path uses the cheapest rows between its nodes |
| YenInvariants.YieldsExact | crates/lynxes-core/src/algo/shortest_path.rs:193-312 | without hidden branches each path of every run is the cheapest left at its turn and an early end leaves nothing out |
| YenGaps.ExactIffNothingHidden | crates/lynxes-core/src/algo/shortest_path.rs:271-276 | the answers are complete (and in cheapest-left order) under every positive weighting and every k if and only if no two wanted paths part where a second edge runs beside the step of one of them |
| YenGaps.HiddenMissed | crates/lynxes-core/src/algo/shortest_path.rs:271-276 | under the weights that hide a branch no answer of any length holds the path behind it |
| YenGaps.LeastExists | crates/lynxes-core/src/algo/shortest_path.rs:579-658 | every search that has a solution has a least one, so the statement about all runs is not empty |
| YenGaps.DetourMissed | crates/lynxes-core/src/algo/shortest_path.rs:271-276 | on two parallel edges beside a detour the search returns the direct path alone, however many are asked for |
| YenRuns.BranchTaken | crates/lynxes-core/src/algo/shortest_path.rs:243-276 | a spur search that leaves the root where an accepted path already does finds an accepted path again |
| YenInvariants.AcceptFloor | crates/lynxes-core/src/algo/shortest_path.rs:291-299 | nothing a spur search finds beyond the path just accepted is cheaper than that path unless it is listed already |
| YenRuns.LeanTotal | crates/lynxes-core/src/algo/shortest_path.rs:278-288 | a glued path that takes a new step uses the cheapest of all parallel rows everywhere |
| Deviations.SpurredTailLeast | crates/lynxes-core/src/algo/shortest_path.rs:255-288 | beyond its root a glued path goes on in the least way of all wanted paths that come the same way |
| Deviations.RestSolves | crates/lynxes-core/src/algo/shortest_path.rs:243-269 | the rest of any wanted path that leaves the root by a free row is open to the spur search |
| Deviations.GlueIsPath | crates/lynxes-core/src/algo/shortest_path.rs:271-288 | root and spur together are a simple path within the hop limit, by a row that was not banned |
| Yen.CollectSpurs | crates/lynxes-core/src/algo/shortest_path.rs:243-289 | the loop over spur positions performs one round of the scheme and keeps both lists distinct |
| YenInvariants.CandidatesSuffice | crates/lynxes-core/src/algo/shortest_path.rs:291-299 | without hidden branches some candidate costs no more than any wanted path not accepted yet |
| Yen.BannedRows | crates/lynxes-core/src/algo/shortest_path.rs:248-253 | the banned rows are exactly those accepted paths take out of the root, and the row lookup is always in range |
| Yen.RowInRange | crates/lynxes-core/src/algo/shortest_path.rs:249-253 | a path that starts with the root has a row at the spur position |
| Yen.SelectBest | crates/lynxes-core/src/algo/shortest_path.rs:955-969 | the returned candidate is least by cost and then by node sequence |
| PathQueries.BuildNetwork | crates/lynxes-core/src/algo/shortest_path.rs:750-821 | the steps the searches see are exactly the eligible edge rows between two nodes, and each row joins one pair |
| Adjacency.PairsExact | crates/lynxes-core/src/algo/shortest_path.rs:750-821 | a (neighbour, row) pair is returned exactly when the row is eligible for that step under direction and type filter |
| Adjacency.EligibleMeans | crates/lynxes-core/src/algo/shortest_path.rs:750-821 | an edge row serves a step exactly when its type is the single type asked for, or among several, or any, and its ends are the step's in the direction asked for |
| PathQueries.ValidateEndpoints | crates/lynxes-core/src/algo/shortest_path.rs:883-891 | fails exactly when an endpoint is missing from the node table and names the first missing one |
| PathQueries.FindShortestPath | crates/lynxes-core/src/algo/shortest_path.rs:68-96 | by id: none exactly when no sequence of eligible edges joins the nodes, otherwise the ids of a cheapest one; missing endpoints are errors; every two consecutive ids are joined by an edge row of an admitted type in an admitted direction |
| PathQueries.TripCostMeans | crates/lynxes-core/src/algo/shortest_path.rs:820-879 | the cost of a trip is additive, a single row costs its weight, and without a weight column a trip costs its number of edges |
| PathQueries.FindAllShortestPaths | crates/lynxes-core/src/algo/shortest_path.rs:110-140 | by id: exactly the cheapest id sequences, each once; a node paired with itself gives just itself; every two consecutive ids are joined by an edge row of an admitted type in an admitted direction |
| PathQueries.FindAStarPath | crates/lynxes-core/src/algo/shortest_path.rs:152-185 | by id: without a heuristic it is the plain query; with one it fails only on a negative estimate and is cheapest when the heuristic never overestimates; every two consecutive ids are joined by an edge row of an admitted type in an admitted direction |
| PathQueries.FindKShortestPaths | crates/lynxes-core/src/algo/shortest_path.rs:193-312 | by id and for every graph: at most k different simple id sequences within the hop limit, in non-decreasing cost, empty exactly when there is none, the first one cheapest; without hidden trips each is the cheapest left and nothing is missed; asking for none never fails; every two consecutive ids are joined by an edge row of an admitted type in an admitted direction |
| PathQueries.HiddenAlike | crates/lynxes-core/src/algo/shortest_path.rs:193-312 | the condition on id sequences and edge rows is the condition on indices |
| BrandesKernel.UnweightedBrandesFromSource | crates/lynxes-core/src/algo/centrality.rs:226-268 | every score is the sum over all other targets of the fraction of shortest edge sequences from the source that pass through the node, parallel edges counted separately |
| Betweenness.BetweennessCentrality | crates/lynxes-core/src/algo/centrality.rs:154-213 | by node row: times (n - 1)(n - 2) the score is the sum of the node's dependencies over all sources, taken over the frame's own neighbour lists; a node without edges scores nothing, and on closed graphs every score lies between 0 and 1 |
| Betweenness.ScoreMeans | crates/lynxes-core/src/algo/centrality.rs:154-213 | a score times (n - 1)(n - 2) is the sum over all sources, and on a closed graph it lies between 0 and 1 |
| Betweenness.StarCentre | crates/lynxes-core/src/algo/centrality.rs:154-213 | the centre of a star scores exactly 1, so the bound is reached |
| Betweenness.DependencyBounds | crates/lynxes-core/src/algo/centrality.rs:215-267 | what one source and one target contribute lies between 0 and 1, and is nothing when the node is the target or the target is the source |
| Betweenness.OutListsFaithful | crates/lynxes-core/src/algo/centrality.rs:243 | the neighbour lists the kernel walks hold each target once per edge row that leads there |
| Betweenness.SumOverSources | crates/lynxes-core/src/algo/centrality.rs:187-213 | the local scores of all sources add up per node |
| BrandesKernel.SigmaCounts | crates/lynxes-core/src/algo/centrality.rs:239-253 | after the forward pass each sigma is the number of shortest edge sequences from the source |
| BrandesKernel.PoppedComplete | crates/lynxes-core/src/algo/centrality.rs:255-265 | when a node leaves the stack everything it depends on has been passed back to it |
| Brandes.Recurrence | crates/lynxes-core/src/algo/centrality.rs:255-262 | the dependency of a node is what its tight edges pass on, each weighted by the ratio of route counts |
| Brandes.ThroughSize | crates/lynxes-core/src/algo/centrality.rs:255-262 | the number of shortest routes through a node is the product of the counts on either side |
| RouteCounts.CountIsSize | crates/lynxes-core/src/algo/centrality.rs:248-251 | the recursively defined count is the size of the set of edge sequences |
| PageRank.PageRankKernel | crates/lynxes-core/src/algo/pagerank.rs:92-146 | refuses exactly a damping outside the open unit interval, no rounds, a tolerance that is not positive, and a negative weight on a row between known nodes; otherwise the ranks are non-negative, sum to 1, are the stated number of rounds from the uniform start, and on early stop lie within a bound of every stationary vector |
| PageRank.Pagerank | crates/lynxes-core/src/algo/pagerank.rs:92-203 | over a graph: the same by node row and for the same settings, where the links between two nodes carry the total weight of the edge rows between their ids |
| PageRank.BuildInAdjacency | crates/lynxes-core/src/algo/pagerank.rs:158-203 | fails exactly on a negative weight between known nodes; otherwise the totals balance the incoming lists and reflect exactly the rows between known nodes |
| PageRank.NextRanks | crates/lynxes-core/src/algo/pagerank.rs:111-130 | the loop over incoming edges computes one round of the rank map |
| PageRank.PowerIteration | crates/lynxes-core/src/algo/pagerank.rs:109-146 | stops after the first round whose L1 change is below epsilon and not before, or at the round limit |
| PageRank.RoundKeepsDistribution | crates/lynxes-core/src/algo/pagerank.rs:111-130 | every round turns non-negative ranks summing to 1 into such ranks, dangling mass included |
| PageRank.RoundIsSurfer | crates/lynxes-core/src/algo/pagerank.rs:111-130 | one round moves a distribution as one step of the random surfer: with the damping along an edge in proportion to its weight, otherwise anywhere; from a node without outgoing weight always anywhere |
| PageRank.ChancesSum | crates/lynxes-core/src/algo/pagerank.rs:111-130 | the chances of leaving a node add up to 1 |
| PageRank.PowerAdds | crates/lynxes-core/src/algo/pagerank.rs:132-143 | powers add their exponents, which fixes the rate in the decay and stopping bounds |
| PageRank.RunKeepsDistribution | crates/lynxes-core/src/algo/pagerank.rs:106-146 | so does every run |
| PageRank.FlowConserves | crates/lynxes-core/src/algo/pagerank.rs:122-130 | a round moves mass along edges without creating or losing any |
| PageRank.Contraction | crates/lynxes-core/src/algo/pagerank.rs:111-139 | one round shrinks the L1 distance of two rank vectors by at least the damping factor |
| PageRank.ChangeDecays | crates/lynxes-core/src/algo/pagerank.rs:132-143 | after k further rounds the change is at most damping to the k times the first change |
| PageRank.StationaryUnique | crates/lynxes-core/src/algo/pagerank.rs:109-146 | there is at most one stationary rank vector |
| PageRank.StopIsClose | crates/lynxes-core/src/algo/pagerank.rs:139-145 | stopping on a small change leaves the ranks within damping over one minus damping of it from the stationary vector |
| Csr.Build | crates/lynxes-core/src/frame/csr.rs:54-74 | every lookup lists the edges leaving the node once, in (target, row) order, and the offsets partition the edges |
| Csr.BuildReverse | crates/lynxes-core/src/frame/csr.rs:84-104 | the same for the edges with source and target exchanged, under the same row ids, again in (neighbour, row) order |
| Csr.BuildFromSortedEdges | crates/lynxes-core/src/frame/csr.rs:106-135 | offsets count the sorted triples before each node and the two lists hold their targets and rows in order |
| Csr.SortedPositions | crates/lynxes-core/src/frame/csr.rs:106-135 | in sorted triples those before a node are exactly the first as many as the count says |
| Csr.IndexUnique | crates/lynxes-core/src/frame/csr.rs:54-135 | a list of edges has exactly one index |
| Csr.Transpose | crates/lynxes-core/src/frame/csr.rs:84-104 | an edge is in the forward range of its source exactly when it is in the reverse range of its target |
| Csr.LookupIsLeaving | crates/lynxes-core/src/frame/csr.rs:160-217 | every lookup, out-of-range ones included, is the linear scan up to order |
| EdgeFrames.FromValidBatch | crates/lynxes-core/src/frame/edge_frame.rs:448-507 | node numbering by first appearance, out-index and type index all agree with the rows |
| EdgeFrames.IndexNodes | crates/lynxes-core/src/frame/edge_frame.rs:462-484 | ids are numbered 0, 1, ... in order of first appearance and every row gets its endpoints' numbers |
| EdgeFrames.IdsInOrder | crates/lynxes-core/src/frame/edge_frame.rs:462-484 | the ids are numbered by the position of their first occurrence, as source before target |
| EdgeFrames.IndexTypes | crates/lynxes-core/src/frame/edge_frame.rs:494-501 | each type maps to its rows in ascending order and no other type is present |
| EdgeFrames.TypeRowsRise | crates/lynxes-core/src/frame/edge_frame.rs:494-501 | the rows listed for a type are exactly those of that type, in rising order |
| EdgeFrames.InCsr | crates/lynxes-core/src/frame/edge_frame.rs:512-552 | the lazily built reverse index is the exact transpose over the same rows |
| EdgeFrames.Filter | crates/lynxes-core/src/frame/edge_frame.rs:287-307 | a mask of the wrong length is refused; otherwise exactly the selected rows remain and every index agrees with them |
| EdgeFrames.FilterByType | crates/lynxes-core/src/frame/edge_frame.rs:313-324 | going through the type index selects exactly the rows of that type, in their order |
| EdgeFrames.Select | crates/lynxes-core/src/frame/edge_frame.rs:354-392 | each row keeps its ends, its type and exactly the requested ones of its user columns with their values; the copied indexes still agree |
| EdgeFrames.Concat | crates/lynxes-core/src/frame/edge_frame.rs:411-440 | the rows one after another with agreeing indexes, single-frame shortcut included; no frames is an error |
| EdgeFrames.IndexesDetermined | crates/lynxes-core/src/frame/edge_frame.rs:287-507 | two frames with the same rows are equal: no chain of filters, selections and concatenations leaves a trace in the indexes |
| NodeFrames.FromRecordBatch | crates/lynxes-core/src/frame/node_frame.rs:36-52 | succeeds exactly when ids are unique, and otherwise reports the first repeated one |
| NodeFrames.Filter | crates/lynxes-core/src/frame/node_frame.rs:167-188 | exactly the selected rows with a rebuilt id index; a wrong mask length is refused |
| NodeFrames.Concat | crates/lynxes-core/src/frame/node_frame.rs:278-324 | the rows one after another if no id occurs twice, otherwise the first repeated id; no frames is an error |
| NodeFrames.FromValidBatch | crates/lynxes-core/src/frame/node_frame.rs:384-399 | rebuilds an id index that agrees with the rows |
| GraphFrames.New | crates/lynxes-core/src/frame/graph_frame.rs:59-63 | succeeds exactly when every edge joins two nodes of the table, and otherwise reports the first dangling edge |
| GraphFrames.NewUnchecked | crates/lynxes-core/src/frame/graph_frame.rs:89-111 | all four lookup tables agree with the two frames, closed or not |
| GraphFrames.ValidateEdgeEndpoints | crates/lynxes-core/src/frame/graph_frame.rs:401-418 | reports the first edge with an endpoint outside the node table, if any |
| GraphFrames.BuildEdgeNodeMapping | crates/lynxes-core/src/frame/graph_frame.rs:541-562 | the edge-local tables list every endpoint id under its edge-frame number |
| GraphFrames.Subgraph | crates/lynxes-core/src/frame/graph_frame.rs:294-310 | the named nodes and exactly the edges between them, always closed; unknown ids are ignored |
| GraphFrames.InducedPicks | crates/lynxes-core/src/frame/graph_frame.rs:294-310 | the rows kept are exactly those with a requested id and those with two requested known ends, in their order |
| Traversal.Bfs | crates/lynxes-core/src/algo/traversal.rs:87-163 | the nodes are the roots and everything within the hop limit through admitted nodes; an edge row is returned exactly when its type is the one, or among those, asked for and it leads from a node within one hop less to a root or an admitted node; the first unknown root is an error |
| Traversal.ExpandNode | crates/lynxes-core/src/algo/traversal.rs:169-242 | expanding a node settles all its arcs: each leads to a visited node and is recorded, or to a refused one |
| Traversal.SeedRoots | crates/lynxes-core/src/algo/traversal.rs:103-120 | succeeds exactly on known roots, visiting their indices and recording their rows once |
| Traversal.EdgeAnswer | crates/lynxes-core/src/algo/traversal.rs:124-163 | an edge row is recorded exactly when it was crossed, in whatever order neighbours were visited |
| Traversal.NodeAnswer | crates/lynxes-core/src/algo/traversal.rs:124-163 | a node row is recorded exactly when its id is within the hop limit |
| Traversal.Exhausted | crates/lynxes-core/src/algo/traversal.rs:124-128 | breaking off on an empty frontier loses nothing: all later balls are equal |
| Balls.WithinIsTrail | crates/lynxes-core/src/algo/traversal.rs:124-143 | being within k is having a trail of at most k admitted steps from a root |
| Balls.NextBall | crates/lynxes-core/src/algo/traversal.rs:124-143 | adding the open neighbours of a ball and nothing else gives the next ball |
| Balls.WithinStep | crates/lynxes-core/src/algo/traversal.rs:107-150 | a node is within one hop more exactly when it was within already or is open and an edge row of an admitted type leads to it in the direction asked for |
| Balls.ClosedStays | crates/lynxes-core/src/algo/traversal.rs:124-128 | a round that adds nothing is the last one that could |
| Searches.KHopSubgraph | crates/lynxes-core/src/frame/graph_frame.rs:361-399 | the FIFO search keeps exactly the nodes within k undirected steps and the edges between them; an isolated root is kept alone, an unknown one refused |
| Searches.Discovered | crates/lynxes-core/src/frame/graph_frame.rs:371-393 | the queue with depths discovers exactly the undirected ball of radius k |
| Searches.KHopIsBfs | crates/lynxes-core/src/frame/graph_frame.rs:361-399 | on a closed graph these are the nodes the level-synchronous traversal returns for direction Both |
| Searches.HasPath | crates/lynxes-core/src/algo/centrality.rs:68-110 | true exactly when the target is in the outgoing ball of that radius, or of any radius when there is no limit; unknown endpoints are errors |
| Searches.NextLayer | crates/lynxes-core/src/algo/centrality.rs:92-107 | one round either meets the target as a neighbour of the current ball or completes the next ball without it |
| Components.ComputeComponents | crates/lynxes-core/src/algo/connected_components.rs:108-170 | two nodes get the same id exactly when they are connected ignoring direction; ids are dense and numbered by first node row |
| Components.LabellingUnique | crates/lynxes-core/src/algo/connected_components.rs:108-170 | a graph has exactly one such labelling |
| Components.ConnectedSym | crates/lynxes-core/src/algo/connected_components.rs:144-163 | connectedness is symmetric on the nodes of the table |
| Components.FloodFrom | crates/lynxes-core/src/algo/connected_components.rs:133-164 | the search from a start row labels only rows connected to it and leaves no labelled row with an unlabelled neighbour |
| Components.BuildTables | crates/lynxes-core/src/algo/connected_components.rs:112-127 | the two tables translate node rows and edge-local indices into each other exactly where both sides know the id |
| Components.LargestLabel | crates/lynxes-core/src/algo/connected_components.rs:72-86 | the label with the most rows, ties going to the lowest |
| Components.LargestConnectedComponent | crates/lynxes-core/src/algo/connected_components.rs:60-97 | the induced graph of the largest class, ties going to the class that appears first; an empty graph gives an empty one |
| Assignments.AssignNodes | crates/lynxes-core/src/algo/partition.rs:384-458 | every node gets a shard below the count, by hash, by band (rank divided by the least sufficient band size) or by label |
| Assignments.AssignByRange | crates/lynxes-core/src/algo/partition.rs:395-409 | nodes in id order fall into consecutive bands of equal size, the node of rank r into band r divided by that size, which is the least that lets the shards hold all nodes; the clamp to the last shard never matters |
| Assignments.RangeByRank | crates/lynxes-core/src/algo/partition.rs:395-409 | the id order lists every node once, rising; the node of rank r is in shard r over the band size, and the band size is the least with which the shards hold all nodes |
| Assignments.LexMeans | crates/lynxes-core/src/algo/partition.rs:402 | one id comes before another exactly when after a common beginning it ends or has the smaller character |
| Assignments.RangeConsecutive | crates/lynxes-core/src/algo/partition.rs:395-409 | a smaller id never gets a larger shard |
| Assignments.RangeBandSize | crates/lynxes-core/src/algo/partition.rs:395-409 | no shard gets more nodes than the node count over the shard count rounded up: with one node fewer per shard, some node would be left over |
| Assignments.AssignByLabel | crates/lynxes-core/src/algo/partition.rs:410-456 | first labels take shards round-robin in order of appearance, unlabelled nodes fall back to the hash |
| Assignments.LabelAffinity | crates/lynxes-core/src/algo/partition.rs:410-456 | nodes with the same first label share a shard |
| Assignments.LabelRoundRobin | crates/lynxes-core/src/algo/partition.rs:410-456 | a row whose first label is new gets the shard numbered by how many labels came before, modulo the shard count |
| Partition.SplitGraph | crates/lynxes-core/src/algo/partition.rs:280-378 | for every method and count each node is in its one shard, each edge in exactly one shard or the boundary, and every shard is a valid closed graph; zero shards is an error; an edge row is on the boundary exactly when its ends have different shards and otherwise in the shard of both |
| Partition.EdgesArePlaced | crates/lynxes-core/src/algo/partition.rs:341-356 | an edge row is in the boundary exactly when its ends are in different shards, and in a shard exactly when both ends are in it |
| Partition.EdgeMasks | crates/lynxes-core/src/algo/partition.rs:342-356 | each edge row is marked in the shard both its ends share, otherwise in the boundary, and nowhere else |
| Partition.ShardClosed | crates/lynxes-core/src/algo/partition.rs:358-366 | an edge kept in a shard has both ends among that shard's nodes |
| Partition.NodesConserved | crates/lynxes-core/src/algo/partition.rs:117-133 | together the shards hold every node row exactly once |
| Partition.EdgesConserved | crates/lynxes-core/src/algo/partition.rs:117-133 | together shards and boundary hold every edge row exactly once |
| Partition.Merge | crates/lynxes-core/src/algo/partition.rs:117-133 | merging restores the node and edge rows as multisets; it fails only if the original graph had a dangling edge |
| DistributedSearch.DistributedExpand | crates/lynxes-core/src/algo/partition.rs:140-243 | for any assignment the nodes returned are those of the whole-graph ball; every edge returned is original, returned no more often than it occurs and has both ends visited; inside shards no such edge is missing, and a boundary edge is returned exactly when in some round it leads from that round's frontier to a node neither visited before nor met by the shard scans |
| DistributedSearch.RoundMeets | crates/lynxes-core/src/algo/partition.rs:185-197 | a boundary row discovers something in a round exactly when it leads from the rim of the ball to a node outside it that no edge inside a shard reaches in that round |
| DistributedSearch.AnswerClosed | crates/lynxes-core/src/algo/partition.rs:207-243 | on a closed graph both ends of every returned edge are among the returned nodes |
| DistributedSearch.ShardingTransparent | crates/lynxes-core/src/algo/partition.rs:140-243 | on a closed graph those are the nodes of the unfiltered whole-graph traversal |
| DistributedSearch.ExpandRound | crates/lynxes-core/src/algo/partition.rs:153-204 | one round discovers exactly the unvisited nodes one step beyond the frontier |
| DistributedSearch.StepPlaced | crates/lynxes-core/src/algo/partition.rs:153-204 | shard scans and boundary scan together see every step from the frontier and no other |
| DistributedSearch.DirectExpand | crates/lynxes-core/src/algo/partition.rs:476-530 | finds exactly the nodes that an edge row of the shard, of an admitted type and in an admitted direction, joins to a seed |
| DistributedSearch.ExpandViaBoundary | crates/lynxes-core/src/algo/partition.rs:595-655 | finds exactly the unvisited nodes that a boundary row of an admitted type and direction joins to the frontier, and exactly the rows that lead there |
| DistributedSearch.EdgesOnce | crates/lynxes-core/src/algo/partition.rs:207-243 | the returned edges are a sub-multiset of the original ones |
| ExprCodec.ExprRoundTrip | crates/lynxes-core/src/query/expr.rs:348-442 | decoding an encoded expression gives it back if and only if every literal fits the tag of its first items and every cast names its type |
| ExprCodec.ExprOutcome | crates/lynxes-core/src/query/expr.rs:348-442 | decoding an encoded expression succeeds exactly for decodable ones and then changes exactly those that are not encodable |
| ExprCodec.ScalarRoundTrip | crates/lynxes-core/src/query/expr.rs:587-630 | a literal survives under a tag if and only if it has the tag's shape all the way down with finite floats, nested list tags included |
| ExprCodec.ScalarOutcome | crates/lynxes-core/src/query/expr.rs:587-630 | under any tag a literal can be read back exactly when it is readable, and then as the stated value: anything as a null, an integer as a float |
| ExprCodec.SilentlyChanged | crates/lynxes-core/src/query/expr.rs:570-630 | a literal comes back without error but changed if and only if it is readable under its own tag and does not fit it |
| ExprCodec.HomogeneousFits | crates/lynxes-core/src/query/expr.rs:570-585 | lists whose items all share the first item's tag, recursively, fit their own tag |
| ExprCodec.DtypeRoundTrip | crates/lynxes-core/src/query/expr.rs:632-659 | a type survives if and only if it is built from the five base types by nullable lists with field name item |
| ExprCodec.ListTagParses | crates/lynxes-core/src/query/expr.rs:613-616 | a list tag is recognised and its inner tag cut out exactly, and no list tag is mistaken for a base tag |
| ExprCodec.AggRoundTrip | crates/lynxes-core/src/query/expr.rs:464-518 | the same for aggregates, through any nesting of aliases |
| ExprCodec.EncodedKind | crates/lynxes-core/src/query/expr.rs:257-299 | each kind of expression is encoded under its own name with its operands in their places |
| ExprCodec.EncodedOperator | crates/lynxes-core/src/query/expr.rs:300-346 | each operator is encoded under its own name and no two share one |
| ExprCodec.EncodedAgg | crates/lynxes-core/src/query/expr.rs:308-326 | each aggregate is encoded under its own name with its argument in place |
| ExprCodec.MixedListLost | crates/lynxes-core/src/query/expr.rs:570-630 | mixed lists and a NaN are encoded without complaint; some cannot be decoded and some come back changed |

## Left out

- ShortestPath.DijkstraSingle: requires positive weights; weights of zero are not modelled for it.
- AllPaths.DijkstraAll: requires positive weights; the enumeration recurses along tight predecessors, whose distance must fall.
- AStar.AStarSingle: requires positive weights; scores and estimates are exact, so a NaN or infinite estimate does not arise.
- PathQueries.FindShortestPath: weight columns are given as one natural number per row; nulls, NaN, missing columns, negative weights and non-numeric columns are not modelled.
- Traversal.Bfs: evaluation of the filter expression on node columns is a parameter (one verdict per node row).
- Csr.Build: row ids and indices are unbounded naturals, so a 32-bit overflow is not modelled; the library's sort is an insertion sort.
- EdgeFrames.Select: an unknown column name, which the code refuses, is ignored; column order is not modelled.
- EdgeFrames.Concat: merging different schemas is not modelled; user columns are an opaque map.
- NodeFrames.Concat: merging different schemas is not modelled.
- MutableGraphs.MutableGraphFrame.FromGraphFrame: takes a graph whose edges all join nodes of its table, as its checked constructors guarantee.
- MutableGraphs.MutableGraphFrame.AddEdge: the refusal of non-null user columns and the comparison of edge schemas are not modelled.
- MutableGraphs.MutableGraphFrame.Compact: covers the first compaction. Afterwards base edge ids are positions in the merged list while the payload rows are not extended, so no later operation is claimed to agree with the plain graph.
- MutableGraphs.MutableGraphFrame.Freeze: covers graphs that were not compacted before; schema validation is switched off there, as in the code.
- PageRank.PageRankKernel: real arithmetic; rounding is not modelled. The weight column is given as one real number per row.
- BrandesKernel.UnweightedBrandesFromSource: real arithmetic; the weighted variant is not modelled, and sources are summed one after another.
- HopSearch.ShortestPathCandidate: the three link arrays are one array of links.
- ExprCodec.ExprRoundTrip: the textual JSON layer produced by the serialisation library is not modelled; field metadata of list types is ignored, and an integer read as a float is converted exactly.
- Floating-point comparison with a tolerance: exact comparison of integer costs instead.
- Concurrency: locks, atomic snapshot swaps, parallel iteration; every method runs alone.
- Null masks, Arrow buffers and column types; label lists that are null.
- Degree and density queries, feature columns, coordinate export, subgraphs by label or edge type, node-frame intersection and difference: they would only add easy members.
- Louvain communities, sampling and random walks, the weighted shortest-path kernels outside the files above.
- Connectors, bindings, display, layout, file formats, the optimizer and the lazy executor.
