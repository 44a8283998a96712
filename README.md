# A verified model of the mapf search infrastructure

mapf is a collection of multi-agent path-finding solvers on grids: CBS (conflict-based search), the increasing cost tree search, A* with operator decomposition, with partial expansion and over joint MDDs, and the data structures they share. This project models, in Dafny, the deterministic pieces under those solvers, and proves what each of them promises:

- the priority structures: a binary min-heap whose items record their own slot (`BinaryHeaps`, `HeapOrder`), and the open list that keeps a FIFO lane for items tying at the top (`OpenLists`);
- union-find with ranks and path compression (`UnionFind`), and the conflict graph with its greedy 2-approximate vertex cover and the exact k-vertex-cover decision (`BoolMatrix`, `ConflictGraphs`);
- grid moves and timed moves, their opposites and collision rules (`Moves`, `TimedMoves`), and single and joint plans with clamped lookup and trailing-wait trimming (`Plans`);
- the conflict avoidance table of reserved (cell, time) pairs, in which a goal stays reserved from its arrival onward (`ConflictAvoidance`);
- CBS constraints (`CbsConstraints`) and CBS nodes: the root, group merging and normalisation, node ordering and path lengths (`CbsNodes`);
- the increasing-cost-tree node (`CostTree`), the pattern database's permutation hash (`Enumeration`), the grid and cardinality numbering of a problem instance (`Problems`);
- the memoised child-existence tests of A* over MDDs and of partial expansion, and the odometer that enumerates children (`AStarMdds`, `PartialExpansion`), and the world-state rules (`WorldStates`);
- the small containers: the growing array (`DynamicArrays`), the union of dictionaries (`UnionDictionaries`) and the key-aware default dictionary of the Python scripts (`KeyDefaultDicts`);
- the maximum-finding extensions (`MyExtensions`);
- the analysis scripts: the success-rate and fair-average computation (`RuntimesAndSuccesses`) and the routing of CSV rows by solution depth (`SplitByDepth`).

Classes whose fields the source updates in place are Dafny classes with `modifies` frames. Arrays that are filled or rewritten in place stay Dafny arrays: the growing array, the CBS group assignment, the MDD child odometer, the permutation tables and the cardinality grid. The heap's backing array and the collections the source mutates are sequence, set and map fields that the methods reassign. C# checked and unchecked integer widths are written out with the helpers of module `FixedWidth`. Exceptions the source throws are the `Err` cases of a `Result`. The scripts' file reading and writing, and their `int()` and `float()` conversions, are parameters: rows are given as records, and the conversions as partial functions.

## Model

| member | source | states |
|---|---|---|
| HeapOrder.Parent | BinaryHeap.cs:181-185 | the parent `(i - 1) >> 1` of every slot below the root is an earlier slot; the root's parent is -1 |
| HeapOrder.GetFatherIndex | BinaryHeap.cs:255-261 | agrees with Parent on every slot below the root |
| HeapOrder.ChildrenOf | BinaryHeap.cs:181-197 | the slots whose parent is p are exactly Child1(p) and Child2(p) |
| HeapOrder.RootIsMinimum | BinaryHeap.cs:101-116 | in a heap-ordered array the root is no larger (CompareTo) than any item |
| HeapOrder.PositionsSpec | BinaryHeap.cs:92-171 | the index map of a sequence with distinct items records each item's slot and no other id |
| BinaryHeaps.GrowFromZeroLeavesNoRoom | BinaryHeap.cs:35-89 | as written, an empty heap whose Capacity was set to 0 stays at capacity 0 when Add doubles it, so Add writes past the array |
| BinaryHeaps.Grow | BinaryHeap.cs:86-89 | corrected growth on a full heap: more than count slots and at least twice the capacity |
| BinaryHeaps.BinaryHeap.constructor | BinaryHeap.cs:18-21 | an empty, valid heap of capacity DEFAULT_SIZE (4) |
| BinaryHeaps.BinaryHeap.Count | BinaryHeap.cs:27-30 | the number of stored items |
| BinaryHeaps.BinaryHeap.Peek | BinaryHeap.cs:66-69 | None exactly when the heap is empty; otherwise a stored item no larger than any stored item |
| BinaryHeaps.BinaryHeap.SetCapacity | BinaryHeap.cs:35-48 | the new capacity is max(value, Count); the stored items, the count and the index map are kept, and a reallocated tail is empty |
| BinaryHeaps.BinaryHeap.Clear | BinaryHeap.cs:74-78 | count 0, the same capacity, every slot empty |
| BinaryHeaps.BinaryHeap.UpHeap | BinaryHeap.cs:118-135 | the slots up to the new one become heap-ordered, are a permutation of the old ones, and every item's index is its slot |
| BinaryHeaps.BinaryHeap.DownHeap | BinaryHeap.cs:137-172 | a heap broken only at the root becomes heap-ordered, a permutation of the old slots, with every item's index its slot |
| BinaryHeaps.BinaryHeap.RemoveRoot | BinaryHeap.cs:108-115 | returns the old root; the last item fills the root, its old slot is cleared, the count drops by one and the contents lose exactly the root |
| BinaryHeaps.BinaryHeap.Remove | BinaryHeap.cs:101-116 | InvalidOperation on an empty heap with nothing changed; otherwise an item no larger than any stored item, removed once, with index -1, and the heap stays valid |
| BinaryHeaps.BinaryHeap.Add | BinaryHeap.cs:84-95 | count up by one, contents plus the item, every index its slot; the capacity is kept unless the heap was full, when it grows |
| BinaryHeaps.BinaryHeap.Append | BinaryHeap.cs:90-94 | the item goes into the next slot and rises; count up by one, contents plus the item, heap order and indices kept |
| BinaryHeaps.BinaryHeap.ShiftToRoot | BinaryHeap.cs:290-302 | each ancestor of the removed slot moves one level down and the removed item ends at the root, the slots stay a permutation, and the indices follow |
| BinaryHeaps.BinaryHeap.SetIndexInHeap | OpenList.cs:113-115 | records an index for an item that is not in the heap and changes no other item's index |
| BinaryHeaps.BinaryHeap.RemoveItem | BinaryHeap.cs:274-305 | false for a null item or one with index -1, with nothing changed; otherwise the item leaves the heap, the count drops by one and the heap stays valid |
| OpenLists.Without | OpenList.cs:133-145 | the queue with the item taken out: every other item kept, in order, and nothing added |
| OpenLists.WithoutSplice | OpenList.cs:133-145 | taking out an item that occurs once leaves the items before it followed by the items after it |
| OpenLists.WithoutOnce | OpenList.cs:133-145 | with distinct ids, exactly one copy of the queued item is removed |
| OpenLists.QueueRemoveAsWrittenReorders | OpenList.cs:135-145 | as written the loop bound shrinks after a removal: removing the front of [a,b,c] leaves [c,b], while the order-keeping result is [b,c] |
| OpenLists.TurnQueue | OpenList.cs:133-147 | the corrected loop, run for the queue's starting length: the result is the queue without the item, and it reports whether the item was there |
| OpenLists.OpenList.constructor | OpenList.cs:26-35 | an empty open list with a fresh heap and an empty queue |
| OpenLists.OpenList.Count | OpenList.cs:37-40 | the number of items in the heap plus the queue |
| OpenLists.OpenList.Peek | OpenList.cs:42-47 | the queue's front when it has one; otherwise the heap's top; always an item no larger than any held item, None only when empty |
| OpenLists.OpenList.Clear | OpenList.cs:49-53 | no items and an empty queue |
| OpenLists.OpenList.Add | OpenList.cs:55-105 | adds exactly the item; with an empty queue it goes into the heap unless it is below every heap item; with a queue it goes into the heap if larger than the front, to the back if tied, and if smaller the whole queue is flushed into the heap first |
| OpenLists.OpenList.AddBesideEmptyQueue | OpenList.cs:57-72 | the empty-queue branch of Add, with the same two outcomes |
| OpenLists.OpenList.AddBesideQueue | OpenList.cs:73-93 | the non-empty-queue branch of Add, with its three outcomes |
| OpenLists.OpenList.Enqueue | OpenList.cs:90-91 | a tie joins the back of the queue and the lane invariant is kept |
| OpenLists.OpenList.HeapAdd | OpenList.cs:60-77 | heap.Add of an item not below the queue keeps the queue below every heap item |
| OpenLists.OpenList.Flush | OpenList.cs:80-90 | the whole queue goes into the heap and the item becomes the only queued one |
| OpenLists.OpenList.Remove | OpenList.cs:107-120 | the queue's front when the queue is non-empty, otherwise heap.Remove(); an item no larger than any held item, with index -1; InvalidOperation when empty |
| OpenLists.OpenList.Dequeue | OpenList.cs:110-116 | the queue's front leaves the queue and is marked not in the heap |
| OpenLists.OpenList.RemoveItem | OpenList.cs:128-150 | false for an item with index -1, with nothing changed; otherwise the item leaves the queue (the other queued items keep their order) or else the heap |
| OpenLists.OpenList.RemoveFromHeap | OpenList.cs:149 | heap.Remove(item) for an item outside the queue takes it out of the heap |
| OpenLists.OpenList.RemoveFromQueue | OpenList.cs:133-147 | reports whether the item was queued, and leaves the queue without it and the other items in order |
| UnionFind.RepOf | DisjointSets.cs:197-202 | the representative at the end of an item's parent chain is its own parent, and it has a strictly higher rank than any other item on the chain |
| UnionFind.CompressKeepsRep | DisjointSets.cs:199-200 | pointing an item straight at its representative changes no item's representative |
| UnionFind.LinkRep | DisjointSets.cs:223-232 | after one root is put under another, the first root's set has the second as representative and every other item keeps its own |
| UnionFind.AppendKeepsRep | DisjointSets.cs:97-105 | a new item that is its own parent with rank 0 changes no other representative |
| UnionFind.AppendReps | DisjointSets.cs:97-105 | a new set of one item is its own representative and every other item keeps its representative |
| UnionFind.NumRootsLink | DisjointSets.cs:223-232 | putting one root under another lowers the number of roots by one |
| UnionFind.RelinkJoins | DisjointSets.cs:211-236 | relinking either representative under the other unites exactly the pairs that the merge of the two sets unites |
| UnionFind.LinkRanked | DisjointSets.cs:223-234 | the ranks after a link still rise strictly along every parent link, and maxRank stays at least every rank |
| UnionFind.DisjointSets.constructor | DisjointSets.cs:37-41 | no entries, maxRank 0, no sets |
| UnionFind.DisjointSets.Contains | DisjointSets.cs:253-256 | true exactly for the entries present |
| UnionFind.DisjointSets.AddSet | DisjointSets.cs:97-105 | true exactly for a new entry, which becomes a set of its own; a present entry leaves everything unchanged; no two entries change whether they share a set |
| UnionFind.DisjointSets.IsSingle | DisjointSets.cs:112-116 | KeyNotFound exactly for a missing entry; otherwise true exactly when its item is its own parent with rank 0, which holds exactly when no other entry shares its set |
| UnionFind.DisjointSets.SingleIffAlone | DisjointSets.cs:112-116 | under the union-find invariant, an item that is its own parent with rank 0 is exactly an item alone in its set |
| UnionFind.DisjointSets.GetNumOfSets | DisjointSets.cs:133-144 | the number of entries whose item is its own parent, which is the number of sets |
| UnionFind.DisjointSets.AreUnited | DisjointSets.cs:244-251 | KeyNotFound for a missing entry; otherwise whether the two entries share a set; no set changes |
| UnionFind.DisjointSets.Find | DisjointSets.cs:197-202 | returns the item's representative, leaves the item pointing straight at it, and changes no item's set and no root |
| UnionFind.DisjointSets.Union | DisjointSets.cs:211-236 | both entries present afterwards and united; false exactly when they already shared a set; exactly the pairs of the two merged sets become united; a true result lowers the set count by one; maxRank grows by at most one |
| UnionFind.DisjointSets.AddBoth | DisjointSets.cs:213-214 | both entries present, no pair's membership changed, one more set per new entry |
| UnionFind.DisjointSets.Link | DisjointSets.cs:215-235 | the rest of Union once both entries are present, with the same membership and count results |
| UnionFind.DisjointSets.LinkRoots | DisjointSets.cs:219-235 | false when the representatives are equal; otherwise the lower rank goes under the higher, b's under a's on a tie with a's rank raised |
| UnionFind.DisjointSets.Attach | DisjointSets.cs:223-234 | one root's parent becomes the other, ranks and maxRank change as on a tie or not, the representatives are relinked and the set count drops by one |
| BoolMatrix.TotalRemoved | ConflictGraph.cs:168-179 | clearing one vertex of a symmetric loopless matrix removes twice its degree from the count of true entries, so the copy's edge counter drops by the vertex's degree |
| BoolMatrix.RemovedShape | ConflictGraph.cs:168-179 | the matrix with one vertex cleared is still symmetric and loopless |
| BoolMatrix.DegreeBound | ConflictGraph.cs:143-147 | a vertex with an edge has fewer neighbours than there are vertices with an edge |
| BoolMatrix.TouchedRemoved | ConflictGraph.cs:168-179 | clearing a vertex with an edge leaves fewer vertices with an edge |
| ConflictGraphs.WithoutWellFormed | ConflictGraph.cs:168-179 | the copy without a vertex that has an edge keeps its counters consistent with its matrix and has fewer edges |
| ConflictGraphs.NoEdgesCovered | ConflictGraph.cs:141-142 | a graph with no edge is covered by any k >= 0 vertices |
| ConflictGraphs.EdgeNotCoveredByNone | ConflictGraph.cs:141-147 | a graph with an edge has no cover of size 0 |
| ConflictGraphs.CoverWith | ConflictGraph.cs:164-182 | a cover of size k-1 of the graph without w gives a cover of size k of the graph |
| ConflictGraphs.CoverSplits | ConflictGraph.cs:164-184 | a cover of size k holds an endpoint of the edge (u, v), so the graph without u or the graph without v has a cover of size k-1 |
| ConflictGraphs.CoverBound | ConflictGraph.cs:143-147 | any cover C of a graph with an edge satisfies numOfEdges <= |C| * (numOfNodes - 1) |
| ConflictGraphs.PruneSound | ConflictGraph.cs:143-147 | when numOfEdges > k * numOfNodes - k there is no cover of size k |
| ConflictGraphs.PassedPrune | ConflictGraph.cs:141-147 | a graph with an edge that passes the pruning test has k >= 1 |
| ConflictGraphs.AllButOne | ConflictGraph.cs:103-106 | all vertices with an edge but one always cover the graph, so the root search of MinimumVertexCover finds a size below numOfNodes |
| ConflictGraphs.CoverAtLeastMatching | ConflictGraph.cs:51-77 | every cover has at least as many vertices as a matching has edges |
| ConflictGraphs.MatchingSize | ConflictGraph.cs:66-71 | the endpoints of a matching are twice as many as its edges |
| ConflictGraphs.ChooseEdge | ConflictGraph.cs:150-163 | the first edge (u, v), u < v, at or after row lastEdgeX in row order, or none when there is none |
| ConflictGraphs.RemoveVertex | ConflictGraph.cs:168-179 | the copy is the graph with every edge of the vertex cleared, numOfEdges lowered by its degree and numOfNodes by one |
| ConflictGraphs.KVertexCover | ConflictGraph.cs:139-185 | true exactly when some max(k, 0) vertices cover every edge |
| ConflictGraphs.TryEndpoints | ConflictGraph.cs:164-184 | true exactly when a cover of size k exists, given that (u, v) is the first edge in row order |
| ConflictGraphs.ConflictGraph.constructor | ConflictGraph.cs:17-27 | a square matrix of the number of agents with no edge and both counters zero |
| ConflictGraphs.ConflictGraph.Add | ConflictGraph.cs:36-44 | the edge is set in both directions and counted only when it was not there |
| ConflictGraphs.ConflictGraph.ApproximateMinimumVertexCover | ConflictGraph.cs:51-77 | numOfEdges when below 2; otherwise an even size of a real cover and at most twice the size of every cover |
| ConflictGraphs.ConflictGraph.MinimumVertexCover | ConflictGraph.cs:84-128 | numOfEdges when below 2; otherwise numOfNodes becomes the number of vertices with an edge; with no previous size, the minimum cover size; with a previous size p, p-1 exactly when p-1 vertices suffice, else p when p vertices suffice, else p+1 |
| ConflictGraphs.ConflictGraph.CountNodes | ConflictGraph.cs:89-101 | the number of vertices with at least one edge |
| ConflictGraphs.GreedyMatching | ConflictGraph.cs:56-76 | the endpoints of the greedy matching: a real cover of even size at most twice every cover |
| ConflictGraphs.MatchRow | ConflictGraph.cs:59-74 | one row of the greedy scan: the first edge of row i to an uncovered vertex joins the matching, after which every upward edge of row i is covered |
| ConflictGraphs.GreedyCovers | ConflictGraph.cs:57-75 | once every row's upward edges are covered, the set covers the whole symmetric graph |
| ConflictGraphs.ApproximationBound | ConflictGraph.cs:51-77 | the endpoints of a matching are at most twice the size of any cover |
| Moves.GetOppositeMove | Move.cs:44-66 | for directions 1-8 the opposite starts from the cell the move came from and goes the reverse way; any other direction is its own opposite |
| Moves.OppositeInvolution | Move.cs:44-66 | taking the opposite twice gives back the move |
| Moves.MutableMove.constructor | Move.cs:26-31 | the fields hold the given cell and direction |
| Moves.MutableMove.SetOppositeMove | Move.cs:80-105 | the fields become the opposite of the old move, so applying it twice restores them and other directions are untouched |
| Moves.IsColliding | Move.cs:137-163 | true exactly when both moves target the same cell or the other move is the reverse of this one |
| Moves.IsCollidingWith | Move.cs:175-201 | the three-number overload agrees with the Move overload |
| Moves.HeadOnCollision | Move.cs:141-162 | a collision between different cells needs the other move to come from the neighbouring cell with the opposite direction |
| Moves.CollisionSymmetric | Move.cs:137-163 | a collides with b exactly when b collides with a |
| Moves.GetDirection | Move.cs:203-222 | a code from 0 to 4, whose displacement is the step taken whenever the step is a wait or one of the four unit steps |
| Moves.GetDirectionInvertsDelta | Move.cs:203-222 | the code of a wait or a unit step is recovered from the cells it joins |
| Moves.Equals | Move.cs:234-238 | with a side without a direction, true exactly when the cells match; with both directions set, true exactly when the moves are identical |
| Moves.EqualsProperties | Move.cs:234-238 | Equals is reflexive and symmetric |
| Moves.EqualsNotTransitive | Move.cs:234-238 | two moves with different directions each equal the directionless move to their cell but not each other |
| Moves.GetHashCode | Move.cs:223-226 | x + y * 10000 in 32-bit arithmetic, exact when it does not overflow |
| Moves.EqualMovesHashEqually | Move.cs:223-238 | moves that are Equal have the same hash |
| TimedMoves.Equals | TimedMove.cs:31-41 | false across time steps; at the same time step exactly Move.Equals of the two moves |
| TimedMoves.HashSetAdd | Plan.cs:373 | HashSet.Add: the set gains the move exactly when no member is Equals to it, and afterwards contains a member Equals to it |
| TimedMoves.DirectionlessMemberAbsorbsAdd | Plan.cs:373 | adding a move with a direction to a set holding the directionless move of its cell and time leaves the set unchanged |
| TimedMoves.GetHashCode | TimedMove.cs:42-48 | the unchecked base hash * 3 + time, kept in 32 bits |
| TimedMoves.EqualTimedMovesHashEqually | TimedMove.cs:30-48 | timed moves that are Equal have the same hash |
| TimedMoves.IsColliding | TimedMove.cs:66-76 | false across time steps; at the same time step exactly Move.Equals of the two moves |
| TimedMoves.GetOppositeMove | TimedMove.cs:78-87 | the opposite of the move, at the same time step |
| TimedMoves.TimedOppositeInvolution | TimedMove.cs:78-87 | taking the opposite twice gives back the timed move |
| TimedMoves.IsCollidingAsDocumented | TimedMove.cs:58-64 | at the same time step, a shared target cell or a head-on swap |
| TimedMoves.AsWrittenCollisionsDocumented | TimedMove.cs:58-76 | every collision isColliding reports is one its comment describes |
| TimedMoves.TimedHeadOnMissed | TimedMove.cs:66-76 | a head-on swap, and two moves into one cell from different directions, are not reported by isColliding |
| Plans.Size | Plan.cs:329-336 | between 1 and the length of the plan |
| Plans.SizeCharacterization | Plan.cs:329-336 | the count-down stops at the first step, from the end, whose predecessor is off the goal cell: every step from Size-1 on is on the goal cell and the step before is not |
| Plans.SinglePlan.constructor | Plan.cs:275-279 | the plan holds the route and the agent index |
| Plans.SinglePlan.GetLocationAt | Plan.cs:287-293 | the move at the time, or the last move for a time past the end |
| Plans.SinglePlan.GetSize | Plan.cs:329-336 | at least 1 and at most the length; only trailing steps already on the goal cell are dropped |
| Plans.SinglePlan.Equals | Plan.cs:295-299 | a true result means the same agent and the same length; identical plans are equal; without directionless moves, equal exactly when identical |
| Plans.SinglePlan.ContinueWith | Plan.cs:307-320 | the other plan's moves are appended, its first move skipped when it equals this plan's last move; continuing a plan with itself leaves a one-move plan as it is, and otherwise appends one move and fails with InvalidOperation |
| Plans.SinglePlan.AddPlanToHashSet | Plan.cs:368-376 | the set gains, up to TimedMove.Equals, the timed location of every step 0..until and nothing else, and no two of the moves it gains are Equals |
| Plans.AddKeepsApart | Plan.cs:368-376 | HashSet.Add keeps the moves a set gained pairwise not Equals |
| Plans.StaysAtGoal | Plan.cs:287-336 | from GetSize - 1 on, the location at any time is the goal cell |
| Plans.Plan.constructor | Plan.cs:86-101 | the longest GetSize of the single plans many steps, each with one move per agent, agent a's move at time t being its single plan's location at t |
| Plans.LongestSize | Plan.cs:88 | the largest GetSize among the single plans, attained by one of them |
| Plans.MovesAt | Plan.cs:93-97 | one move per agent, in agent order, each its plan's location at the time |
| Plans.Plan.GetLocationsAt | Plan.cs:170-174 | the step at the time, clamped to the last step |
| Plans.JointPlanAgreesWithSinglePlans | Plan.cs:86-101 | at every time, past the end too, the joint plan puts each agent on the cell its own plan gives |
| ConflictAvoidance.RemoveFirst | ConflictAvoidanceTable.cs:82 | List.Remove: one occurrence of the agent fewer when present, the list unchanged otherwise |
| ConflictAvoidance.Steps | ConflictAvoidanceTable.cs:41-51 | the timed move of each of the first n steps, step i at time i |
| ConflictAvoidance.Find | ConflictAvoidanceTable.cs:52 | the dictionary lookup: the newest stored key that is TimedMove.Equals to the query, none exactly when no stored key is |
| ConflictAvoidance.AddStep | ConflictAvoidanceTable.cs:52-59 | one iteration of AddPlan: a new entry exactly when no stored key is Equals to the step, the stored keys kept |
| ConflictAvoidance.RemoveStep | ConflictAvoidanceTable.cs:82 | one iteration of RemovePlan: the stored keys kept, none added |
| ConflictAvoidance.AddStepLookup | ConflictAvoidanceTable.cs:52-59 | after one step of AddPlan the list of the entry the step finds gains the agent at its end for every query finding that entry; a new entry answers exactly the queries Equals to the step; every other query reads as before |
| ConflictAvoidance.RemoveStepLookup | ConflictAvoidanceTable.cs:82 | after one step of RemovePlan the list of the entry the step finds loses one occurrence of the agent for every query finding that entry; every other query reads as before |
| ConflictAvoidance.AddStepFindsAgent | ConflictAvoidanceTable.cs:52-59 | after one step of AddPlan, the step reads its earlier list followed by the agent, or just the agent |
| ConflictAvoidance.AppendAgent | ConflictAvoidanceTable.cs:41-60 | AddPlan's loop over the steps: the table only gains entries and keeps its stored keys |
| ConflictAvoidance.RemoveAgent | ConflictAvoidanceTable.cs:71-84 | RemovePlan's loop over the steps: the table keeps its keys and gains none |
| ConflictAvoidance.AppendLookup | ConflictAvoidanceTable.cs:41-60 | after AddPlan's loop a query at the time of step i reads as if step i alone had been added, and a query at any other time reads as before |
| ConflictAvoidance.RemoveLookup | ConflictAvoidanceTable.cs:71-84 | after RemovePlan's loop a query at the time of step i reads as if step i alone had been removed, and a query at any other time reads as before |
| ConflictAvoidance.AgentListedAtEveryStep | ConflictAvoidanceTable.cs:41-60 | after AddPlan's loop every step of the plan reads its earlier list followed by the agent |
| ConflictAvoidance.AddThenRemoveRestoresAgents | ConflictAvoidanceTable.cs:38-90 | removing a plan right after adding it gives every step back its agents up to order; a key the plan created stays, with an empty list |
| ConflictAvoidance.LookupFindsNewestEqualKey | ConflictAvoidanceTable.cs:52-59 | a directionless query finds a key stored with a direction; of two Equals keys the newer answers, and the older directionless key answers the directions the newer does not match |
| ConflictAvoidance.AppendToStep | ConflictAvoidanceTable.cs:52-59 | the body of AddPlan's loop computes AddStep |
| ConflictAvoidance.RemoveFromStep | ConflictAvoidanceTable.cs:82 | the body of RemovePlan's loop computes RemoveStep |
| ConflictAvoidance.AppendSteps | ConflictAvoidanceTable.cs:41-60 | the loop of AddPlan computes AppendAgent over the plan's steps before its size |
| ConflictAvoidance.RemoveSteps | ConflictAvoidanceTable.cs:71-84 | the loop of RemovePlan computes RemoveAgent over the plan's steps before its size |
| ConflictAvoidance.ConflictAvoidanceTable.constructor | ConflictAvoidanceTable.cs:18-36 | both tables empty and NumPlans 0 |
| ConflictAvoidance.ConflictAvoidanceTable.Clear | ConflictAvoidanceTable.cs:31-36 | both tables empty and NumPlans 0 |
| ConflictAvoidance.ConflictAvoidanceTable.Get | ConflictAvoidanceTable.cs:99-127 | the agents of the stored key Equals to the query, followed by the agent waiting at that goal cell when the time is not before its arrival; empty when neither applies |
| ConflictAvoidance.ConflictAvoidanceTable.ContainsKey | ConflictAvoidanceTable.cs:143-156 | true exactly when some stored key is TimedMove.Equals to the query, or the query matches a goal wait at or after its arrival time |
| ConflictAvoidance.ConflictAvoidanceTable.TryGetValue | ConflictAvoidanceTable.cs:172-183 | a value exactly when ContainsKey holds, and then the indexer's list |
| ConflictAvoidance.ConflictAvoidanceTable.GetMaxPlanSize | ConflictAvoidanceTable.cs:23-29 | 0 for an empty goal table; otherwise one less than the latest recorded arrival time |
| ConflictAvoidance.ConflictAvoidanceTable.AddPlan | ConflictAvoidanceTable.cs:38-66 | the steps before the plan size added as AppendAgent does, the goal cell recorded with the plan size and the agent, NumPlans one higher, and every step then a key whose list holds the agent |
| ConflictAvoidance.ConflictAvoidanceTable.RemovePlan | ConflictAvoidanceTable.cs:68-90 | the steps before the plan size removed as RemoveAgent does, the goal cell's entry deleted, NumPlans one lower |
| ConflictAvoidance.GoalOccupiedAfterArrival | ConflictAvoidanceTable.cs:108-156 | after AddPlan, a wait or a directionless query on the goal cell at any time from the plan size on is a key and lists the agent |
| ConflictAvoidance.MovingIntoGoalIsNotMatched | ConflictAvoidanceTable.cs:108-154 | a query with a real direction never matches the stored goal wait, because Move.Equals compares the directions |
| ConflictAvoidance.AbsentKeyReadsEmpty | ConflictAvoidanceTable.cs:123-183 | an absent key reads as the empty list and TryGetValue gives nothing; a matched goal never reads empty |
| CbsConstraints.NewConstraint | CbsConstraint.cs:19-58 | the agent number is taken modulo 256 into a byte, the move is kept, and the constraint is not a query |
| CbsConstraints.Equals | CbsConstraint.cs:75-94 | never equal to null or across agents; a query matches by timed-move equality, so a vertex constraint matches a move from any direction; two ordinary constraints must be identical |
| CbsConstraints.DifferentAgentsNeverEqual | CbsConstraint.cs:80-81 | constraints of different agents are unequal both ways round |
| CbsConstraints.GetHashCode | CbsConstraint.cs:100-108 | the unchecked move hash * 3 + agentNum * 5, kept in 32 bits |
| CbsConstraints.EqualConstraintsHashEqually | CbsConstraint.cs:75-108 | equal constraints have the same hash, queries included |
| CbsConstraints.Allows | CbsConstraint.cs:128-135 | the constraint forbids the other exactly when the moves are equal and the agents are the same |
| CbsConstraints.CompareTo | CbsConstraint.cs:137-142 | -1, 0 or 1 as the time step is earlier, equal or later |
| CbsConstraints.ViolatesMustConstraint | CbsConstraint.cs:144-149 | other agents never violate it; its own agent violates it exactly with any move unequal to the constraint's |
| CostTree.Child | CostTreeNodeSolver.cs:122-124 | the copy of the costs with agent j's cost raised by an unchecked increment and every other cost kept |
| CostTree.ChildrenDistinct | CostTreeNodeSolver.cs:120-131 | the children for two different agents differ |
| CostTree.NewChildren | CostTreeNodeSolver.cs:120-131 | exactly the children not already in the closed list, each a child of some agent |
| CostTree.ChildSetMembers | CostTreeNodeSolver.cs:120-131 | the children for agents below k are exactly Child(node, j) for j < k |
| CostTree.NewChildrenUnique | CostTreeNodeSolver.cs:120-131 | no child is enqueued twice |
| CostTree.Expand | CostTreeNodeSolver.cs:118-131 | the closed list gains every child; the open list gains, in agent order, the children that were not closed |
| CostTree.ExpandChild | CostTreeNodeSolver.cs:122-130 | one iteration: child j joins the closed list, and the open list exactly when it was not closed before the expansion |
| CostTree.SumSplit | CostTreeNodeSolver.cs:133-141 | sums over adjacent ranges of agents add up |
| CostTree.Sum | CostTreeNodeSolver.cs:133-141 | the unchecked 32-bit sum of the costs of agents from..to-1; IndexOutOfRange when a non-empty range leaves the array |
| CostTree.GetHashCode | CostTreeNodeSolver.cs:143-154 | the weighted sum of the costs, with the hashing primes taken in turn, in unchecked 32-bit arithmetic |
| CostTree.WeightedSumChild | CostTreeNodeSolver.cs:120-154 | raising agent j's cost by one adds agent j's prime to the unwrapped hash |
| CostTree.Equals | CostTreeNodeSolver.cs:156-160 | SequenceEqual of the cost arrays holds exactly when the nodes are equal values, so the closed list holds each cost tuple once |
| CostTree.CheckedSum | CostTreeNodeSolver.cs:63 | LINQ's checked sum: the exact sum of the costs when no partial sum leaves 32 bits, Overflow otherwise |
| CostTree.MaxOf | CostTreeNodeSolver.cs:64 | LINQ's Max: InvalidOperation exactly on no costs, otherwise the largest cost |
| CostTree.SetupTotals | CostTreeNodeSolver.cs:60-64 | totalCost is the sum and maxCost the largest cost; no agents gives InvalidOperation, and a sum leaving 32 bits gives Overflow |
| CostTree.CheckedSumSmall | CostTreeNodeSolver.cs:63 | costs of at most 10000 each, for at most 10000 agents, never overflow the checked sum |
| Enumeration.ArrangementsAtLeastOne | EnumeratedPDB.cs:392-398 | with no more agents than free cells, every place value is at least 1 |
| Enumeration.ArrangementsBelowFirst | EnumeratedPDB.cs:392-398 | every place value is at most that of agent 0 |
| Enumeration.NextPermutationExact | EnumeratedPDB.cs:396-397 | without wrap-around, one step of the recurrence yields the number of arrangements of the later agents |
| Enumeration.Permutations | EnumeratedPDB.cs:392-398 | the last entry is 1 and each entry is the next times the cells left, in unchecked ulong; without wrap-around entry i counts the arrangements of agents after i |
| Enumeration.EnumeratedPdb.ComputePermutations | EnumeratedPDB.cs:392-398 | the pattern's place values, exact when no product wraps; IndexOutOfRange with no agents, the array then being empty |
| Enumeration.RelabelBounds | EnumeratedPDB.cs:316-326 | agent i's relabelled cardinality lies in 0..L-1-i |
| Enumeration.SuffixBound | EnumeratedPDB.cs:307-328 | the digits from agent i on stay below place value i times the cells left |
| Enumeration.HashInTable | EnumeratedPDB.cs:307-328 | the hash of every placement of the agents on distinct free cells indexes inside the table that build allocates |
| Enumeration.DigitsFromHash | EnumeratedPDB.cs:307-328 | equal hashes mean equal relabelled cardinalities |
| Enumeration.RelabelInjective | EnumeratedPDB.cs:316-325 | relabelling against a fixed set of taken cells is injective on the free cells |
| Enumeration.PlacementFromDigits | EnumeratedPDB.cs:307-328 | equal relabelled cardinalities mean equal placements |
| Enumeration.HashInjective | EnumeratedPDB.cs:295-332 | two placements with the same hash are the same placement |
| Enumeration.Pattern | EnumeratedPDB.cs:316 | the pattern agents' cardinalities, in pattern order |
| Enumeration.EnumeratedPdb.Hash | EnumeratedPDB.cs:295-332 | the mixed-radix number of the relabelled cardinalities, in unchecked uint arithmetic |
| Enumeration.CountPreceding | EnumeratedPDB.cs:320-326 | how many of the agents before position i have a smaller cardinality |
| Enumeration.EnumeratedPdb.EstimateSize | EnumeratedPDB.cs:138-142 | the table's bytes plus 8 bytes per place value, in unchecked ulong, exact when it fits |
| Enumeration.WrappedHash | EnumeratedPDB.cs:295-332 | when the table fits a uint index, the wrapped hash is the exact one, still inside the table and still injective |
| Enumeration.PlacementFits | EnumeratedPDB.cs:307-328 | agents on distinct free cells are no more than the free cells |
| Enumeration.DistinctCountIn | EnumeratedPDB.cs:316-325 | distinct cardinalities in a range number at most its width |
| Problems.FreeBeforeOrdered | ProblemInstance.cs:390-402 | a free cell's number is below the number of every later free cell in row-major order |
| Problems.FreeBeforeRange | ProblemInstance.cs:390-402 | a free cell's number lies below the number of free cells |
| Problems.FreePlusObstacles | ProblemInstance.cs:91-97 | the free cells plus the obstacles fill the rectangle |
| Problems.ProblemInstance.Init | ProblemInstance.cs:86-110 | obstacles and free locations are counted when given as -1 and cast to uint; the permutation table is computed as precomputePermutations does when not given, and the cardinality table as precomputeCardinality does |
| Problems.NumberFreeCells | ProblemInstance.cs:390-402 | free cells are numbered 0, 1, ... in row-major order and obstacles get -1 |
| Problems.NumberRow | ProblemInstance.cs:394-401 | one row gets its free cells' numbers, continuing from the free cells of the rows above, and no other row changes |
| Problems.ProblemInstance.IsValidTile | ProblemInstance.cs:462-469 | false off the grid; on the grid, true exactly when the cell is not an obstacle |
| Problems.ValidTileHasCardinality | ProblemInstance.cs:462-469 | a tile is valid exactly when it is on the grid and has a cardinality of 0 or more |
| Problems.CardinalityIsPerfect | ProblemInstance.cs:91-110 | free cells get distinct numbers below the number of free cells; that number is the rectangle less the obstacles, and so is the locations count init computes when the cell count fits a uint |
| MyExtensions.MaxKeyUpper | MyExtensions.cs:9-46 | no key exceeds the maximum key |
| MyExtensions.MaxKeyAttained | MyExtensions.cs:9-46 | some element has the maximum key |
| MyExtensions.KeepMembers | MyExtensions.cs:81-169 | the kept elements are exactly the elements whose key is the given value |
| MyExtensions.KeepIncreasing | MyExtensions.cs:81-126 | keeping from increasing indices gives increasing indices |
| MyExtensions.Iota | MyExtensions.cs:87-100 | the indices 0..n-1 in order |
| MyExtensions.AllMaxAsWrittenRepeatsFirst | MyExtensions.cs:91-98 | the loop as written reports a first element equal to default(int) twice, where the maximal elements are that one element once |
| MyExtensions.AllMaxBy | MyExtensions.cs:128-169 | with the second test as an else-if: nothing for an empty sequence, otherwise every element with the largest key, in order, and at least one |
| MyExtensions.AllMax | MyExtensions.cs:128-169 | empty exactly for an empty sequence; otherwise every element with the largest key, in order; its members are exactly the elements with no larger key |
| MyExtensions.IndicesOfMax | MyExtensions.cs:81-126 | empty exactly for an empty sequence; strictly increasing; exactly the indices whose key is the largest |
| MyExtensions.KeysOfMaxValue | MyExtensions.cs:171-190 | empty exactly for an empty dictionary; otherwise the keys of the pairs with the largest value, in enumeration order; exactly the keys whose value is the largest |
| MyExtensions.IndexOfMax | MyExtensions.cs:9-46 | 0 for an empty sequence; otherwise the first index holding the largest key |
| MyExtensions.MaxByKeyFunc | MyExtensions.cs:56-74 | default(T) (None) exactly for an empty sequence; otherwise the first element with the largest key |
| CbsNodes.MembersAre | CbsNode.cs:500-549 | the group list holds exactly the agents of the group, in increasing order |
| CbsNodes.Merged | CbsNode.cs:568-584 | the assignment keeps its length |
| CbsNodes.MergedProperties | CbsNode.cs:568-584 | after the merge both groups share the smaller number, other agents keep theirs, agents grouped together stay together, and merging again changes nothing |
| CbsNodes.CrossCountBounds | CbsNode.cs:509-517 | no crossing conflict counts 0, all crossing count every conflict, and one crossing conflict counts at least 1 |
| CbsNodes.RowSumAtLeast | CbsNode.cs:551-557 | with non-negative counters an agent's row sum is at least each of its entries |
| CbsNodes.PairSumAtLeast | CbsNode.cs:551-557 | with non-negative counters the cross sum is at least the counter of any single cross pair |
| CbsNodes.CrossSum | CbsNode.cs:551-557 | the sum of the global counters over every cross pair, in unchecked int arithmetic |
| CbsNodes.AddRow | CbsNode.cs:553-556 | the inner loop adds one agent's counters against the second group, wrapping as the running sum does |
| CbsNodes.SeenProperties | CbsNode.cs:330-337 | each group number is seen once, every used number is seen, and there are no more than agents |
| CbsNodes.NormalizedProperties | CbsNode.cs:319-341 | the new numbers run 0..k-1 for k groups, agents share a new number exactly when they shared an old one, and groups are numbered in order of first appearance |
| CbsNodes.TableStep | CbsNode.cs:330-337 | one more agent: a group seen before keeps its entry, a new one gets the next number |
| CbsNodes.NormalizedIsTable | CbsNode.cs:338-341 | the final pass reads each agent's new number from the table, and every new number is below the number of agents |
| CbsNodes.Renumbering | CbsNode.cs:321-337 | the renumbering table: each used group number maps to its position in order of first appearance, every other entry is -1 |
| CbsNodes.PathLengthAtLeastDepth | CbsNode.cs:609-619 | PathLength is never below the plan's GetSize - 1 |
| CbsNodes.CbsNode.constructor | CbsNode.cs:37-55 | no cost, conflicts or depth, and every agent in a group numbered by itself |
| CbsNodes.CbsNode.MergeGroups | CbsNode.cs:568-584 | the assignment becomes the merge of the two groups |
| CbsNodes.CbsNode.GroupsOf | CbsNode.cs:498-506 | the agents of the first and of the second conflicting group, in order |
| CbsNodes.CbsNode.MergeIf | CbsNode.cs:493-526 | merges exactly when 1 plus the ancestor conflicts between the two groups exceeds the threshold, and the assignment is then the merge of the two groups |
| CbsNodes.CbsNode.ancestorConflictPairs | CbsNode.cs:509-517 | the agents of each ancestor's conflict, parent first |
| CbsNodes.CbsNode.MergeIfGlobal | CbsNode.cs:536-566 | merges exactly when the wrapped sum of the global counters over the cross pairs exceeds the threshold, and the assignment is then the merge of the two groups |
| CbsNodes.CbsNode.NormalizeGroups | CbsNode.cs:319-341 | the groups are renumbered 0, 1, ... in order of first appearance |
| CbsNodes.CbsNode.CompareTo | CbsNode.cs:387-410 | -1 for lower cost, then fewer external conflicts, then a goal node, then a deeper node; 1 in the mirrored cases; 0 otherwise |
| CbsNodes.CbsNode.PathLength | CbsNode.cs:609-619 | the index after the last move that differs from the goal move, 0 when none does |
| CbsNodes.CbsNode.GetConstraints | CbsNode.cs:417-427 | exactly the constraints along the ancestor chain, at most one per level of depth |
| CbsNodes.CompareToShape | CbsNode.cs:387-410 | with two conflicts the order is antisymmetric, but a goal node compares below every node of equal cost and external conflicts, itself included |
| AStarMdds.ChoiceSumNonNegative | A_Star_MDDs.cs:423-455 | byte deltas never sum below 0 |
| AStarMdds.ExistsIffChoice | A_Star_MDDs.cs:423-455 | the recursion answers true exactly when agents from mddIndex on can each pick a child so that the deltas sum to the target |
| AStarMdds.ExistsBounded | A_Star_MDDs.cs:423-511 | a reachable target lies between 0 and the sum of the per-agent largest deltas |
| AStarMdds.RowMaxIsMax | A_Star_MDDs.cs:487-499 | the largest delta of an agent's children, -1 when there are none |
| AStarMdds.ToDeltas | A_Star_MDDs.cs:492-497 | each delta is the conflict count cast to a byte |
| AStarMdds.MaxDeltaIsSum | A_Star_MDDs.cs:477-511 | with no childless agent and no ushort overflow, maxDeltaConflictCount is the sum of the per-agent largest deltas, so every reachable target has a column in the lookup table |
| AStarMdds.MaxSumNonNegative | A_Star_MDDs.cs:477-511 | the sum of the per-agent maxima is not negative |
| AStarMdds.AsWrittenAgreesBelowByte | A_Star_MDDs.cs:441-449 | for every target below 256 the byte cast changes nothing |
| AStarMdds.ByteCastFalsePositive | A_Star_MDDs.cs:441-449 | four agents with a table of 411 columns: a target of 266 cannot be met, yet the recursion as written reports a child |
| AStarMdds.MddsNode.CalcSingleAgentDeltaConflictCounts | A_Star_MDDs.cs:465-511 | the deltas are the byte-cast counts, the maximum is the ushort sum of the per-agent maxima (0 after a childless agent), and the lookup table is one row of zeros per agent |
| AStarMdds.MddsNode.UpdateRemainingDeltaConflictCount | A_Star_MDDs.cs:404-415 | the chosen child's delta is spent when legal and within budget; otherwise the budget becomes ushort.MaxValue |
| AStarMdds.MddsNode.ExistsChildForConflictCount | A_Star_MDDs.cs:423-455 | with the byte cast dropped: true exactly when the remaining agents can pick children whose deltas sum to the target, and the lookup table stays sound |
| AStarMdds.MddsNode.Remember | A_Star_MDDs.cs:446-453 | one lookup write of a known answer, keeping every stored answer right |
| AStarMdds.MddsNode.CompareTo | A_Star_MDDs.cs:630-644 | -1 for fewer conflicts counting the target delta, then for greater depth; 0 only on equal counts and depth |
| AStarMdds.CompareToOrder | A_Star_MDDs.cs:630-644 | the node order is antisymmetric and transitive |
| AStarMdds.MaxDelta | A_Star_MDDs.cs:477-505 | the outer loop's ushort sum of per-agent maxima, reset to 0 at the first childless agent |
| AStarMdds.AgentMax | A_Star_MDDs.cs:481-497 | the inner loop's largest delta of one agent's children, -1 for none |
| AStarMdds.FirstEmptyStops | A_Star_MDDs.cs:499-503 | after a childless agent the maximum stays 0 |
| AStarMdds.ValueBelowCombinations | A_Star_MDDs.cs:706-722 | a combination of valid child indices has a mixed-radix value below the number of combinations |
| AStarMdds.Expander.constructor | A_Star_MDDs.cs:657-684 | every agent starts at its first child, or index 0 holds the end marker -1 when some agent has no child |
| AStarMdds.Expander.SetNextChildIndices | A_Star_MDDs.cs:706-722 | one odometer step on the digits up to agentNum |
| AStarMdds.Next | A_Star_MDDs.cs:706-722 | the step keeps its length and leaves the digits after agentNum alone |
| AStarMdds.NextIsSuccessor | A_Star_MDDs.cs:700-722 | the step adds one to the mixed-radix value of the digits; past the last combination every digit returns to 0 and index 0 becomes -1 |
| PartialExpansion.NegativeUnreachable | AStarWithPartialExpansion.cs:367-370 | a negative change in f is never reachable, so the early false is right |
| PartialExpansion.KeepsTransitive | AStarWithPartialExpansion.cs:379-414 | a table that kept everything of one that kept everything of a third keeps everything of the third |
| PartialExpansion.Widen | AStarWithPartialExpansion.cs:388-396 | the grown row holds the old entries and then unknowns |
| PartialExpansion.PeaSolver.ResetLookup | AStarWithPartialExpansion.cs:222 | each expansion starts with no table |
| PartialExpansion.PeaSolver.ExistingChildForF | AStarWithPartialExpansion.cs:362-415 | true exactly when agents from agent on can each pick an operator whose f changes sum to the target; the table stays sound and keeps every size and answer it had |
| PartialExpansion.PeaSolver.Prepare | AStarWithPartialExpansion.cs:379-396 | a missing table is created with rows of 1 + 2 * (number of agents) unknowns; the agent's row is grown to hold the target, old entries kept |
| PartialExpansion.PeaSolver.SearchChildren | AStarWithPartialExpansion.cs:403-414 | the loop over the agent's operators, for a target not yet known, gives Exists and records it |
| PartialExpansion.PeaSolver.Remember | AStarWithPartialExpansion.cs:409-413 | one table write of a correct answer keeps the table sound |
| WorldStates.GSumBounds | WorldState.cs:155-165 | with arrival times between 0 and the makespan, g lies between 0 and makespan per agent, and reaches the top exactly when every agent at its goal arrived at the last step |
| WorldStates.ValidStepAllPairs | WorldState.cs:214-230 | checking the pairs i < j is checking every pair of distinct agents for a shared cell or a swap |
| WorldStates.WorldState.CompareTo | WorldState.cs:125-149 | -1 exactly when this key comes first (f, then potential conflicts, then internal conflicts, then the larger g), 1 in the mirrored case, 0 exactly on equal keys |
| WorldStates.WorldState.CalculateG | WorldState.cs:155-165 | g becomes the sum of each agent's arrival time at its goal, or the makespan for an agent not at its goal, in 32-bit arithmetic |
| WorldStates.WorldState.IsValidSuccessor | WorldState.cs:214-230 | false for no state; otherwise true exactly when no two agents share a cell and no two swap cells |
| WorldStates.WorldState.GoalTest | WorldState.cs:118-123 | true exactly when the makespan reaches minDepth and h is 0 |
| WorldStates.WorldStateOrder | WorldState.cs:125-149 | the order is antisymmetric and transitive |
| DynamicArrays.Grow | DynamicArray.cs:31-39 | a write past the end leaves a slot for the index and keeps the old slots in front |
| DynamicArrays.ReadAfterWrite | DynamicArray.cs:19-44 | growing changes no reading, and a written value reads back while every other index keeps its reading |
| DynamicArrays.OccupiedUpdate | DynamicArray.cs:41-43 | one write changes the number of non-null slots by the slot's change |
| DynamicArrays.CountTracksOccupied | DynamicArray.cs:31-43 | without null writes, count stays the number of non-null slots |
| DynamicArrays.DynamicArray.constructor | DynamicArray.cs:13-17 | one null slot and a count of 0 |
| DynamicArrays.DynamicArray.Get | DynamicArray.cs:21-28 | the slot at the index, or null past the end |
| DynamicArrays.DynamicArray.Set | DynamicArray.cs:29-43 | the buffer grows past its end, the slot takes the value, and count rises by one exactly when the slot was null |
| DynamicArrays.Enlarge | DynamicArray.cs:33-38 | a fresh array holding the old slots followed by nulls |
| UnionDictionaries.RemoveFirst | Dictionary_U.cs:169-172 | List.Remove: one element fewer when the member is present, the list unchanged otherwise |
| UnionDictionaries.CombinedHas | Dictionary_U.cs:94-110 | a non-empty lookup implies some member has the key; the converse holds when no member stores an empty list |
| UnionDictionaries.JoinEffect | Dictionary_U.cs:160-163 | joining appends the new member's list to every lookup, adds its keys to ContainsKey and its key count to Count |
| UnionDictionaries.TotalCountAppend | Dictionary_U.cs:191-197 | Count splits over a concatenation of member lists |
| UnionDictionaries.SeparateCount | Dictionary_U.cs:169-172 | separating a joined member takes its key count off Count |
| UnionDictionaries.SeparateMembers | Dictionary_U.cs:169-172 | separating removes exactly one copy of the member and no other member |
| UnionDictionaries.JoinThenSeparate | Dictionary_U.cs:160-172 | separating a member just joined, and not joined before, restores the member list |
| UnionDictionaries.CountBoundsMembers | Dictionary_U.cs:191-197 | every member's key count is at most Count; keys shared by members are counted once per member |
| UnionDictionaries.EmptyListThrows | Dictionary_U.cs:119-129 | a member mapping a key to an empty list makes ContainsKey true while the combined list is empty |
| UnionDictionaries.DictionaryU.constructor | Dictionary_U.cs:21-24 | no members |
| UnionDictionaries.DictionaryU.Collect | Dictionary_U.cs:98-104 | the lists of the members holding the key, concatenated in join order |
| UnionDictionaries.DictionaryU.Get | Dictionary_U.cs:94-110 | the combined lists, or KeyNotFoundException exactly when they are empty |
| UnionDictionaries.DictionaryU.ContainsKey | Dictionary_U.cs:138-146 | true exactly when some member has the key |
| UnionDictionaries.DictionaryU.TryGetValueAsWritten | Dictionary_U.cs:119-129 | throws exactly when some member has the key and the combined list is empty; otherwise the combined list or null |
| UnionDictionaries.DictionaryU.TryGetValue | Dictionary_U.cs:119-129 | the combined list exactly when some member has the key, null otherwise, without throwing |
| UnionDictionaries.DictionaryU.Count | Dictionary_U.cs:191-197 | 0 with no members, and at least every member's key count |
| UnionDictionaries.DictionaryU.Join | Dictionary_U.cs:160-163 | the member is appended |
| UnionDictionaries.DictionaryU.Separate | Dictionary_U.cs:169-172 | the first occurrence of the member is removed |
| UnionDictionaries.DictionaryU.Clear | Dictionary_U.cs:151-154 | no members remain |
| KeyDefaultDicts.KeyDefaultDict.constructor | utils.py:4-6 | an empty dictionary holding the given default_factory |
| KeyDefaultDicts.KeyDefaultDict.Get | utils.py:7-12 | a present key's value without calling the factory; for a missing key KeyError without a factory, else the factory's value for that key, stored and returned; no key is ever built twice |
| KeyDefaultDicts.LookupTwice | bin/Debug/split_by_solution_depth.py:6-14 | two lookups of the same missing key return the same value and call the factory once |
| SplitByDepth.FirstDepthIsFirst | bin/Debug/split_by_solution_depth.py:32-38 | a row is routed by its first depth cell that is not -1, every cell before it being -1, and by -1 exactly when every cell is -1 |
| SplitByDepth.RowDepth | bin/Debug/split_by_solution_depth.py:32-38 | the inner loop with break and else computes that routing depth, or ValueError from the first cell int() rejects |
| SplitByDepth.FirstDepthError | bin/Debug/split_by_solution_depth.py:33 | the only failure of a row is the ValueError of int() |
| SplitByDepth.ExactlyOneOutput | bin/Debug/split_by_solution_depth.py:31-38 | every row is written to exactly one output, the one of its routing depth |
| SplitByDepth.RouteStep | bin/Debug/split_by_solution_depth.py:31-38 | writing the next row to its depth's output keeps every output holding exactly its rows, in order |
| SplitByDepth.Split | bin/Debug/split_by_solution_depth.py:28-38 | the outer loop fails with ValueError exactly when some row has a cell int() rejects, at the first such row; the rows before it stay written; each output lists, in input order, exactly the written rows of its depth |
| RuntimesAndSuccesses.StripInjective | bin/Debug/runtimes_and_successes.py:69-70 | two columns with the same suffix that strip to the same solver name are the same column |
| RuntimesAndSuccesses.SolversRunIff | bin/Debug/runtimes_and_successes.py:26-27 | a solver counts as run exactly when the row has its " Solution Cost" cell and that cell is not "irrelevant" |
| RuntimesAndSuccesses.AverageRuntimeExcluded | bin/Debug/runtimes_and_successes.py:55 | a column ending in "Average Runtime" is never read as a runtime |
| RuntimesAndSuccesses.Bump | bin/Debug/runtimes_and_successes.py:33-34 | Counter.update with a row's solvers adds one to exactly those solvers' entries for the row's number of agents |
| RuntimesAndSuccesses.TallyStep | bin/Debug/runtimes_and_successes.py:33-34 | after each row every Counter entry is the number of rows so far with that many agents that chose the solver |
| RuntimesAndSuccesses.SuccessesWithinRuns | bin/Debug/runtimes_and_successes.py:19-34 | successes never exceed runs when no row reports a success for a solver it did not run |
| RuntimesAndSuccesses.CountRunsAndSuccesses | bin/Debug/runtimes_and_successes.py:19-34 | the first pass fails exactly when some row fails to parse; otherwise it yields the run and success Counters of all rows |
| RuntimesAndSuccesses.ParseAllErrorStays | bin/Debug/runtimes_and_successes.py:24-32 | a row that fails to parse makes the whole pass fail |
| RuntimesAndSuccesses.SuccessRates | bin/Debug/runtimes_and_successes.py:36-40 | ZeroDivisionError exactly when a solver with a success has no run; otherwise a rate of successes over runs for exactly the solvers with a success |
| RuntimesAndSuccesses.RatesInUnitInterval | bin/Debug/runtimes_and_successes.py:36-40 | when no row reports a success for a solver it did not run, no rate divides by zero and every rate lies in (0, 1] |
| RuntimesAndSuccesses.SuccessWithoutRun | bin/Debug/runtimes_and_successes.py:26-29 | a row reporting a success for a solver whose cost is "irrelevant" leaves that solver with a success and no run |
| RuntimesAndSuccesses.FairIff | bin/Debug/runtimes_and_successes.py:63-80 | a row is used exactly when every run solver with a success rate above 0.1 solved it |
| RuntimesAndSuccesses.TimedRuntimes | bin/Debug/runtimes_and_successes.py:71-82 | as many runtimes are added for a key as there are fair rows that time the solver |
| RuntimesAndSuccesses.SumSnoc | bin/Debug/runtimes_and_successes.py:81 | summing the runtimes one more at a time |
| RuntimesAndSuccesses.StepAt | bin/Debug/runtimes_and_successes.py:78-82 | one more row changes a key's sum and count by exactly what that row adds for it |
| RuntimesAndSuccesses.AddRuntimes | bin/Debug/runtimes_and_successes.py:81 | Counter.update with the relevant runtimes adds each solver's runtime to its entry for the row's number of agents and leaves the other entries alone |
| RuntimesAndSuccesses.AccumulateStep | bin/Debug/runtimes_and_successes.py:81-82 | a fair row adds its relevant runtimes to the sums and one to each of their counts |
| RuntimesAndSuccesses.SkipStep | bin/Debug/runtimes_and_successes.py:78-80 | an unfair row changes neither Counter |
| RuntimesAndSuccesses.AddRow | bin/Debug/runtimes_and_successes.py:59-82 | one row of the second pass keeps the sums and counts equal to those of the fair rows so far |
| RuntimesAndSuccesses.FairRuntimes | bin/Debug/runtimes_and_successes.py:48-82 | the second pass fails exactly when some row fails to parse; otherwise every sum is the total of the solver's runtimes over the fair rows timing it, and every count is their number |
| RuntimesAndSuccesses.Average | bin/Debug/runtimes_and_successes.py:84-88 | missing data (None) exactly for a solver that was never averaged for that number of agents |
| RuntimesAndSuccesses.Averages | bin/Debug/runtimes_and_successes.py:84-88 | the average table holds sum over count for exactly the averaged keys |
| RuntimesAndSuccesses.TimedRuntimesBounded | bin/Debug/runtimes_and_successes.py:69-82 | every runtime added for a key is one of the rows' runtimes for that solver |
| RuntimesAndSuccesses.SumBounds | bin/Debug/runtimes_and_successes.py:81 | a sum of runtimes between two bounds lies between the bounds times their number |
| RuntimesAndSuccesses.AverageBounds | bin/Debug/runtimes_and_successes.py:84-88 | an average lies between the smallest and the largest runtime of the solver |

## Left out

- BinaryHeaps.BinaryHeap: the backing array is a sequence field of capacity length, reassigned whole; in-place writes into a shared array are not modelled.
- BinaryHeaps.BinaryHeap: null items are not modelled; only Remove(null) is, as an absent item.
- BinaryHeap.cs Copy, EnsureSort, Contains, CopyTo and GetFirst are not modelled: no other core operation depends on them.
- BinaryHeaps.BinaryHeap.RemoveItem: the branch for a negative index in the heap cannot be reached once the item is known to be in the heap, so it is left out.
- BinaryHeaps.BinaryHeap.Add: grows a full heap through the corrected Grow of the findings below, so it never throws; the source's doubling leaves a capacity of 0 at 0 and then writes outside the array.
- OpenLists.OpenList.RemoveItem: requires an item outside the queue to be located by the heap (its index -1, or the slot it names holding it). With a stale index the source removes whatever item occupies that slot, or fails outside the array; that case is not modelled. It also keeps the queue's order, as the corrected removal of the findings below does, where the loop as written reorders the queue.
- OpenLists.OpenList.RemoveFromQueue: follows the corrected, order-keeping removal of the findings below (TurnQueue), not the loop as written, which reorders the queue.
- OpenLists.OpenList.RemoveFromHeap: requires the heap to locate the item, so the removal of another item through a stale index is not modelled. An item the heap never held has the default index 0, and the source would then remove the root.
- OpenLists.OpenList: items are values compared structurally; the source compares queue items with their Equals and keeps references, so aliasing between items is not modelled.
- BinaryHeaps.BinaryHeap.Peek: an empty heap peeks None, standing for the null in slot 0; at capacity 0 the source's read of slot 0 throws IndexOutOfRangeException, which is not modelled.
- OpenList.cs uses a "removed from heap" index that BinaryHeap.cs does not define; the model uses -1 for it.
- Move.cs GetMoveWithoutDirection, RemoveDirection, setup and ToString only copy or clear fields, and TimedMove.cs GetMoveWithoutDirection and setup do the same; none of them is modelled.
- Plan.cs: the constructors that walk a search node's parent chain, the constructor from per-agent routes, Plan.ContinueWith, GetSinglePlans, the IsColliding checks and PrintPlan are not modelled. They need the search-state classes, or only print.
- Plans.SinglePlan.ContinueWith: a plan's steps are plain Moves, timed by their index. The source's plans can also hold TimedMoves (the routes built from agent states), and then the skip test dispatches to TimedMove.Equals, which also compares the times and throws InvalidCastException for a plain Move argument; that dispatch is not modelled.
- Plans.SinglePlan.Equals: a plan's steps are plain Moves, so SequenceEqual is Move.Equals step by step; with TimedMove steps the source compares their times too, or throws InvalidCastException when a TimedMove is compared with a plain Move, and neither is modelled.
- ConflictAvoidance.ConflictAvoidanceTable.AddPlan: a plan's steps are plain Moves, and step i is filed at time i. A TimedMove step is filed by the source at its own time and stored as the key itself, without a copy; neither its own time nor that aliasing is modelled.
- ConflictAvoidance.ConflictAvoidanceTable.RemovePlan: as for AddPlan, step i is looked up at time i; a TimedMove step's own time is not modelled.
- ConflictAvoidance.ConflictAvoidanceTable.RemovePlan: removing a plan that was never added makes the dictionary indexer throw; the model requires every step of the plan to be in the table instead.
- ConflictAvoidance.ConflictAvoidanceTable: the avoidance-goal setting is not modelled. The reuse of one query object as a scratch key is not modelled either: a key is stored as a value, as the source's copy of the scratch key makes it.
- ConflictAvoidance.Find: the step table is a sequence of entries in insertion order, and a lookup takes the newest entry whose key is TimedMove.Equals to the query. This is the order in which a .NET Dictionary searches the bucket that Equals keys share (their hash ignores the direction); hash collisions between keys that are not Equals change nothing and are not modelled.
- ConflictAvoidance.ConflictAvoidanceTable: the goal table is keyed by cell; every key the source puts there is a wait move, so a Move.Equals lookup matches exactly the wait and directionless queries on that cell.
- CbsConstraint.cs: the constructor from a conflict, the placeholder constructor, ToString and the trivial getters are not modelled. The first needs the conflict and problem classes.
- CostTreeNodeSolver.cs: Setup's construction of one MDD per agent, and the solving itself, are not modelled; the MDD class is not part of this model. Only the totals Setup computes are.
- Enumeration.EnumeratedPdb.EstimateSize: requires a non-empty permutation table; with an empty one the source's read of index 0 throws, which is not modelled.
- EnumeratedPDB.cs: the breadth-first build of the table, its file-backed queues and the heuristic lookup are not modelled. Only the hashing and the sizes are.
- Problems.ProblemInstance.Init: with no agents and no given permutation table, precomputePermutations writes outside its empty array and throws; the model requires at least one agent in that case. The unused permutation counter computed after the table is not modelled.
- ProblemInstance.cs: the agent states, the single-agent shortest paths, subproblem creation, file import and export, and the obstacle count's checked sum are not modelled; the grid is given as a rectangle.
- MyExtensions: CompareTo is modelled as integer comparison of a key; an overload without a mapping uses the element as its own key. Generic IComparable orders are not modelled.
- MyExtensions.AllMax, MyExtensions.IndicesOfMax, MyExtensions.KeysOfMaxValue: these follow the corrected loop of the findings below, not the loop as written.
- ConflictGraphs.ConflictGraph.ApproximateMinimumVertexCover, ConflictGraphs.ConflictGraph.MinimumVertexCover and the cover lemmas of BoolMatrix and ConflictGraphs require a loopless matrix. The source's Add accepts an agent paired with itself, but the cover search is not modelled for such a loop.
- CbsNodes.CbsNode.PathLength: requires a non-empty plan; the source reads the last move of the plan, so an empty one throws, which is not modelled.
- CbsNodes.CbsNode: the chain of parent nodes is a sequence of the ancestors' constraints and conflicts, and plans are route sequences. Solving, replanning, conflict finding, hashing and printing are not modelled.
- CbsNodes.CbsNode.constructor: the ushort loop counter never reaches 65536, so the model requires fewer agents than that.
- CbsNodes.CbsNode.NormalizeGroups: the short group counter would wrap past 32767 groups, so the model requires fewer agents than that. It also requires group numbers below the number of agents, which every assignment MergeGroups produces.
- CbsNodes.CbsNode.MergeIfGlobal: the model requires the two conflicting agents to be in different groups; with one group, the counter table would be read on its diagonal, outside the triangular rows.
- AStarMdds: MDD nodes are reduced to their children counts and the children's conflict counts. Node creation, the heuristic, the search loop and GetNextChild's construction of child nodes are not modelled; MDD.cs is not part of this model.
- AStarMdds.MddsNode.ExistsChildForConflictCount: the target is passed unwrapped, following the corrected recursion of the findings below. ExistsAsWritten models the byte cast as written.
- AStarMdds.MddsNode.UpdateRemainingDeltaConflictCount: Trace.Assert on a budget already at ushort.MaxValue is a precondition.
- AStarMdds.Expander.SetNextChildIndices: with no agents, writing index 0 throws; the model requires at least one agent.
- PartialExpansion: only the memoised child test and its table are modelled. The operator tables come from WorldStateForPartialExpansion, which is not part of this model, and the rest of the PEA* expansion is left out.
- WorldStates.WorldState.CompareTo: h + g is compared without 32-bit wrap-around; f values in a search stay far below it.
- WorldState.cs: successor generation, hashing, equality and the parent chain are not modelled; agent states carry only their cell, whether they are at their goal, and the arrival time.
- DynamicArrays.DynamicArray: indices are natural numbers, so a negative index, which throws in the source, is not modelled. clear() sets the array to null, after which every access throws; it is not modelled. getLength and getCount read buffer.Length and count directly.
- UnionDictionaries.DictionaryU: members are map values, so Separate removes the first member equal in contents, where List.Remove compares dictionary references. The source holds references to the member dictionaries, so a later change made by a member's owner shows through the union; the model's members are snapshots taken at Join, and such changes are not modelled.
- UnionDictionaries.DictionaryU.Count: a natural number; the source's LINQ Sum is checked and throws OverflowException past int.MaxValue, which is not modelled.
- UnionDictionaries.DictionaryU.TryGetValue: follows the corrected method of the findings below and never throws; the source throws KeyNotFoundException when some member has the key with an empty list. TryGetValueAsWritten models the source. The enumerators, Keys, Values and Print (which only writes to the console) are not modelled. A null key, which throws ArgumentNullException, has no counterpart.
- KeyDefaultDicts.KeyDefaultDict: only the mapping behaviour of __missing__ is modelled; the rest of dict and defaultdict (iteration, deletion, copying) is not.
- SplitByDepth: the CSV reading, the selection of the " Solution Depth" columns (rows are given as their cells in those columns) and the file writing, represented by the row indices each output receives, are not modelled; int() is a parameter.
- RuntimesAndSuccesses.FairRuntimes: requires every runtime column to end in " Runtime". A column ending in "Runtime" without the space can strip to the same solver name as another, and which value wins then depends on Python 2's dict order, which is not modelled.
- RuntimesAndSuccesses.CountRunsAndSuccesses: the solvers of a row are a set, so two success columns that strip to the same name count once, where the first pass's list would count them twice.
- RuntimesAndSuccesses: floats are reals, so rounding is not modelled. int() and float() are the parameters parseInt and parseReal. The input files are one concatenated sequence of records, each with its file's header. The printing, the sorting for print and the plotting after line 88 are not modelled. A row is a map from the columns it has: csv.DictReader gives the missing cells of a short row the value None, on which int() and float() raise TypeError and which the run test counts as run; that case is not modelled.

## Findings

| source | as written | input that shows it | evidently intended | confidence | as-written member | corrected member |
|---|---|---|---|---|---|---|
| MyExtensions.cs:91-98 | the test for a key equal to the running maximum (here and in the loops at lines 115-122, 137-144, 159-166 and 180-187) is a separate `if` using the comparison computed before the maximum was replaced, so a first element whose key equals default(int) is added twice | IndicesOfMax of [0]: the answer is [0, 0] | the second test is an `else if`: every index of a maximum, once each, in order | not executed | MyExtensions.AllMaxAsWritten, MyExtensions.AllMaxAsWrittenRepeatsFirst | MyExtensions.AllMaxBy |
| A_Star_MDDs.cs:441-449 | the remaining target is cast to `byte` before the recursive call, although it is a ushort and the lookup table is as wide as maxDeltaConflictCount + 1 | four agents with child deltas [0], [10], [0, 200], [0, 200] and target 266: no choice sums to 266, but the cast turns 266 into 10 and a child is reported | the remaining target is passed unwrapped | not executed | AStarMdds.ExistsAsWritten, AStarMdds.ByteCastFalsePositive | AStarMdds.MddsNode.ExistsChildForConflictCount |
| OpenList.cs:133-147 | the loop that removes an item from the queue is bounded by the current queue count, which drops once the item is dequeued, so the last item is never rotated back | removing the front of the queue [a, b, c] leaves [c, b] | the documented order-keeping removal: [b, c] | not executed | OpenLists.QueueRemoveAsWritten, OpenLists.QueueRemoveAsWrittenReorders | OpenLists.TurnQueue, OpenLists.OpenList.RemoveFromQueue |
| BinaryHeap.cs:84-89 | Add grows a full heap with `Capacity *= 2` through the Capacity setter of lines 35-48, which leaves a capacity of 0 at 0 | setting Capacity to 0 on an empty heap and then calling Add: the count equals the capacity, doubling keeps it 0, and the write to slot 0 falls outside the array | growing always leaves room for the new item | not executed | BinaryHeaps.GrowAsWritten, BinaryHeaps.GrowFromZeroLeavesNoRoom | BinaryHeaps.Grow |
| Dictionary_U.cs:119-129 | TryGetValue tests ContainsKey and then reads the indexer, which throws KeyNotFoundException when the combined list is empty | one member dictionary mapping key 0 to an empty list: ContainsKey(0) holds, and TryGetValue(0) throws | a Try method never throws: it returns the combined list, empty here, when some member has the key (the doc comment's "or null if none are found" also allows reporting false with null for an empty combined list; the model takes the reading that matches ContainsKey) | not executed | UnionDictionaries.DictionaryU.TryGetValueAsWritten, UnionDictionaries.EmptyListThrows | UnionDictionaries.DictionaryU.TryGetValue |
| TimedMove.cs:66-76 | isColliding at equal times returns `base.Equals(other)`, though its comment promises head-on collisions and moves into the same cell | at time 1, a move south into (1, 0) and a move north into (0, 0) swap cells head-on, and a move north into (0, 0) and a move east into (0, 0) share a cell; isColliding reports neither | `base.isColliding(other)`: a shared target cell or a head-on swap | not executed | TimedMoves.IsColliding, TimedMoves.TimedHeadOnMissed | TimedMoves.IsCollidingAsDocumented |
