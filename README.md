# Algorithm visualizer engines in Dafny

This project models the step engines of an interactive algorithm visualizer. The visualizer turns classic algorithms into a cancellable, narrated sequence of states that are shown one after another. The model covers:

- **Sorting engine** (`lib/algorithms.tsx`): the nine sorts as in-place algorithms on an `array<int>`, with their comparison, swap and per-index access tallies. Cancellation is a flag read at the points where the source reads it. A run that completes leaves the array sorted and a permutation of its input. A cancelled run keeps exactly the facts the source keeps.
- **Graph engine** (`hooks/useGraph.ts`): the graph editor operations; BFS, DFS, topological sort, Kruskal, Prim and Kosaraju's strongly connected components; and the animation loop that shows their recorded lists one entry at a time.
- **Pathfinding engine** (`hooks/usePathfinding.ts`): the wall/start/finish grid; BFS, DFS, Dijkstra and A* with their visit orders and parent links; and the walk back from the finish that yields the shortest-path trace.
- **Backtracking engine** (`hooks/useBacktracking.ts`): N-Queens, Sudoku, maze solving, Knight's Tour and Subset Sum, each building its recursion tree and step list eagerly, plus the replay cursor that steps through them on a timer.
- **Sorting page** (`hooks/useAlgorithmVisualizer.ts`) and **array generators** (`lib/challenges.ts`, `lib/algorithms.tsx`): the state the sorting page keeps around a run and a race, and the input arrays the generators produce.

Each module is named after the part of the source it models. State the source changes in place is a `class` whose methods carry `modifies` clauses and state their whole new state. Pure computations are functions, with lemmas relating them to an independent definition. Randomness (`Math.random`) is a parameter: a function from the draw's number to a value in `[0, 1)`, passed in by the caller. Timers, sound and rendering are left out.

## Model

| member | source | states |
|---|---|---|
| SortCore.Start | lib/algorithms.tsx:37-41 | a sort starts on a copy of the input with zero comparisons, swaps and reads of the flag, one zero tally per index, and the input on display |
| SortCore.Poll | lib/algorithms.tsx:71-74 | one read of the cancel flag: the run counts as cancelled exactly when this read comes at or after the moment the flag was set |
| SortCore.InversionsSwapAdjacent | lib/algorithms.tsx:99-120 | exchanging an inverted adjacent pair removes exactly one inversion |
| SimpleSorts.CompareExchangeInversions | lib/algorithms.tsx:99-120 | one bubble step removes exactly the inversion it repairs, and none when the pair is in order |
| SimpleSorts.PassQuietIffSorted | lib/algorithms.tsx:82-128 | the steps of a pass exchange nothing exactly when the part they cover is already ascending |
| SimpleSorts.PassSettles | lib/algorithms.tsx:82-128 | a completed pass carries the largest unsettled value to the end, settling one more place |
| SimpleSorts.BubbleStep | lib/algorithms.tsx:90-127 | one comparison is counted; arr[j] and arr[j+1] are exchanged, shown and counted as a swap exactly when arr[j] > arr[j+1] |
| SimpleSorts.BubblePass | lib/algorithms.tsx:82-128 | pass i makes n-i-1 compare-exchange steps unless the flag stops it, one comparison each, and reports a swap exactly when one of them exchanged |
| SimpleSorts.BubbleRound | lib/algorithms.tsx:82-128 | a completed pass settles one more place at the end; it swaps nothing exactly when the unsettled part was ascending, and then the whole array is sorted |
| SimpleSorts.BubbleSort | lib/algorithms.tsx:70-133 | the result is a permutation of the input and is what the display shows; run to the end it is sorted and the swaps equal the inversions of the input; a sorted input costs n-1 comparisons and no swap; cancelled, it stops at the first read that sees the flag |
| SimpleSorts.FindMin | lib/algorithms.tsx:214-248 | the scan of pass i ends on the first occurrence of the minimum of arr[i..] after n-i-1 comparisons |
| SimpleSorts.SelectSwap | lib/algorithms.tsx:251-270 | the first minimum trades places with arr[i], settling one more place, with one swap counted |
| SimpleSorts.SelectionRound | lib/algorithms.tsx:201-272 | a completed pass grows the sorted prefix by one; a pass stopped by the flag leaves the array alone; at most one swap per pass |
| SimpleSorts.SelectionComparisonsTotal | lib/algorithms.tsx:200-272 | the passes of selection sort compare n(n-1)/2 pairs in all |
| SimpleSorts.SelectionSort | lib/algorithms.tsx:200-272 | the result is a permutation of the input on display; run to the end it is sorted after exactly n(n-1)/2 comparisons and fewer than n swaps; a sorted input is never swapped |
| SimpleSorts.InsertedPermutes | lib/algorithms.tsx:358-407 | moving arr[i] to the hole and the values between one place right keeps the multiset |
| SimpleSorts.InsertedSorted | lib/algorithms.tsx:358-407 | inserting arr[i] after the last value of the ascending prefix not greater than it extends the ascending prefix by one |
| SimpleSorts.MakeRoom | lib/algorithms.tsx:368-394 | every value before i greater than the held one is copied one place right, each counted as a comparison and a swap, until a smaller or equal one or the flag |
| SimpleSorts.ShiftRight | lib/algorithms.tsx:368-398 | completed, arr[i] moves to the hole and every value it passed is greater; stopped by the flag inside the shift, the array is left with the held value missing and its neighbour doubled |
| SimpleSorts.InsertionRound | lib/algorithms.tsx:358-407 | a completed pass extends the ascending prefix by one and keeps the multiset; an entry already in order moves nothing and counts nothing |
| SimpleSorts.InsertionSort | lib/algorithms.tsx:352-408 | run to the end the result is sorted and a permutation of the input on display; comparisons equal shifts; a sorted input is left as it is |
| SimpleSorts.ShiftLosesValue | lib/algorithms.tsx:368-398 | stopping the shift of 1 past [2, 3] after its one copy leaves [2, 3, 3] on display, which is not a rearrangement of [2, 3, 1] |
| SimpleSorts.InsertionCancelShown | lib/algorithms.tsx:352-408 | insertion sort of [2, 3, 1] whose fourth read of the flag is the first to see it set stops cancelled with [2, 3, 3] on display, not a rearrangement of the input |
| SimpleSorts.ShiftRestored | lib/algorithms.tsx:368-398 | writing the held value into the hole before giving up, at any point of the shift, leaves a rearrangement of the array the pass started from |
| QuickSort.PartitionScan | lib/algorithms.tsx:496-549 | the scan only rearranges [low, high], keeps the pivot at high, and keeps everything at most the pivot before i+1 and everything above it from i+1 to j |
| QuickSort.Partition | lib/algorithms.tsx:481-573 | unless the flag stops it, the pivot arr[high] ends at p with [low, p) at most it and (p, high] above it; the range is only rearranged; a partition entered after the flag writes nothing |
| QuickSort.AfterScan | lib/algorithms.tsx:551-572 | after a full scan, the flag is read once more; unless it is set the pivot goes to i+1 |
| QuickSort.PlacePivot | lib/algorithms.tsx:552-572 | the exchange of arr[i+1] with the pivot puts the pivot between the two sides |
| QuickSort.SortRange | lib/algorithms.tsx:575-591 | only [low, high] is rearranged; unless the flag was seen it ends ascending; once the flag was seen nothing more is written |
| QuickSort.SortSides | lib/algorithms.tsx:587-588 | the two recursive calls around a placed pivot rearrange the range and, unless the flag was seen, sort it |
| QuickSort.Sort | lib/algorithms.tsx:429-606 | the result is a permutation of the input on display, and sorted unless the flag was seen |
| MergeSort.MergedPermutes | lib/algorithms.tsx:669-762 | the merge of two halves holds exactly their values |
| MergeSort.MergedSorted | lib/algorithms.tsx:669-762 | merging two ascending halves gives an ascending sequence |
| MergeSort.MergedTakeLeft | lib/algorithms.tsx:719-724 | the merge takes the left head when it is at most the right head, so ties come from the left half |
| MergeSort.MergeFront | lib/algorithms.tsx:690-724 | the main loop writes the beginning of the stable merge, one comparison and one write per step, and stops when a half is used up or the flag is seen |
| MergeSort.Drain | lib/algorithms.tsx:725-761 | the copy loop writes the rest of the half with values left, completing the merge unless the flag is seen |
| MergeSort.WriteBack | lib/algorithms.tsx:696-761 | run to the end [left, right] holds the stable merge, one swap per write, and at least as many comparisons as the shorter half has values |
| MergeSort.Merge | lib/algorithms.tsx:669-762 | run to the end [left, right] holds the stable merge of the two halves; nothing outside the range changes; a merge entered after the flag writes nothing |
| MergeSort.SortRange | lib/algorithms.tsx:792-802 | only [left, right] is written and, unless the flag was seen, it ends as an ascending rearrangement of what it held |
| MergeSort.Sort | lib/algorithms.tsx:617-812 | the result is as long as the input and on display; unless the flag was seen it is an ascending rearrangement of the input |
| HeapSort.RootIsMax | lib/algorithms.tsx:1000-1028 | the root of a max-heap is its largest value |
| HeapSort.Largest | lib/algorithms.tsx:881-954 | largest is i or one of its children inside [0, n), strictly larger children replacing it left first, and no child exceeds it |
| HeapSort.Heapify | lib/algorithms.tsx:880-991 | heapify only rearranges [i, n) and, unless the flag is seen, repairs a heap broken at i |
| HeapSort.BuildHeap | lib/algorithms.tsx:990-997 | the build loop from floor(n/2)-1 down to 0 only rearranges the array and, run to the end, leaves a max-heap |
| HeapSort.ExtractRound | lib/algorithms.tsx:1000-1028 | moving the root to position i grows the sorted suffix by one, and the prefix is a heap again unless the flag is seen |
| HeapSort.ExtractAll | lib/algorithms.tsx:1000-1028 | the extraction loop only rearranges the array and, run to the end, leaves it sorted |
| HeapSort.Sort | lib/algorithms.tsx:828-1039 | the result is a permutation of the input even when stopped, it is on display, and it is sorted unless the flag was seen |
| Distribution.CountKeys | lib/algorithms.tsx:1137-1159 | run to the end, counter k holds the number of entries whose key is k |
| Distribution.PrefixSums | lib/algorithms.tsx:1161-1166 | after `count[i] += count[i - 1]`, counter k holds the number of keys up to k, the end of group k |
| Distribution.PlacingStep | lib/algorithms.tsx:1180-1205 | placing entry i with key k lowers counter k by one and puts the entry at the last free slot of its group |
| Distribution.Place | lib/algorithms.tsx:1168-1208 | placing right to left fills the output with the groups in key order, each group in input order, one swap per entry |
| Distribution.CopyBack | lib/algorithms.tsx:1210-1214 | the array becomes what the output holds |
| Distribution.GroupedByValueSorted | lib/algorithms.tsx:1168-1208 | when every key is the value itself, the groups laid out in key order are ascending |
| CountingSort.FindMax | lib/algorithms.tsx:1099-1131 | run to the end, the scan finds the maximum after n-1 comparisons |
| CountingSort.Sort | lib/algorithms.tsx:1049-1225 | run to the end, the result is the input in ascending order and on display, after n-1 comparisons and n placements counted as swaps; cancelled, the input is returned as it was |
| RadixSort.ScanMax | lib/algorithms.tsx:1285-1293 | the scan finds the maximum with one comparison per entry after the first |
| RadixSort.PassSorts | lib/algorithms.tsx:1308-1391 | a stable pass on the digit at place value p turns order modulo p into order modulo 10p |
| RadixSort.Pass | lib/algorithms.tsx:1308-1391 | one digit pass keeps the multiset; run to the end it turns order modulo p into order modulo 10p, with one swap per entry |
| RadixSort.Round | lib/algorithms.tsx:1302-1394 | after the pass on digit d the array is ascending modulo 10^(d+1) |
| RadixSort.Sort | lib/algorithms.tsx:1236-1405 | the result is always a permutation of the input; run to the end it is sorted and on display, after n-1 comparisons and n swaps per decimal digit of the maximum |
| BucketSort.BucketInRange | lib/algorithms.tsx:1502-1523 | every value between min and max gets a bucket number in [0, bucketCount) |
| BucketSort.BucketMonotone | lib/algorithms.tsx:1502-1523 | a larger value never gets a smaller bucket number |
| BucketSort.Range | lib/algorithms.tsx:1466-1499 | run to the end, the scan finds min and max with two comparisons per entry after the first |
| BucketSort.Distribute | lib/algorithms.tsx:1501-1536 | run to the end, bucket k holds exactly the entries whose bucket number is k, in input order |
| BucketSort.InsertInBucket | lib/algorithms.tsx:1552-1579 | one insertion step in a bucket moves entry j to its hole past greater values, counting one comparison more than shifts |
| BucketSort.InsertStep | lib/algorithms.tsx:1553-1594 | a completed step extends the ascending prefix of the bucket and shows the buckets flattened over the working array |
| BucketSort.SortBucket | lib/algorithms.tsx:1547-1598 | completed, the bucket is an ascending rearrangement of what it held; a bucket of fewer than two entries is left alone |
| BucketSort.SortOne | lib/algorithms.tsx:1539-1602 | completed, bucket i is an ascending rearrangement of what it held and no other bucket changed |
| BucketSort.SortBuckets | lib/algorithms.tsx:1538-1603 | completed, every bucket is an ascending rearrangement of what it held |
| BucketSort.FlattenSorted | lib/algorithms.tsx:1605-1642 | ascending buckets that are in order among themselves flatten to an ascending sequence |
| BucketSort.CopyBucket | lib/algorithms.tsx:1615-1640 | writing back one bucket leaves the buckets flattened so far followed by what the array held from there on |
| BucketSort.Concatenate | lib/algorithms.tsx:1605-1642 | completed, the array is the buckets flattened and on display; stopped, a prefix has been written over and the rest is as it was |
| BucketSort.Gather | lib/algorithms.tsx:1466-1536 | completed, the buckets hold the entries by bucket number in input order, and the array is untouched |
| BucketSort.Sort | lib/algorithms.tsx:1408-1653 | run to the end, the result is the input in ascending order and on display; stopped, the result is the input with a prefix overwritten by values drawn from it |
| GraphCore.Adjacent | hooks/useGraph.ts:505-512 | the neighbour list has at most one entry per edge |
| GraphCore.AdjacentLinked | hooks/useGraph.ts:505-512 | v is a neighbour of u exactly when some edge leads from u to v, or, undirected, from v to u |
| GraphCore.AdjacentInEndpoints | hooks/useGraph.ts:505-512 | every neighbour is an id some edge names |
| GraphCore.ReachTrans | hooks/useGraph.ts:488-523 | reachability along the neighbour lists is transitive |
| GraphCore.ReachAlong | hooks/useGraph.ts:505-512 | in an undirected graph the two ends of an edge reach each other |
| GraphCore.ClosedHoldsReachable | hooks/useGraph.ts:488-523 | a set holding the start and closed under neighbours holds every node reachable from the start |
| GraphCore.AcyclicSnoc | hooks/useGraph.ts:655-663 | an edge between two nodes the tree does not yet connect keeps it free of cycles |
| GraphEdit.AddEdge | hooks/useGraph.ts:71-89 | when the two nodes are already linked (either way round in an undirected graph) nothing changes; otherwise exactly one edge `edge-<counter>` with the given ends and weight is appended, the nodes stay and the counter moves on by one |
| GraphEdit.RemoveNode | hooks/useGraph.ts:92-103 | the node list loses exactly that id and the edge list loses exactly the edges touching it |
| GraphEdit.RemoveEdge | hooks/useGraph.ts:106-110 | the nodes stay and the edge list loses exactly the edges with that id |
| GraphEdit.AddEdgeLinks | hooks/useGraph.ts:71-89 | after adding, the two nodes are linked whether or not an edge was appended |
| GraphEdit.AddEdgeIdempotent | hooks/useGraph.ts:71-89 | adding the same edge a second time changes nothing |
| GraphEdit.AddEdgeDirectedReverse | hooks/useGraph.ts:73-77 | in a directed graph, adding u -> v does not link v -> u, so the reverse edge can still be added |
| GraphEdit.AddEdgeWellFormed | hooks/useGraph.ts:71-89 | an edge between existing nodes keeps every edge between existing nodes |
| GraphEdit.RemoveNodeWellFormed | hooks/useGraph.ts:92-103 | the cascade leaves no edge naming a node that is gone |
| GraphEdit.RemoveAddedEdge | hooks/useGraph.ts:71-110 | removing a freshly added edge by its id gives back the graph it was added to |
| GraphEdit.RemoveAbsentNode | hooks/useGraph.ts:92-103 | removing an id that no node has and no edge names changes nothing |
| GraphSearch.Enqueue | hooks/useGraph.ts:514-519 | every neighbour ends up visited; the queue grows by exactly the neighbours that were not yet visited, in order; everything visited stays reachable |
| GraphSearch.Dequeue | hooks/useGraph.ts:500-520 | one turn keeps the search invariant and either visits more of the graph or shortens the queue |
| GraphSearch.Bfs | hooks/useGraph.ts:488-523 | the order starts with the start node, has no repeats and holds exactly the nodes reachable from it |
| GraphSearch.DfsVisit | hooks/useGraph.ts:534-550 | the visited node is listed at the old end of the list, what was listed keeps its place, and every listed node has its neighbours visited |
| GraphSearch.DfsNeighbours | hooks/useGraph.ts:546-550 | afterwards every neighbour is visited and the visit state has only grown |
| GraphSearch.Dfs | hooks/useGraph.ts:526-555 | the preorder starts with the start node, has no repeats and holds exactly the nodes reachable from it |
| GraphTopo.Visit | hooks/useGraph.ts:563-595 | false only when the graph has a cycle; on true the node has finished, the finished nodes are in order, the result is their reverse, and the set of nodes on the current descent is as before |
| GraphTopo.VisitTargets | hooks/useGraph.ts:577-586 | false only when the graph has a cycle; on true every target has finished |
| GraphTopo.TopologicalSort | hooks/useGraph.ts:557-608 | either the empty list and the graph has a cycle, or every node exactly once with every edge pointing forwards; on a graph whose edges join its own nodes, a cycle always gives the empty list |
| GraphTopo.OrderedNoCycle | hooks/useGraph.ts:557-608 | a list holding every edge's ends with every edge pointing forwards rules out a cycle, so an ordering and a reported cycle exclude each other |
| GraphTopo.WalkForwards | hooks/useGraph.ts:557-608 | in such a list, the last node of a walk of one or more edges comes after its first |
| GraphTopo.CycleFound | hooks/useGraph.ts:564-567 | stepping onto a node still on the current descent closes a cycle |
| GraphKruskal.MakeSets | hooks/useGraph.ts:622-625 | every node is a root of rank 0 alone in its set |
| GraphKruskal.Find | hooks/useGraph.ts:628-633 | returns the root of x; the sets, ranks and roots are unchanged and x is then a child of its root |
| GraphKruskal.Union | hooks/useGraph.ts:636-650 | with one root, only path compression; otherwise the lower-ranked root goes under the other (on a tie y's root under x's, whose rank rises by one), the two sets merge and there is one root fewer |
| GraphKruskal.Consider | hooks/useGraph.ts:655-663 | an edge is taken exactly when its ends lie in different sets, which is exactly when the taken edges do not yet connect them; every set stays connected by taken edges inside it |
| GraphKruskal.KeptAtEnd | hooks/useGraph.ts:655-666 | the taken edges come from the graph in non-decreasing weight, have no cycle, connect the ends of every graph edge through taken edges no heavier than it, and number fewer than the nodes |
| GraphKruskal.Kruskal | hooks/useGraph.ts:611-667 | no edges for a graph without nodes; otherwise a spanning forest of graph edges in non-decreasing weight order with fewer edges than nodes, and a minimum one: the ends of every graph edge are joined by tree edges no heavier than that edge (the cycle property) |
| GraphPrim.CandidatesMembers | hooks/useGraph.ts:687-699 | the pushed edges are exactly the graph edges leaving the node towards an unvisited one |
| GraphPrim.PushCandidates | hooks/useGraph.ts:720-734 | the queue grows by exactly the edges leaving the node, in edge order |
| GraphPrim.Lightest | hooks/useGraph.ts:700-705 | the head of the sorted queue is no heavier than any edge leaving the visited nodes |
| GraphPrim.PrimStep | hooks/useGraph.ts:705-738 | a head with both ends visited is dropped and nothing else changes; otherwise it is the lightest edge leaving the visited nodes, it joins the tree and one node more is visited |
| GraphPrim.Prim | hooks/useGraph.ts:669-741 | the tree edges come from the graph, have no cycle, number fewer than the nodes, are connected to the start, and reach every node reachable from the start |
| GraphScc.TransposedAdjacent | hooks/useGraph.ts:773-775 | v is a backward neighbour of u exactly when an edge leads from v to u |
| GraphScc.FillOrder | hooks/useGraph.ts:750-765 | the node is marked and pushed last, after everything its visit marked |
| GraphScc.DfsUtil | hooks/useGraph.ts:768-782 | the node joins the component first, and every node claimed reaches the component's root |
| GraphScc.Claim | hooks/useGraph.ts:796-810 | a new component starting at the popped node is appended to the result in the order its nodes were added |
| GraphScc.FindScc | hooks/useGraph.ts:744-813 | the result is the components one after another, with no repeats, every node in one of them and every member of a component reaching its first node |
| GraphAnimation.Percent | hooks/useGraph.ts:360 | a share of the steps is at most 100 percent and all of them are exactly 100 |
| GraphAnimation.PercentIsFloor | hooks/useGraph.ts:360 | the percentage is the floor of step * 100 / total |
| GraphAnimation.PercentMono | hooks/useGraph.ts:360 | more steps done never show less progress |
| GraphAnimation.Animation.constructor | hooks/useGraph.ts:234-283 | a new run starts with every list empty, no progress, running and not cancelled |
| GraphAnimation.Animation.Tick | hooks/useGraph.ts:318-482 | a cancelled run only stops; otherwise one entry more is shown, or, once all are, the run finishes at 100 percent with every list shown in full; progress never goes back or past 100 |
| GraphAnimation.Animation.ShowVisited | hooks/useGraph.ts:324-358 | the next visited node is appended to the ones on screen and nothing else changes |
| GraphAnimation.Animation.ShowActive | hooks/useGraph.ts:365-371 | the next traversed edge is appended to the ones on screen |
| GraphAnimation.Animation.ShowResultNode | hooks/useGraph.ts:378-412 | the next result node is appended to the ones on screen |
| GraphAnimation.Animation.ShowResultEdge | hooks/useGraph.ts:419-449 | the next result edge is appended to the ones on screen |
| GraphAnimation.Animation.Stop | hooks/useGraph.ts:287-298 | a running animation is cancelled and stops; a stopped one is left alone; the step and progress stay |
| GridCore.ManhattanMetric | hooks/usePathfinding.ts:562-564 | the Manhattan distance is zero exactly between equal places, symmetric, and obeys the triangle inequality |
| GridCore.ManhattanStep | hooks/usePathfinding.ts:562-564 | one move changes the estimate to the finish by exactly one, so it never drops by more than a move costs |
| GridCore.Neighbours | hooks/usePathfinding.ts:594-604 | every neighbour is a node of the grid |
| GridCore.NeighboursExact | hooks/usePathfinding.ts:594-604 | at most four neighbours, each once, and exactly the unvisited nodes one step away |
| GridCore.WallToggled | hooks/usePathfinding.ts:132-145 | the wall flag at p flips unless p is the start or the finish; no other node and no other field changes |
| GridCore.ToggleTwice | hooks/usePathfinding.ts:132-145 | toggling the same node twice gives back the grid |
| GridCore.ClearPath | hooks/usePathfinding.ts:177-186 | every node loses its visit, distance and link and keeps its start, finish and wall flags and its A* scores |
| GridCore.ClearTwice | hooks/usePathfinding.ts:177-186 | clearing a cleared grid changes nothing |
| GridCore.AllNodes | hooks/usePathfinding.ts:567-575 | every node of the grid exactly once, row by row, left to right |
| GridSearch.Expand | hooks/usePathfinding.ts:428-435 | the line grows by exactly the unvisited neighbours, each linked back to the node and one further from the start |
| GridSearch.Take | hooks/usePathfinding.ts:416-435 | a wall or visited node is skipped; otherwise it is visited and listed, the search stops exactly at the finish, and either fewer nodes are unvisited or the line is shorter |
| GridSearch.Bfs | hooks/usePathfinding.ts:406-439 | the listed nodes are distinct non-wall nodes not visited before, start first and finish last if reached; every written link points to an earlier listed node one step away with distance one less; when the finish is not reached every node next to a listed one is a wall or visited; a cancelled run lists nothing |
| GridSearch.Dfs | hooks/usePathfinding.ts:442-475 | the same as for Bfs, with the line taken from the back |
| GridDijkstra.UpdateUnvisitedNeighbors | hooks/usePathfinding.ts:583-591 | each unvisited neighbour gets the node's distance plus one and a link back to it; nothing else changes |
| GridDijkstra.StopExhausted | hooks/usePathfinding.ts:490-491 | a head at distance Infinity means every unlisted non-wall node is unreachable |
| GridDijkstra.Dijkstra | hooks/usePathfinding.ts:477-503 | distinct non-wall nodes listed in non-decreasing distance, the finish only last; every link points to an earlier listed neighbour; when the finish is not listed every remaining node is at Infinity and nothing next to a listed node was missed; a cancelled run lists nothing |
| GridAstar.InitScores | hooks/usePathfinding.ts:511-517 | every node gets gScore and fScore Infinity and hScore its Manhattan distance to the finish, and nothing else changes |
| GridAstar.JoiningExact | hooks/usePathfinding.ts:546-549 | the nodes joining the open set are exactly the improved neighbours not yet in it, each once |
| GridAstar.Improve | hooks/usePathfinding.ts:537-552 | each unvisited neighbour that one step through cur improves takes the better gScore, fScore = gScore + hScore and a link back to cur; the open set grows by exactly the improved ones not already in it |
| GridAstar.Astar | hooks/usePathfinding.ts:506-559 | the listed nodes are distinct non-wall nodes, start first and finish last if reached, every link to an earlier listed neighbour with gScore one less; an unreached finish means nothing next to a listed node was missed; a cancelled run lists nothing |
| GridPath.PathOrder | hooks/usePathfinding.ts:607-617 | a path ending at the finish, starting at a node without a link, each node the link of the next, none twice |
| GridPath.SearchChain | hooks/usePathfinding.ts:607-617 | after a search from a grid without links, following links always goes to an earlier visited node, so the walk back ends |
| GridPath.WalkFromStart | hooks/usePathfinding.ts:607-617 | a walk back of more than one node begins at the start, moves by single steps, and the i-th node is scored i |
| GridPath.FoundPath | hooks/usePathfinding.ts:607-617 | after bfs or dfs on a cleared grid, a reached finish other than the start reads back to a single-step path from the start whose length matches the finish's distance; any read-back path of two or more nodes, including one from a walled finish that was linked but never listed, begins at the start; an unreached finish without a distance reads back to itself |
| RecursionTree.Find | hooks/useBacktracking.ts:459-473 | finds a node exactly when the id is in the tree, and the node found has that id |
| RecursionTree.AddChildIds | hooks/useBacktracking.ts:362-373 | adding a child under a node of the tree adds exactly the child's ids, the node found for the parent gets the child as its last; with no such node nothing changes |
| RecursionTree.Recorder.Open | hooks/useBacktracking.ts:362-373 | a fresh id not yet in the tree; the childless node is added under the parent when the parent is in the tree, and nothing changes otherwise; the steps stay |
| RecursionTree.Recorder.Push | hooks/useBacktracking.ts:312-320 | exactly one step is appended; the tree stays |
| NQueens.IsSafe | hooks/useBacktracking.ts:439-456 | safe exactly when the cell is empty and no queen stands above it in its column or either diagonal |
| NQueens.PlaceKeeps | hooks/useBacktracking.ts:401-416 | a queen set where IsSafe allows keeps the board laid out for the next row |
| NQueens.RemoveRestores | hooks/useBacktracking.ts:401-421 | taking the queen off again gives back the board it was set on |
| NQueens.SolutionPeace | hooks/useBacktracking.ts:331-360 | no two queens of a recorded solution attack each other, except a queen in the starting queen's row against queens above it |
| NQueens.SolutionRows | hooks/useBacktracking.ts:331-360 | each row of a recorded solution holds one queen |
| NQueens.StartUnchecked | hooks/useBacktracking.ts:305-310 | a 4 by 4 board with two queens in column 0 meets every check a recorded solution passes when the starting queen is at (1, 0) |
| NQueens.CheckedPeace | hooks/useBacktracking.ts:354-360 | once the starting queen's row is checked like every other, each row holds one queen and no two queens attack each other, the starting queen included |
| NQueens.StartCaught | hooks/useBacktracking.ts:354-360 | the board that passes the unchecked start fails that intended check |
| NQueens.Solver.constructor | hooks/useBacktracking.ts:291-320 | an empty board with the starting queen when it lies on the board, a root tree node and one first step |
| NQueens.Solver.Solve | hooks/useBacktracking.ts:326-436 | a failed call leaves the board as found; a successful one happens only when one solution is wanted and leaves the complete board it recorded; steps, tree ids and solutions only grow |
| NQueens.Solver.TryColumn | hooks/useBacktracking.ts:386-431 | the same for one column: the queen is placed, explored and taken off again on failure |
| NQueens.Solver.Run | hooks/useBacktracking.ts:476-495 | at most one solution unless all are wanted; with all wanted and some found, the last step is a summary with their count and the last solution |
| Sudoku.Placeable | hooks/useBacktracking.ts:640-669 | the number may go at the cell exactly when neither its row, its column nor its box holds it |
| Sudoku.FirstEmpty | hooks/useBacktracking.ts:529-543 | the first empty cell in row-major order, or -1, -1 when and only when the board is full |
| Sudoku.PlaceConsistent | hooks/useBacktracking.ts:586-602 | an allowed number placed in an empty cell of a board without clashes keeps it without clashes |
| Sudoku.SolvesPlaced | hooks/useBacktracking.ts:586-620 | a solution of the board with an allowed number placed solves the board itself |
| Sudoku.Solver.constructor | hooks/useBacktracking.ts:501-524 | a copy of the given board, or an empty one when there is none, a root tree node and one first step |
| Sudoku.Solver.Solve | hooks/useBacktracking.ts:527-638 | a failed call leaves the board as found; a successful one leaves a full board that keeps every given number and breaks no rule |
| Sudoku.Solver.TryValue | hooks/useBacktracking.ts:586-635 | the same for one number: placed when allowed, explored, emptied again on failure |
| Sudoku.Solver.Run | hooks/useBacktracking.ts:688-695 | solved, the board solves the puzzle and stays without clashes when the puzzle had none; unsolved, the board is unchanged |
| Sudoku.SafeBoard | components/backtracking/SudokuSolver.tsx:29-37 | the given board when it is size by size, otherwise an empty size by size board |
| Sudoku.PossibleValues | components/backtracking/SudokuSolver.tsx:45-64 | a key for every empty cell and no other, holding exactly the allowed numbers from 1 to size in increasing order |
| Sudoku.Hints | components/backtracking/SudokuSolver.tsx:39-42 | nothing exactly when hints are off; otherwise the allowed numbers of every empty cell of the safe board |
| Maze.VisitBound | hooks/useBacktracking.ts:780-803 | every cell is visited once and all but the start are open, so the visited list is at most one longer than the open cells |
| Maze.Solver.constructor | hooks/useBacktracking.ts:699-722 | path and visited list hold the start alone; a root tree node and one first step |
| Maze.Solver.Solve | hooks/useBacktracking.ts:725-851 | visited cells only grow; a failed call gives the path back as it was; a successful one extends it to the exit along open neighbouring cells |
| Maze.Solver.TryMove | hooks/useBacktracking.ts:775-848 | the same for one move: an open unvisited neighbour is visited, stepped on, explored and stepped off on failure |
| Maze.Solver.Advance | hooks/useBacktracking.ts:789-815 | the cell is appended to both the path and the visited list |
| Maze.Solver.Retreat | hooks/useBacktracking.ts:833-846 | the last cell leaves the path and stays visited |
| Maze.Solver.Run | hooks/useBacktracking.ts:870-878 | solved, the path runs from the start to the exit; unsolved, the path is the start alone |
| Knights.CanKnightMove | hooks/useBacktracking.ts:1031-1035 | true exactly for the eight knight moves |
| Knights.TourCovers | hooks/useBacktracking.ts:916-939 | a tour as long as the board has squares numbers every square from 1 to n*n and visits none twice |
| Knights.Solver.constructor | hooks/useBacktracking.ts:882-903 | an empty board, no tour, a root tree node and one first step |
| Knights.Solver.Solve | hooks/useBacktracking.ts:906-1028 | a failed call leaves board and tour as found; a successful one extends the tour to a complete one, closed when a closed tour is asked for |
| Knights.Solver.Explore | hooks/useBacktracking.ts:942-1027 | the same once the square holds its move number and the tour is not finished |
| Knights.Solver.TryMove | hooks/useBacktracking.ts:980-1023 | the same for one of the eight moves |
| Knights.Solver.Run | hooks/useBacktracking.ts:1054-1060 | solved, every square holds a move number from 1 to n*n along a chain of knight moves from the top-left square; unsolved, the board is empty again |
| SubsetSum.Solver.constructor | hooks/useBacktracking.ts:1064-1086 | no subset, no solutions, a root tree node and one first step |
| SubsetSum.Solver.Solve | hooks/useBacktracking.ts:1089-1208 | solutions only grow; unless the search is done, the subset and its indices are as found and, with one solution wanted, no solution is added; done only when one solution is wanted, with the subset extended and recorded as the last solution; a pruned call records at most the subset it holds and opens no tree node |
| SubsetSum.Solver.Keep | hooks/useBacktracking.ts:1099-1113 | the current subset is appended to the solutions |
| SubsetSum.Solver.Branch | hooks/useBacktracking.ts:1157-1207 | both branches together keep that outcome for the call |
| SubsetSum.Solver.Take | hooks/useBacktracking.ts:1157-1171 | the number is appended to the subset and its sum grows by it |
| SubsetSum.Solver.Drop | hooks/useBacktracking.ts:1186-1198 | the subset and the picked indices are as before the number was taken |
| SubsetSum.Solver.Run | hooks/useBacktracking.ts:1227-1255 | every solution sums to the target, fits the size limit and is drawn in order from the numbers; with no solution the last step says so; with all wanted and more than one found it is a summary; at most one solution when one is wanted |
| JsSort.SortBy | hooks/useAlgorithmVisualizer.ts:375-376 | the sorted copy has the same elements with the same multiplicities |
| JsSort.SortByOrdered | hooks/useAlgorithmVisualizer.ts:375-376 | the sorted copy is in non-decreasing key order |
| JsSort.SortByStable | hooks/useAlgorithmVisualizer.ts:375-376 | the sort is stable: for every key, the elements with that key come out in the order they went in |
| JsSort.SortByMembers | hooks/useAlgorithmVisualizer.ts:375-376 | an element is in the sorted copy exactly when it is in the input |
| Generators.Pick | hooks/useAlgorithmVisualizer.ts:118-119 | floor(r * k) of a draw in [0, 1) is an index below k, or 0 when k is 0 |
| Generators.DescendingPermutes | hooks/useAlgorithmVisualizer.ts:140-145 | n, ..., 1 holds the same values as 1, ..., n |
| Generators.RandomArray | hooks/useAlgorithmVisualizer.ts:91-96 | size values, the i-th floor(u(i) * 100) + 1, each in [1, 100] |
| Generators.Identity | hooks/useAlgorithmVisualizer.ts:111-114 | the array 1, ..., size |
| Generators.SwapRandomly | hooks/useAlgorithmVisualizer.ts:116-123 | a permutation of the input differing from it in at most 2 * count places |
| Generators.NearlySorted | hooks/useAlgorithmVisualizer.ts:110-124 | a permutation of 1, ..., size with at most 2 * (size / 10) values out of place |
| Generators.Reversed | hooks/useAlgorithmVisualizer.ts:140-145 | size, ..., 1: a permutation of 1, ..., size in strictly falling order |
| Generators.FewUnique | hooks/useAlgorithmVisualizer.ts:159-165 | size values, each drawn from 10, 30, 50, 70, 90 at index floor(u(i) * 5) |
| Generators.MostlySorted | lib/challenges.ts:62-77 | corrected: a permutation of 1, ..., size with at most six values out of place, empty for size 0 |
| Generators.Exchange | lib/challenges.ts:70-74 | inside the array the entries at the two indices trade places; on an empty array the exchange at index 0 leaves one `undefined` entry behind |
| Generators.MostlySortedAsWritten | lib/challenges.ts:62-77 | as written: for size 0 the result is one undefined entry; for other sizes a permutation of 1, ..., size |
| Replay.Cursor.constructor | hooks/useBacktracking.ts:33-46 | the first of count steps shown, not replaying |
| Replay.Cursor.Start | hooks/useBacktracking.ts:179-231 | a running replay is left alone; otherwise an empty list is prepared first, an index at or past the last step starts over at 0, and the interval is scheduled with the length the page held when pressed |
| Replay.Cursor.Prepare | hooks/useBacktracking.ts:131-153 | the replay stops with count steps on the page and the first shown |
| Replay.Cursor.Tick | hooks/useBacktracking.ts:197-230 | at or past the last step the interval stops with the index kept; otherwise the index moves on by one and fewer ticks remain |
| Replay.Cursor.Stop | hooks/useBacktracking.ts:234-243 | the replay is stopped and no interval is left scheduled |
| Replay.Cursor.Reset | hooks/useBacktracking.ts:246-255 | the replay stops at the first of count new steps |
| SortingPage.Ranked | hooks/useAlgorithmVisualizer.ts:375-376 | the same results, fastest first |
| SortingPage.RankedStable | hooks/useAlgorithmVisualizer.ts:375-376 | racers with equal times stay in the order they were listed |
| SortingPage.RankedFirst | hooks/useAlgorithmVisualizer.ts:375-383 | the first ranked result took no longer than any other |
| SortingPage.Least | hooks/useAlgorithmVisualizer.ts:383 | Math.min with a possibly infinite first argument: finite, no larger than either, and equal to one of them |
| SortingPage.Fewest | hooks/useAlgorithmVisualizer.ts:389-390 | no racer made fewer comparisons, and some racer made exactly that many |
| SortingPage.Moved | hooks/useAlgorithmVisualizer.ts:465-482 | same length and values, the dragged value at its new index, the others in their old order |
| SortingPage.Visualizer.GenerateArray | hooks/useAlgorithmVisualizer.ts:91-107 | arraySize values in [1, 100], kept as the race's starting array |
| SortingPage.Visualizer.GenerateNearlySorted | hooks/useAlgorithmVisualizer.ts:110-137 | a permutation of 1, ..., arraySize with at most 2 * (arraySize / 10) values out of place, kept as the race's starting array |
| SortingPage.Visualizer.GenerateReversed | hooks/useAlgorithmVisualizer.ts:140-156 | arraySize, ..., 1, kept as the race's starting array |
| SortingPage.Visualizer.GenerateFewUnique | hooks/useAlgorithmVisualizer.ts:159-176 | arraySize values from 10, 30, 50, 70, 90, kept as the race's starting array |
| SortingPage.Visualizer.ResetStats | hooks/useAlgorithmVisualizer.ts:179-193 | counters, time, narration and progress back to nothing, one zero access count per position, the timer cleared and the cancel flag raised |
| SortingPage.Visualizer.StartSorting | hooks/useAlgorithmVisualizer.ts:219-250 | a running page or an empty array changes nothing; otherwise the statistics are reset, the cancel flag lowered, the start time noted and the timer scheduled |
| SortingPage.Visualizer.StopSorting | hooks/useAlgorithmVisualizer.ts:253-278 | a running page raises the cancel flag, clears the timer and stops, and a race stopped before any racer reported says so in the narration; a stopped page is left alone |
| SortingPage.Visualizer.FinishRace | hooks/useAlgorithmVisualizer.ts:371-407 | the run stops; unless cancelled, the results are ranked fastest first and the statistics count one sort per racer and every racer's algorithm; the fastest time becomes the smaller of the old one and some racer's time no greater than any racer's, and the fewest comparisons likewise; the array size and challenge count stay |
| SortingPage.Visualizer.DragStart | hooks/useAlgorithmVisualizer.ts:456-458 | the bar at index is picked up |
| SortingPage.Visualizer.DragOver | hooks/useAlgorithmVisualizer.ts:460-463 | the pointer is over the bar at index |
| SortingPage.Visualizer.Drop | hooks/useAlgorithmVisualizer.ts:465-482 | with a bar picked up its value moves to index and the drag ends; with none nothing changes |
| Distribution.PlaceStep | lib/algorithms.tsx:1180-1205 | one placement puts the value at its key's counter minus one, lowers the counter and counts one swap; the output keeps the stable placement of the entries after i; counting sort shows the placed values over the input |
| GraphAnimation.Animation.ShowNext | hooks/useGraph.ts:324-455 | exactly one more entry, from the first list not yet fully shown, goes on screen; the step, progress and flags stay |
| GraphKruskal.ScanEdge | hooks/useGraph.ts:655-663 | one edge of the sorted list keeps the loop's facts: the sets stay a forest spanned by the taken edges, the ids pushed are those of the taken edges, and every edge scanned so far has its ends joined by taken edges no heavier than it |
| GraphKruskal.ScanAll | hooks/useGraph.ts:655-663 | scanning every sorted edge from single-node sets ends with the loop's facts holding for the whole list |
| GraphKruskal.LightlyJoinedNext | hooks/useGraph.ts:655-663 | a taken edge joins its own ends and keeps every earlier edge's light connection; a passed-over edge's ends were already connected by taken edges, all of them no heavier because edges arrive in weight order |
| GraphKruskal.SameSetJoined | hooks/useGraph.ts:656-660 | two ids with the same root are connected by the taken edges |
| GraphScc.FillNeighbours | hooks/useGraph.ts:758-762 | afterwards every target of the node is marked, and every node marked on the way is pushed onto the stack exactly once |
| GraphScc.ClaimNeighbours | hooks/useGraph.ts:777-781 | every node claimed reaches the component's root, and the component has only grown |
| GraphTopo.Explore | hooks/useGraph.ts:574-593 | false only when the graph has a cycle; on true the node has finished after all its targets and is first in the result |
| GridSearch.Begin | hooks/usePathfinding.ts:410 | the start at distance 0 with nothing listed and the line holding the start satisfies the search invariant |
| SubsetSum.Solver.Included | hooks/useBacktracking.ts:1157-1184 | the branch with the number included gives the call the outcome stated for Solve |
| SubsetSum.Solver.Excluded | hooks/useBacktracking.ts:1186-1207 | the branch with the number left out gives the call the outcome stated for Solve |

## Left out

- GraphAnimation.Percent: the source computes `Math.floor((step / total) * 100)` on IEEE doubles (hooks/useGraph.ts:360, 373, 414, 451). The model takes the exact floor of `step * 100 / total`. The two differ where rounding pushes the double just below an integer: 29 of 50 steps shows 57 in the source and 58 in the model, and 57 of 100 shows 56 and 57. The bound, monotonicity and "all steps is 100" hold in both.
- RadixSort.Pass: the source publishes a copy of the output buffer after every placement (lib/algorithms.tsx:1373-1379). The model publishes only the copied-back array after each pass, so those intermediate frames are not modelled. The multiset and order facts about the array are unaffected.
- GraphKruskal.Kruskal: requires a well-formed graph, with every edge endpoint a node of the graph. In the source, `find` on an id missing from the parent map walks `undefined`; that path is not modelled.
- CountingSort.Sort: requires a non-empty array of non-negative values. On an empty array the source's `max = arr[0]` is `undefined`, and `new Array(max + 1)` throws (lib/algorithms.tsx:1102, 1135). Its only caller, `startSorting`, refuses an empty array first (hooks/useAlgorithmVisualizer.ts:219-220). Negative values would index the count array below 0, and the generators never produce them.
- RadixSort.Sort: requires the same as CountingSort.Sort. On an empty array `max.toString()` throws on `undefined` (lib/algorithms.tsx:1287, 1297), and the digits of negative values are not modelled.
- Sudoku.Solver.constructor: requires a square board of side `size` with `box * box == size`. The source takes `Math.sqrt(size)` of whatever size it is given, and boxes of fractional side are not modelled.
- Sudoku.Placeable, Sudoku.PossibleValues and Sudoku.Hints: the same `box * box == size` requirement as the constructor.
- GridPath.FoundPath: stated for a grid whose visited marks, distances and parent links have been cleared. `visualizeAlgorithm` (hooks/usePathfinding.ts:244-281) runs the search on the grid as it stands, so a second run over a stale grid is not covered by this contract.
- GridSearch.Bfs, GridSearch.Dfs, GridDijkstra.Dijkstra and GridAstar.Astar: require a rectangular grid with the start on it. The source's grid is built rectangular, and its start is always one of its cells.
- GridSearch.Bfs: every link is proved to step one closer to the start, so the path read back has as many moves as the finish's distance (GridPath.FoundPath). That no walk over non-wall nodes reaches the finish in fewer moves is not proved. The argument would need the queue's distances to rise by at most one from front to back, and a parity argument for the distances the source overwrites on nodes already queued.
- GraphPrim.Prim: each taken edge is proved to be a lightest edge leaving the visited nodes (GraphPrim.PrimStep). That the finished tree has the least total weight among trees spanning the same nodes is not proved.
- GraphKruskal.Kruskal: the cycle property is proved: the ends of every graph edge are joined by taken edges no heavier than it. That such a forest has the least total weight among all spanning forests is an exchange argument over every other forest, which is not proved.
- GridDijkstra.Dijkstra and GridAstar.Astar: the visit order and the parent links are modelled, and every link is proved to point to an earlier listed neighbour. That the path read back is a shortest one is not proved.
- GraphScc.FindScc: the contract proves that the result is the components one after another, without repeats, covering every node, and that every member of a component reaches the component's first node. It does not prove that the first node reaches every member (strong connectivity) or that the components are maximal.
- Knights.Solver.Run: requires a board side `n > 0`. For `n == 0` the source indexes `board[0][0]` of an empty board.
- NQueens.Solver.Solve, Sudoku.Solver.Run and SubsetSum.Solver.Run: soundness of every recorded solution is proved. Completeness (that no solution is missed) is not.
- SortingPage.Visualizer.Drop: requires the dragged index and the drop index to lie in the array. The source's `splice` clamps out-of-range indices and can insert `undefined`; that is not modelled.
- SortingPage.Visualizer.StartSorting: does not run the chosen sort. The sorts are modelled in their own modules (SimpleSorts, QuickSort, MergeSort, HeapSort, CountingSort, RadixSort, BucketSort).
- SortingPage.Visualizer.FinishRace: the source's shallow copy of the statistics shares the `algorithmsUsed` array with the old statistics; the model keeps a value, so that aliasing is not captured. With no racers the source throws at `results[0]`; the model leaves the statistics unchanged and stops.
- SortingPage.Visualizer: the array size is held as a `nat`; parsing the slider's text with `parseInt` is not modelled.
- Replay.Cursor: the interval callback in the source reads the `activeSteps` captured when playback started; the model keeps that snapshot as a field, so later changes to the step list do not reach a running replay.
- GridCore.WallToggled: the source copies the outer array with `grid.slice()` and writes the new node into the row it shares with the old grid (hooks/usePathfinding.ts:133-141), so the old grid sees the toggle too; the model returns a fresh grid and leaves the old one as it was, so that aliasing is not captured.
- RecursionTree: the tree is a value grown by returning a new tree; the source mutates shared node objects, and that aliasing is not modelled.
- Randomness: `Math.random` is a parameter `u: nat -> real`, with the k-th draw `u(k)` in `[0, 1)`. The generators and the page's generate buttons take it from their caller.
- Sound (`playSound`), narration strings, active-index highlights, access-pattern heat maps beyond their tallies, delays (`setTimeout`), animation frames and React state batching are not modelled. The cancel flag is modelled as the moment it was set, compared with the reads.
- The race's window-level globals, the `Promise.all` fan-out of racers, localStorage persistence, achievements and confetti are not modelled.

## Findings

| source | as written | input that shows it | evidently intended | confidence | as-written member | corrected member |
|---|---|---|---|---|---|---|
| lib/challenges.ts:62-77 | the Mostly Sorted generator makes three random swaps even when `size` is 0, reading and writing `arr[idx]` with `idx = Math.floor(Math.random() * 0) = 0` | size 0 gives `[undefined]`, an array of length 1 | an empty array for size 0, and otherwise a permutation of 1, ..., size with at most six values out of place | not executed; reachable only through a stored size of 0, since the size slider keeps 10 to 100 | Generators.MostlySortedAsWritten | Generators.MostlySorted |
| hooks/useBacktracking.ts:354-360 | the row of the starting queen is skipped without checking that queen against the queens already placed above it | a 4 by 4 board with the starting queen at (1, 0): the solver places a queen at (0, 0) first and records a board with two queens in column 0 | the starting queen's row checked like every other, so every recorded board has no two attacking queens | not executed | NQueens.StartUnchecked | NQueens.CheckedPeace |
| lib/algorithms.tsx:368-398 | insertion sort returns on cancel in the middle of its shift without writing the held value back into the hole | [2, 3, 1] with the flag first seen at the second read inside the shift of pass 2 (the fourth read of the run, numbered 3 counting from 0) shows [2, 3, 3] | the held value written back before returning, so a cancelled run still shows a rearrangement of the input | not executed | SimpleSorts.InsertionCancelShown | SimpleSorts.ShiftRestored |
