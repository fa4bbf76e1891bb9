# Models of the content network simulator

A model in Dafny of the parts of the packet-level simulator that compute and keep state: the path layer, the
output queues, the content store, the pending Interest table, the receiver, the routing nodes and the random
number generator. `dafny verify dfyconfig.toml` checks the whole project.

## What is modelled

- **Shortest-path layer.** `NodeHeap` is the binary heap with back-pointers, proved to be a priority queue.
  `NodeTable` builds the graph from the links; of several links between two nodes the first one counts.
  `ShortestPathTree` holds the invariant of the search and `Dijkstra` the two searches over array and table.
  `MixedTable` and `BroadcastTable` are the table whose trees are put together from different rows,
  `AlternativePaths` and `SPTsBroadcastLayer` the recursive search for link-disjoint paths. Distances are reals
  with an explicit infinity.
- **Spanning-forest layer.** `LinkForest` counts components, `SpanningForest` is Kruskal's choice and its minimality,
  `ForestTrees` the visit and the search for hop counts, `MSTBroadcastLayer` the layer itself.
- **Output queues.** `DeficitRoundRobin` gives the operations of the fair queue on values, `FairQueue` the object that
  changes in place, `RoundRobinInvariant` what every operation keeps, `Fairness` whole runs and the bound on the
  difference of service. `FirstInFirstOut` is the simple queue.
- **Content store.** `Recency` is the plain recency sequence, `ContentIndex` the list and the entries that point at each
  other, `CacheLRU` and `CacheRND` the two stores.
- **Pending Interest table.** `Names` has the table keys, `PendingEntries` the two linked orders and the ledger of
  what was recorded, expired and answered, `PITable` the table and what each
  operation does to it as a value, `PITRuns` whole runs.
- **Receiver.** `Windows` and `ICP` are the window of one interface, `Download` the partition of the chunks,
  `SocketManager` the receiver, `FileSize` the completion check in 32-bit words.
- **Routing nodes.** `RoutingNode` and `CBCBNode` are one node, `Advertisement` the flood of an advertisement and
  `Convergecast` a round of requests and answers, both as runs over a pool of messages in any order.
- **Random numbers.** `Crandom` is the integer core of the generator.

## How the source is read

- An iterator is an identity or a position. The place that a hash table finds for a new element is a parameter and
  may be any place. The clock is a parameter; in the pending Interest table it is the time at which entries expire.
- Predicates of routing nodes are sets of filters, covering is the superset relation, adding is union. A neighbour's
  interface and its process id are one thing.
- A method that changes fields is proved to do what a function on values says, and the theorems are about the functions.
- What goes through `issue_packet` of the routing node, whose override at
  `tags/cbcbsim-1.0.2/src/CBCBNode.cc:181-183` does nothing, is modelled as the reliable send that its callers expect.
- The fair queue records what happens to its flows in a log; the account of a flow is read off the log. A deficit that
  is given up with an erased queue is recorded there, so that the conservation law holds over whole runs and not only
  between two erasures.

## Findings

- The completion check (`tags/cbcbsim-1.0.2/include/cbcbsim/SocketManager.h:99`) compares two sizes in 32-bit words.
  The node asks for it only after data (`tags/cbcbsim-1.0.2/src/CCNxNode.cc:198`). Once a chunk has been counted, it is
  right throughout a download if and only if the file has no more chunks than the period of their size
  (`CompletionTestAfterData`); `CompleteAfterFirst` is a file of 65537 chunks that it takes for complete after the first
  one. While none has been counted, it is right for one chunk fewer (`CompletionTest`, `EmptyLooksComplete`).
- Data for a chunk from an interface that did not ask for it marks it received while it stays in the window that asked
  (`tags/cbcbsim-1.0.2/src/SocketManager.cc:98-128`). `ArrivalElsewhere` is such an input, and `ArrivalKeepsIff` shows
  that every chunk stays in one place if and only if the data comes on the interface that asked for it or the chunk has
  been received before.
- With filtering, data for a local process stops the loop over the entries of its chunk, so that remote entries that
  come later in the table are not answered by it (`tags/cbcbsim-1.0.2/src/PITable.cc:156-168`).
  `LocalEntryStopsAnswers` is such an input, and `AnswersAllRemoteIff` shows that every other interface that waits is
  answered if and only if no local entry for the data's port stands before one of them.

## Model

| member | source | states |
|---|---|---|
| NodeHeap.MinHeap.SwapElements | tags/cbcbsim-1.0.2/src/SPTsBroadcastLayer.cc:280-286 | two slots change places, and the two back-pointers with them; every other slot stays |
| NodeHeap.MinHeap.SiftUp | tags/cbcbsim-1.0.2/src/SPTsBroadcastLayer.cc:310-315 | from a heap in order but for one slot that may be less than its parent, gives a heap in order with the same queue |
| NodeHeap.MinHeap.Heapify | tags/cbcbsim-1.0.2/src/SPTsBroadcastLayer.cc:292-308 | from a heap in order but for one slot that may be greater than its children, gives a heap in order with the same queue |
| NodeHeap.MinHeap.Insert | tags/cbcbsim-1.0.2/src/SPTsBroadcastLayer.cc:260-265 | the queue gets exactly the new node with its distance; back-pointers hold the slots |
| NodeHeap.MinHeap.DecreaseDist | tags/cbcbsim-1.0.2/src/SPTsBroadcastLayer.cc:253-258 | the distance of the node in slot i is lowered if the new one is less, else nothing changes; the heap stays in order |
| NodeHeap.MinHeap.FirstIsLeast | tags/cbcbsim-1.0.2/src/SPTsBroadcastLayer.cc:239-241 | the first slot of a heap in order holds a least distance |
| NodeHeap.MinHeap.PopFirst | tags/cbcbsim-1.0.2/src/SPTsBroadcastLayer.cc:239-251 | gives a node of least distance and takes exactly that one out of the queue; its back-pointer becomes -1 |
| NodeTable.NTable.AddNode | tags/cbcbsim-1.0.2/src/SPTsBroadcastLayer.cc:133-141 | the id of a process, new ids in order of first use; the table is the specified one |
| NodeTable.NTable.AddEdge | tags/cbcbsim-1.0.2/src/SPTsBroadcastLayer.cc:143-148 | the table becomes the specified one with the edge added in both adjacency lists, unless the two nodes have one |
| NodeTable.BuildIsFirstLinkGraph | tags/cbcbsim-1.0.2/src/SPTsBroadcastLayer.cc:84-88 | the graph of a list of links has for two nodes the length of the first link between them, and no other links |
| ShortestPathTree.PopKeepsInv | tags/cbcbsim-1.0.2/src/SPTsBroadcastLayer.cc:338-339 | taking out a node of least distance keeps the invariant of the search |
| ShortestPathTree.RelaxedNodeIsQueued | tags/cbcbsim-1.0.2/src/SPTsBroadcastLayer.cc:343-346 | a node whose distance a relaxation lowers is still queued, so its heap position is never -1 |
| ShortestPathTree.RelaxKeepsInv | tags/cbcbsim-1.0.2/src/SPTsBroadcastLayer.cc:343-347 | a relaxation keeps the invariant of the search |
| ShortestPathTree.PoppedEntryOk | tags/cbcbsim-1.0.2/src/SPTsBroadcastLayer.cc:338-349 | with nonnegative lengths a node that was taken out has its true distance and a predecessor chain of that length to the root |
| ShortestPathTree.EmptyQueueIsTree | tags/cbcbsim-1.0.2/src/SPTsBroadcastLayer.cc:338-349 | when the queue is empty every entry of the row is a true distance with a chain of predecessors, or infinite with none |
| Dijkstra.RelaxLink | tags/cbcbsim-1.0.2/src/SPTsBroadcastLayer.cc:341-347 | one link of the node taken out is relaxed: table row, heap and back-pointers change together |
| Dijkstra.FillRow | tags/cbcbsim-1.0.2/src/SPTsBroadcastLayer.cc:328-350 | the row of the root is a shortest-path tree row: distances of shortest walks, predecessor chains that account for each link, infinity exactly for nodes that cannot be reached |
| Dijkstra.ReadPath | tags/cbcbsim-1.0.2/src/SPTsBroadcastLayer.cc:370-391 | the links from the destination back to the root, in that order |
| Dijkstra.SearchTo | tags/cbcbsim-1.0.2/src/SPTsBroadcastLayer.cc:352-416 | the search stops at the destination with the links of a shortest simple walk, or with no path exactly if there is none |
| Dijkstra.FoundIfConnected | tags/cbcbsim-1.0.2/src/SPTsBroadcastLayer.cc:365-415 | the answer is empty exactly if the two nodes are not connected |
| MixedTable.ParentIsOneLinkNearer | tags/cbcbsim-1.0.2/src/SPTsBroadcastLayer.cc:449-469 | a parent of the mixed table is a neighbour, nearer to the root by exactly the length of the link |
| MixedTable.MixedIsShortestPathTree | tags/cbcbsim-1.0.2/src/SPTsBroadcastLayer.cc:436-472 | with positive lengths parents taken from different rows still lead from every reachable node to the root, by a shortest simple walk, and the others have none |
| MixedTable.UniquePathsAreSymmetric | tags/cbcbsim-1.0.2/src/SPTsBroadcastLayer.cc:444-469 | with unique shortest paths the parent walks between two nodes are reverses, and the stored hop count is their number of links |
| BroadcastTable.FirstHop | tags/cbcbsim-1.0.2/src/SPTsBroadcastLayer.cc:452-456 | the loop over predecessors ends at the node next to i, with the number of links of the path |
| BroadcastTable.FillTable | tags/cbcbsim-1.0.2/src/SPTsBroadcastLayer.cc:430-434 | every row is a shortest-path tree row |
| BroadcastTable.FillPaths | tags/cbcbsim-1.0.2/src/SPTsBroadcastLayer.cc:436-472 | every pair of nodes gets the parent, children and hop count of the mixed table, and no other entry is made |
| BroadcastTable.ChildrenInvertParents | tags/cbcbsim-1.0.2/src/SPTsBroadcastLayer.cc:620-641 | getChildren is the inverse of getParent apart from the root |
| BroadcastTable.TreePathsAreShortest | tags/cbcbsim-1.0.2/src/SPTsBroadcastLayer.cc:633-641 | following getParent from a reachable node gives a shortest walk to the root |
| BroadcastTable.TablesAreShortestPathTrees | tags/cbcbsim-1.0.2/src/SPTsBroadcastLayer.cc:436-472 | for every root the table is a tree of just the nodes that can reach it; every walk of getParent ends at the root and is shortest; getChildren inverts it |
| BroadcastTable.HopCountTellsReached | tags/cbcbsim-1.0.2/src/SPTsBroadcastLayer.cc:643-651 | getHopCount is -1 exactly for two nodes that cannot reach each other |
| BroadcastTable.HopsOfShortestWalk | tags/cbcbsim-1.0.2/src/SPTsBroadcastLayer.cc:643-651 | getHopCount is, in both directions, the number of links of a shortest simple walk |
| BroadcastTable.HopsAreParentSteps | tags/cbcbsim-1.0.2/src/SPTsBroadcastLayer.cc:643-651 | with unique shortest paths getHopCount is the number of getParent steps, in both directions, and these are reverses |
| AlternativePaths.RebuiltGraph | tags/cbcbsim-1.0.2/src/SPTsBroadcastLayer.cc:550-573 | leaving out the explored links from the input gives the same nodes and exactly the other links |
| AlternativePaths.LinksShrink | tags/cbcbsim-1.0.2/src/SPTsBroadcastLayer.cc:597-602 | a path that was found takes at least one link away, so the recursion ends |
| AlternativePaths.RoundsAreDisjointPaths | tags/cbcbsim-1.0.2/src/SPTsBroadcastLayer.cc:544-608 | the paths of all rounds are simple, join the pair, are link-disjoint in pairs and from the explored links, and without them all the pair is not connected |
| AlternativePaths.GetNextFollowsPath | tags/cbcbsim-1.0.2/src/SPTsBroadcastLayer.cc:610-618 | getNext walks each stored path in both directions, and has no answer for a node off the path or for any number past the last path |
| SPTsBroadcastLayer.NextMaps | tags/cbcbsim-1.0.2/src/SPTsBroadcastLayer.cc:580-598 | the two next-hop maps of a path hold exactly its steps forwards and backwards |
| SPTsBroadcastLayer.BuildWithout | tags/cbcbsim-1.0.2/src/SPTsBroadcastLayer.cc:550-573 | the auxiliary graph is built from just the links that are not explored |
| SPTsBroadcastLayer.FindPath | tags/cbcbsim-1.0.2/src/SPTsBroadcastLayer.cc:550-575 | a shortest simple walk in the graph without the explored links, or none exactly if the pair is not connected there |
| SPTsBroadcastLayer.AlternativesAreDisjointPaths | tags/cbcbsim-1.0.2/src/SPTsBroadcastLayer.cc:482-516 | for every pair the stored paths are simple, link-disjoint in pairs and from the primary path, removing them all disconnects the pair, and getNext walks each of them in both directions and has no other answer from number 2 on |
| SPTsBroadcastLayer.SPTsBroadcastLayer.AddLink | tags/cbcbsim-1.0.2/src/SPTsBroadcastLayer.cc:317-321 | the link is appended and both nodes are known |
| SPTsBroadcastLayer.SPTsBroadcastLayer.AddNode | tags/cbcbsim-1.0.2/src/SPTsBroadcastLayer.cc:323-326 | the node is known, with a link of length 0 to itself |
| SPTsBroadcastLayer.SPTsBroadcastLayer.ComputeTrees | tags/cbcbsim-1.0.2/src/SPTsBroadcastLayer.cc:419-472 | the table of trees is complete: for every pair what TablesAreShortestPathTrees needs |
| SPTsBroadcastLayer.SPTsBroadcastLayer.PrimaryPath | tags/cbcbsim-1.0.2/src/SPTsBroadcastLayer.cc:488-511 | the links that getParent goes through from j to i, or none if they are not connected |
| SPTsBroadcastLayer.SPTsBroadcastLayer.ComputeAlternativePaths | tags/cbcbsim-1.0.2/src/SPTsBroadcastLayer.cc:544-608 | stores the paths of all rounds under consecutive numbers, ends, and touches no other pair |
| SPTsBroadcastLayer.SPTsBroadcastLayer.StorePath | tags/cbcbsim-1.0.2/src/SPTsBroadcastLayer.cc:580-600 | one path is stored for both directions under its number |
| SPTsBroadcastLayer.SPTsBroadcastLayer.ComputePaths | tags/cbcbsim-1.0.2/src/SPTsBroadcastLayer.cc:418-541 | trees for all roots and alternative paths for all pairs |
| SPTsBroadcastLayer.SPTsBroadcastLayer.ParentsAnswered | tags/cbcbsim-1.0.2/src/SPTsBroadcastLayer.cc:633-641 | once the trees are there, getParent leads along a shortest walk to the root, and has no answer exactly if there is none |
| SPTsBroadcastLayer.SPTsBroadcastLayer.ChildrenAnswered | tags/cbcbsim-1.0.2/src/SPTsBroadcastLayer.cc:620-631 | getChildren answers just the nodes whose getParent is the node, apart from the root |
| SPTsBroadcastLayer.SPTsBroadcastLayer.HopsAnswered | tags/cbcbsim-1.0.2/src/SPTsBroadcastLayer.cc:643-651 | getHopCount answers the number of links of a shortest simple walk, or -1 if there is none |
| SPTsBroadcastLayer.SPTsBroadcastLayer.NextAnswered | tags/cbcbsim-1.0.2/src/SPTsBroadcastLayer.cc:610-618 | getNext walks simple paths between the pair in both directions, each under its number from 2, and answers nothing else |
| LinkForest.LabelsAreComponents | tags/cbcbsim-1.0.2/src/MSTBroadcastLayer.cc:65-89 | two nodes have the same root label exactly if the links so far join them |
| LinkForest.CountedForest | tags/cbcbsim-1.0.2/src/MSTBroadcastLayer.cc:72-88 | a set of links that joins all it can with as many links as the components that vanished is a forest |
| SpanningForest.KruskalStep | tags/cbcbsim-1.0.2/src/MSTBroadcastLayer.cc:65-89 | taking the next link if it joins two components keeps the chosen links a forest that joins all that the links so far join |
| SpanningForest.AfterLinksInv | tags/cbcbsim-1.0.2/src/MSTBroadcastLayer.cc:56-89 | after any number of links the loop has the greedy choice, with root labels that are the components of the links so far and of the chosen ones |
| SpanningForest.CheaperPrefixes | tags/cbcbsim-1.0.2/src/MSTBroadcastLayer.cc:65-89 | a choice with at least as many links among every prefix of the sorted links is not longer |
| SpanningForest.GreedyIsMinimum | tags/cbcbsim-1.0.2/src/MSTBroadcastLayer.cc:56-89 | the chosen links are a spanning forest of least total length |
| MSTBroadcastLayer.InsertSorted | tags/cbcbsim-1.0.2/src/MSTBroadcastLayer.cc:44-47 | the link goes behind all links that are not longer and before all longer ones, as a multimap keeps them |
| MSTBroadcastLayer.Relabel | tags/cbcbsim-1.0.2/src/MSTBroadcastLayer.cc:78-87 | every node with the root of one end gets the root of the other |
| MSTBroadcastLayer.MSTBroadcastLayer.ComputeForest | tags/cbcbsim-1.0.2/src/MSTBroadcastLayer.cc:56-89 | m_mst holds exactly the links of a spanning forest of least total length |
| MSTBroadcastLayer.MSTBroadcastLayer.ComputePaths | tags/cbcbsim-1.0.2/src/MSTBroadcastLayer.cc:54-109 | the forest is a minimum, every node has its tree, and links and nodes are cleared |
| ForestTrees.Visit | tags/cbcbsim-1.0.2/src/MSTBroadcastLayer.cc:277-294 | the visit ends; it adds exactly what can be reached past the nodes visited before, each with a parent on the way |
| ForestTrees.VisitedIsTree | tags/cbcbsim-1.0.2/src/MSTBroadcastLayer.cc:92-101 | a visit from a root gives a tree of exactly the nodes joined to it, by links of the forest, with children the inverse of parents |
| MSTBroadcastLayer.OneTree | tags/cbcbsim-1.0.2/src/MSTBroadcastLayer.cc:94-100 | the tree of one root |
| MSTBroadcastLayer.MSTBroadcastLayer.TreeAnswered | tags/cbcbsim-1.0.2/src/MSTBroadcastLayer.cc:111-130 | getParent answers a neighbour in the forest for each other node joined to the root and -1 for the rest; getChildren answers just the nodes whose parent the node is |
| ForestTrees.NeighborsAreParentAndChild | tags/cbcbsim-1.0.2/src/MSTBroadcastLayer.cc:282-293 | in the tree of any root two neighbours of the forest are parent and child |
| ForestTrees.HopCount | tags/cbcbsim-1.0.2/src/MSTBroadcastLayer.cc:139-175 | the recursive search ends with the depth of the start in the tree of the goal, or -1 if the part of the forest it may still enter does not lead there |
| MSTBroadcastLayer.HopsInForest | tags/cbcbsim-1.0.2/src/MSTBroadcastLayer.cc:132-137 | the number of parent steps, or -1 exactly if the nodes are not joined |
| MSTBroadcastLayer.MSTBroadcastLayer.GetHopCount | tags/cbcbsim-1.0.2/src/MSTBroadcastLayer.cc:132-175 | the number of getParent steps from one node in the tree of the other, -1 if they are not joined, and the exception for an unknown node |
| DeficitRoundRobin.OneQueuePerContentAndPort | tags/cbcbsim-1.0.2/src/OutputQueue.cc:103-108 | two packets have the same virtual queue exactly if content and port are the same |
| DeficitRoundRobin.NextQueueIsCloser | tags/cbcbsim-1.0.2/src/OutputQueue.cc:165-188 | a turn that sends nothing removes a queue, or brings the queues strictly closer to sending: dequeue ends |
| DeficitRoundRobin.RoundRaisesCounters | tags/cbcbsim-1.0.2/src/OutputQueue.cc:178-196 | the counters rise by a quantum, up to their limit, when the turn comes to the end of the table, and only then |
| DeficitRoundRobin.NewFlowTakesPlace | tags/cbcbsim-1.0.2/src/OutputQueue.cc:101-110 | a new flow takes the place it gets in the table with a fresh queue, the others keep their order, and the turn stays with the same queue |
| DeficitRoundRobin.EnqueueSteps | tags/cbcbsim-1.0.2/src/OutputQueue.cc:103-120 | after an arrival every queue but the current one waits, and the length equals the packet size exactly if the queue was empty |
| FairQueue.FQ.NextQueue | tags/cbcbsim-1.0.2/src/OutputQueue.cc:173-188 | an empty current queue goes, the turn wraps at the end, the counters and the deficit of the new current queue rise |
| FairQueue.FQ.Dequeue | tags/cbcbsim-1.0.2/src/OutputQueue.cc:150-171 | ends, with the state that the specification gives: no queue left, or a departure of a packet that fits its deficit scheduled |
| FairQueue.FQ.Transmit | tags/cbcbsim-1.0.2/src/OutputQueue.cc:132-138 | the head of the current queue leaves, and lengths go down by its size |
| FairQueue.FQ.DequeuePacket | tags/cbcbsim-1.0.2/src/CBCBNode.cc:157-161 | a departure: transmit, then dequeue |
| FairQueue.FQ.Enqueue | tags/cbcbsim-1.0.2/src/OutputQueue.cc:101-130 | a packet that does not overflow goes to the end of its flow, a new flow to any place of the table; the first packet starts service |
| FairQueue.FQ.IncrementCounts | tags/cbcbsim-1.0.2/src/OutputQueue.cc:190-196 | every counter rises by the quantum up to its limit |
| RoundRobinInvariant.EmptyInv | tags/cbcbsim-1.0.2/include/cbcbsim/OutputQueue.h:247-250 | the empty queue satisfies the invariant that all operations keep |
| RoundRobinInvariant.NextQueueKeeps | tags/cbcbsim-1.0.2/src/OutputQueue.cc:173-188 | a turn keeps bounds and accounts |
| RoundRobinInvariant.DequeueKeeps | tags/cbcbsim-1.0.2/src/OutputQueue.cc:150-171 | when the search for a queue that may send ends, exactly one departure is outstanding if there is a packet and none if there is not |
| RoundRobinInvariant.DepartureKeeps | tags/cbcbsim-1.0.2/src/OutputQueue.cc:132-171 | a departure keeps: distinct flows, none empty, length equal to the queued sizes, deficits below a quantum and a packet, and for every flow that quanta visited are bytes scheduled plus deficit lost plus deficit left and packets leave in order |
| RoundRobinInvariant.EnqueueKeeps | tags/cbcbsim-1.0.2/src/OutputQueue.cc:101-130 | an arrival keeps the same |
| Fairness.LeadFollows | tags/cbcbsim-1.0.2/src/OutputQueue.cc:178-187 | when the turn moves on by one place, the lead of one flow over another changes just by the visit |
| Fairness.DequeueKeepsPace | tags/cbcbsim-1.0.2/src/OutputQueue.cc:150-188 | the visits of two flows that stay in the table keep pace through any number of turns |
| Fairness.RunKeepsPace | tags/cbcbsim-1.0.2/src/OutputQueue.cc:101-188 | the same over a whole run of arrivals and departures |
| Fairness.BackloggedIsNotErased | tags/cbcbsim-1.0.2/src/OutputQueue.cc:101-188 | a flow that has its queue before a run and after every event of it was never erased in it |
| Fairness.ServiceIsFair | tags/cbcbsim-1.0.2/include/cbcbsim/OutputQueue.h:232-236 | over any run before which, and after every event of which, both flows have packets, their scheduled bytes differ by less than a quantum and two greatest packets |
| FirstInFirstOut.FIFO.Enqueue | tags/cbcbsim-1.0.2/src/OutputQueue.cc:37-64 | a packet that does not fit is dropped and changes nothing; another goes to the end; one departure is outstanding exactly while there is a packet |
| FirstInFirstOut.FIFO.DequeuePacket | tags/cbcbsim-1.0.2/src/CBCBNode.cc:157-161 | the first packet leaves, in the order of arrival, and the next departure is scheduled if there is one |
| FirstInFirstOut.FIFO.Transmit | tags/cbcbsim-1.0.2/src/OutputQueue.cc:66-82 | the first packet leaves and the length goes down by its size |
| Recency.RoomIsShortest | tags/cbcbsim-1.0.2/src/CacheLRU.cc:75-98 | eviction takes the shortest prefix that makes room |
| Recency.HitKeepsFit | tags/cbcbsim-1.0.2/src/CacheLRU.cc:45-53 | after a hit the store is still the longest run of last used chunks that fits |
| Recency.MissKeepsFit | tags/cbcbsim-1.0.2/src/CacheLRU.cc:75-117 | after an addition the store is still the longest run of last used chunks that fits |
| Recency.StoreIsLongestFit | tags/cbcbsim-1.0.2/src/CacheLRU.cc:35-119 | in every run of searches and additions the store holds the longest run of last used chunks that fits, in order of use |
| Recency.LargerHoldsMore | tags/cbcbsim-1.0.2/src/CacheLRU.cc:60-119 | after the same additions a larger store holds all that a smaller one holds |
| ContentIndex.StoredCountsLiveSlots | tags/cbcbsim-1.0.2/src/CacheLRU.cc:82-94 | stored_chunk is the number of slots that point at a chunk |
| ContentIndex.EvictKeepsStore | tags/cbcbsim-1.0.2/src/CacheLRU.cc:77-98 | evicting any chunk keeps list and entries in step, and the entry of the content being added stays |
| ContentIndex.PutKeepsStore | tags/cbcbsim-1.0.2/src/CacheLRU.cc:113-118 | adding a chunk keeps list and entries in step |
| ContentIndex.MoveKeepsStore | tags/cbcbsim-1.0.2/src/CacheLRU.cc:49-52 | a hit keeps list and entries in step and moves the chunk to the back |
| ContentIndex.SlotTellsStored | tags/cbcbsim-1.0.2/src/CacheLRU.cc:43-47 | a slot points at a chunk exactly if the chunk is stored |
| CacheLRU.CacheLRU.SearchByName | tags/cbcbsim-1.0.2/src/CacheLRU.cc:35-58 | finds exactly the stored chunks; a hit moves the chunk to the back, a miss changes nothing |
| CacheLRU.CacheLRU.MakeRoom | tags/cbcbsim-1.0.2/src/CacheLRU.cc:75-98 | the shortest prefix that makes room is evicted |
| CacheLRU.CacheLRU.AddInCache | tags/cbcbsim-1.0.2/src/CacheLRU.cc:60-119 | the store becomes the recency sequence with the chunk used; never beyond the limit; the answer tells whether it was added |
| CacheRND.CacheRND.SearchByName | tags/cbcbsim-1.0.2/src/CacheRND.cc:34-51 | finds exactly the stored chunks and changes none |
| CacheRND.CacheRND.MakeRoom | tags/cbcbsim-1.0.2/src/CacheRND.cc:70-88 | for every choice of victims: each was stored and went while there was no room; the others stay in order |
| CacheRND.CacheRND.AddInCache | tags/cbcbsim-1.0.2/src/CacheRND.cc:53-106 | for every choice of victims: the chunk is added at the back unless it was there, within the limit, links in step |
| Names.DecimalInjective | tags/cbcbsim-1.0.2/src/PITable.cc:64-66 | two numbers with the same digits are the same |
| Names.ChunkNameInjective | tags/cbcbsim-1.0.2/src/PITable.cc:64-66 | two chunks have the same table key only if content and number are the same |
| Names.FlowNameInjective | tags/cbcbsim-1.0.2/src/OutputQueue.cc:103-104 | two flows have the same table key only if content and port are the same |
| PendingEntries.LinkedInsert | tags/cbcbsim-1.0.2/src/PITable.cc:69-74 | a new entry keeps both orders linked, and the order of expiry sorted |
| PendingEntries.LinkedWithout | tags/cbcbsim-1.0.2/src/PITable.cc:180-182 | taking an entry out of both orders keeps them linked |
| PendingEntries.FlowBalance | tags/cbcbsim-1.0.2/src/PITable.cc:119-174 | wherever recorded, waiting, expired and answered interests balance, data sent on an interface for a chunk does not exceed the interests recorded from it |
| PendingEntries.LeavesOnce | tags/cbcbsim-1.0.2/src/PITable.cc:176-197 | each recorded interest is in exactly one place: the table, the expired ones, or the answered ones |
| PendingEntries.AnsweredFacts | tags/cbcbsim-1.0.2/src/PITable.cc:136-172 | nothing goes back to the interface of arrival; without filtering, or for chunk 0, at most one interest is answered, the one that asked |
| PendingEntries.AnswersAskerAlone | tags/cbcbsim-1.0.2/src/PITable.cc:142-150 | without filtering, or for chunk 0, data answers the first entry of its issue time and port that is not of the interface of arrival, and no other |
| PendingEntries.AnswersNobody | tags/cbcbsim-1.0.2/src/PITable.cc:142-152 | without such an entry it answers nobody |
| PendingEntries.AnswersExactly | tags/cbcbsim-1.0.2/src/PITable.cc:128-172 | an entry of the range is answered exactly if it may be and no entry before it ends the search |
| PendingEntries.AnswersAllRemoteIff | tags/cbcbsim-1.0.2/src/PITable.cc:128-172 | with filtering, data answers every other interface that waits if and only if no local entry for its port stands before one of them in the range |
| PendingEntries.LocalEntryStopsAnswers | tags/cbcbsim-1.0.2/src/PITable.cc:154-168 | a local process and interface 1 wait for a chunk: its data from interface 2 answers the process alone |
| PendingEntries.AnswersAllRemote | tags/cbcbsim-1.0.2/src/PITable.cc:154-172 | in particular, data that no local process waits for answers every other interface |
| PendingEntries.RemoveAllMembers | tags/cbcbsim-1.0.2/src/PITable.cc:176-183 | exactly the answered entries leave |
| PITable.PITable.PITClean | tags/cbcbsim-1.0.2/src/PITable.cc:185-197 | exactly the entries whose time has come go |
| PITable.PITable.Lookup | tags/cbcbsim-1.0.2/src/PITable.cc:84-91 | the live entries of just this chunk; no expired entry is left |
| PITable.PITable.Scan | tags/cbcbsim-1.0.2/src/PITable.cc:49-61 | whether the interest is matched, whether it is recorded, and until when |
| PITable.PITable.RecordInterest | tags/cbcbsim-1.0.2/src/PITable.cc:34-82 | the interest goes on exactly if GoesOn says so: a remote one if nothing is filtered, or it is for chunk 0, or no live entry has its content and chunk; a local one if no live entry for the chunk has its port; all entries of a chunk keep one period |
| PITable.MatchedUnlessGoesOn | tags/cbcbsim-1.0.2/src/PITable.cc:44-61 | what is found in the range of the chunk is the same condition on the table |
| PITable.RequestRecords | tags/cbcbsim-1.0.2/src/PITable.cc:34-82 | expired entries go; every remote interest, and a local one that goes on, gets an entry with its fields, valid as long as the first entry of the chunk if it is filtered and else for a period; nothing else changes |
| PITable.PITable.ConsumePITEntry | tags/cbcbsim-1.0.2/src/PITable.cc:176-183 | the entry leaves both orders and is answered |
| PITable.PITable.ProcessOut | tags/cbcbsim-1.0.2/src/PITable.cc:119-174 | the answered entries leave and give the matches in their order; one period per chunk is kept |
| PITable.DataAnswers | tags/cbcbsim-1.0.2/src/PITable.cc:119-174 | an entry of the table is answered exactly if it waits for the chunk, may be answered, and no such entry before it ends the search: with filtering every other remote one and the local one of the port, else the one of issue time and port |
| PITable.DataAnswersInOrder | tags/cbcbsim-1.0.2/src/PITable.cc:119-174 | the answered entries come in the order of the table |
| PITRuns.SentNeverExceedsRecorded | tags/cbcbsim-1.0.2/src/PITable.cc:34-197 | in every run of interests, data and cleanings, data sent on an interface for a chunk never exceeds the interests recorded from it |
| PITRuns.GoesOnAgainOnlyAfter | tags/cbcbsim-1.0.2/src/PITable.cc:34-82 | in every run with filtering a remote interest for a chunk that an interest has gone on for goes on only after the period of that one has ended or data has answered it |
| PITable.AnsweredLeave | tags/cbcbsim-1.0.2/src/PITable.cc:119-183 | an entry is left after data exactly if it was there and was not answered |
| PITable.PeriodKept | tags/cbcbsim-1.0.2/src/PITable.cc:51-59 | under filtering all entries of a chunk expire one period after the last interest that went on |
| Windows.EventsKeepWindow | tags/cbcbsim-1.0.2/src/ICP.cc:109-137 | no event closes a window or puts a chunk in two places of it |
| Windows.TimedOutMoves | tags/cbcbsim-1.0.2/src/FlowControllerAIMD.cc:10-22 | a timeout moves the chunk to the reissue map and no other |
| Windows.FullWindowGrows | tags/cbcbsim-1.0.2/src/ICP.cc:109-118 | as many answers in time as the window has chunks make it larger by one; fewer do not |
| Windows.OtherAnswersDoNotCount | tags/cbcbsim-1.0.2/src/ICP.cc:64-106 | an answer to a chunk whose timer ran out, or that was not asked for, does not count |
| Windows.TimeoutHalves | tags/cbcbsim-1.0.2/src/ICP.cc:120-137 | the exact condition for a timeout to halve the window |
| Windows.HalvesOncePerTimer | tags/cbcbsim-1.0.2/src/ICP.cc:120-137 | however many timeouts come within a timer of a halving, the window keeps its size |
| ICP.ICP.IncreaseWin | tags/cbcbsim-1.0.2/src/ICP.cc:109-118 | one more answer; a full window grows by one |
| ICP.ICP.DecreaseWin | tags/cbcbsim-1.0.2/src/ICP.cc:120-137 | halves the window, if that leaves one and enough time has passed and the estimate is settled |
| ICP.ICP.ReceiverTO | tags/cbcbsim-1.0.2/src/FlowControllerAIMD.cc:10-22 | the chunk moves from the window to the reissue map |
| ICP.ICP.ReceivedChunk | tags/cbcbsim-1.0.2/src/ICP.cc:64-106 | the chunk leaves the reissue map, or the window, which then may grow |
| ICP.ICP.TimedOutChunk | tags/cbcbsim-1.0.2/src/FlowControllerAIMD.cc:34-43 | the chunk of least number to be reissued |
| Download.TimeoutKeeps | tags/cbcbsim-1.0.2/src/SocketManager.cc:149-179 | a timeout keeps every chunk in exactly one place |
| Download.ArrivalKeepsIff | tags/cbcbsim-1.0.2/src/SocketManager.cc:98-128 | data keeps every chunk in exactly one place if and only if it comes on the interface that asked for it or the chunk is there already |
| Download.ArrivalElsewhere | tags/cbcbsim-1.0.2/src/SocketManager.cc:98-128 | chunk 1 is in the window of the first interface and its data comes on the second: afterwards it is received and still in that window |
| Download.FirstRequestKeeps | tags/cbcbsim-1.0.2/src/SocketManager.cc:214-239 | a first request keeps every chunk in exactly one place |
| Download.ReissueKeeps | tags/cbcbsim-1.0.2/src/SocketManager.cc:211-239 | a reissued request keeps every chunk in exactly one place |
| SocketManager.SocketManager.constructor | tags/cbcbsim-1.0.2/src/Socket.cc:33-58 | every chunk starts as not requested |
| SocketManager.SocketManager.ReceivedDescription | tags/cbcbsim-1.0.2/src/SocketManager.cc:87-91 | chunk 0 is marked received and goes to no window; the partition is kept |
| SocketManager.SocketManager.SelectChunk | tags/cbcbsim-1.0.2/src/Socket.cc:65-94 | a chunk never asked for, if there is one, the least unless the order is random; only received chunks are taken off the list on the way |
| SocketManager.SocketManager.ReceivedChunk | tags/cbcbsim-1.0.2/src/SocketManager.cc:83-134 | the chunk leaves the window of the interface, is received and counted once; every chunk stays in one place exactly if that window asked for it, or it was received, or the interface has no window |
| SocketManager.SocketManager.ReceiverTO | tags/cbcbsim-1.0.2/src/SocketManager.cc:149-179 | only the window of the interface changes, by the timeout; too many requests abort |
| SocketManager.SocketManager.RequestOne | tags/cbcbsim-1.0.2/src/SocketManager.cc:190-241 | exactly one chunk more in the window, with the time of its first request: the least to be reissued if there is one, else a new one; none only if there is nothing left to ask for |
| SocketManager.SocketManager.GetInterestedChunk | tags/cbcbsim-1.0.2/src/SocketManager.cc:181-245 | a round fills no window beyond the greater of its size and what it held, and one that is not full has nothing left to ask for; the answer lists exactly the chunks that entered the windows, each once |
| SocketManager.SocketManager.RequestedChunk | tags/cbcbsim-1.0.2/src/Socket.cc:96-102 | the request is counted and the partition kept |
| SocketManager.SocketManager.Completed | tags/cbcbsim-1.0.2/include/cbcbsim/SocketManager.h:99 | with fewer chunks than the period of the chunk size, or as many and one counted, the answer is true exactly if all chunks are received |
| FileSize.CompletionTest | tags/cbcbsim-1.0.2/include/cbcbsim/SocketManager.h:99 | comparing sizes in 32 bits tells completion at every count from 0 if and only if the file has fewer chunks than the period of their size |
| FileSize.CompletionTestAfterData | tags/cbcbsim-1.0.2/src/CCNxNode.cc:189-200 | the source compares only after data: at every count from 1 the comparison is right if and only if the file has no more chunks than the period of their size |
| FileSize.CompleteAfterFirst | tags/cbcbsim-1.0.2/include/cbcbsim/SocketManager.h:99 | 65537 chunks of 65536 bits look complete after the first one |
| FileSize.EmptyLooksComplete | tags/cbcbsim-1.0.2/include/cbcbsim/SocketManager.h:99 | 65536 chunks of 65536 bits look complete when nothing has arrived |
| FileSize.Multiples | tags/cbcbsim-1.0.2/include/cbcbsim/SocketManager.h:99 | a number of chunks has size 0 in k bits exactly if it is a multiple of the period |
| CBCBNode.CBCBNode.UpdateRouteTable | tags/cbcbsim-1.0.2/src/CBCBNode.cc:477-512 | the entry becomes its union with the predicate and no other entry changes; the answer tells whether it changed, and is true for every advertisement to one destination |
| CBCBNode.CBCBNode.ProcessRA | tags/cbcbsim-1.0.2/src/CBCBNode.cc:465-475 | the entry of the sender covers the predicate, and each child gets the advertisement once |
| CBCBNode.CBCBNode.PropagateSR | tags/cbcbsim-1.0.2/src/CBCBNode.cc:666-695 | exactly the children with a predicate that are not quiet are asked, and noted as respondees unless the node is the issuer |
| CBCBNode.CBCBNode.ProcessSR | tags/cbcbsim-1.0.2/src/CBCBNode.cc:515-532 | the request goes on, or a node with nobody to ask answers its parent |
| CBCBNode.CBCBNode.ProcessUR | tags/cbcbsim-1.0.2/src/CBCBNode.cc:534-584 | the issuer takes the predicate; another node collects it, and answers its parent when the last respondee has answered |
| RoutingNode.UnexpectedAnswer | tags/cbcbsim-1.0.2/src/CBCBNode.cc:553-558 | an answer of a round that the node does not know changes nothing |
| RoutingNode.RequestsAddUp | tags/cbcbsim-1.0.2/src/CBCBNode.cc:687-691 | a second request of a round drops no respondee and nothing collected, and leaves other rounds alone |
| Advertisement.AnyMessageCanArrive | tags/cbcbsim-1.0.2/src/CBCBNode.cc:643-658 | no run gets stuck |
| Advertisement.FloodEnds | tags/cbcbsim-1.0.2/src/CBCBNode.cc:643-658 | a run has fewer arrivals than the tree has nodes |
| Advertisement.FloodOnlyAdds | tags/cbcbsim-1.0.2/src/CBCBNode.cc:477-512 | in the end each entry has what it had before, the entries for the parents the predicate as well, and nothing else has changed |
| Advertisement.FloodsAddUp | tags/cbcbsim-1.0.2/src/CBCBNode.cc:465-512 | after two floods, of one issuer or of two, every node leads toward each issuer with its predicate |
| Advertisement.FloodReachesAll | tags/cbcbsim-1.0.2/src/CBCBNode.cc:465-512 | every node beyond the issuer gets the advertisement exactly once, and its entry toward the issuer covers the predicate |
| Advertisement.RouteLeadsToIssuer | tags/cbcbsim-1.0.2/src/CBCBNode.cc:477-512 | following entries that cover the predicate leads from any node to the issuer |
| Convergecast.GoalSplits | tags/cbcbsim-1.0.2/src/CBCBNode.cc:563-577 | what a node should answer is its own predicate and what the children it asks should answer |
| Convergecast.RequestStep | tags/cbcbsim-1.0.2/src/CBCBNode.cc:515-532 | a request arrives once at a node and keeps the invariant of the round |
| Convergecast.AnswerStep | tags/cbcbsim-1.0.2/src/CBCBNode.cc:534-584 | an answer is the first of its node, its parent waits for it or is the issuer, and the invariant is kept |
| Convergecast.RoundEnds | tags/cbcbsim-1.0.2/src/CBCBNode.cc:515-584 | a round has at most two arrivals for each node |
| Convergecast.AnyMessageCanArrive | tags/cbcbsim-1.0.2/src/CBCBNode.cc:515-584 | no run gets stuck |
| Convergecast.AnswersComeLast | tags/cbcbsim-1.0.2/src/CBCBNode.cc:563-581 | at any moment a node has sent one answer at most, and by then all children that it asked have sent theirs and they arrived |
| Convergecast.AsksWanted | tags/cbcbsim-1.0.2/src/CBCBNode.cc:666-681 | a node asks exactly the children that it has some filter for and that are not quiet |
| Convergecast.RequestsSent | tags/cbcbsim-1.0.2/src/CBCBNode.cc:666-695 | in the end the request has gone from a node to another, once, exactly if it reached the node, the other is a child of it, and the node had some filter for it and not too few messages |
| Convergecast.EveryNodeAnswersOnce | tags/cbcbsim-1.0.2/src/CBCBNode.cc:515-584 | in the end every node that the request reached has answered its parent exactly once and is as before |
| Convergecast.IssuerKnowsAll | tags/cbcbsim-1.0.2/src/CBCBNode.cc:541-547 | in the end the issuer has for each neighbour it asked the union of the local predicates of the nodes that the request reached through it |
| Crandom.Rnd32 | tags/cbnsim-1.1.3/Crandom.cc:37-48 | 16807 times the seed modulo 2147483647, a seed again, with every step in signed 32 bits |
| Crandom.Bijection | tags/cbnsim-1.1.3/cbnsim/Crandom.h:45-51 | each seed has exactly one successor and one predecessor, the latter by the multiplier 1407677000 |
| Crandom.Injective | tags/cbnsim-1.1.3/cbnsim/Crandom.h:45-51 | different seeds have different successors |

## Left out

- `FQ::drop` reads `max_flow` before it is assigned (`tags/cbcbsim-1.0.2/src/OutputQueue.cc:218-232`) and
  `VirtualQueue::drop` does not lower the length, so the fair queue is modelled for packets that do not overflow it.
- FirstInFirstOut.FIFO.Enqueue: asks for a positive size; the source starts service when the length equals the size of
  the packet that came, which packets of size 0 would make true more than once.
- FairQueue.FQ.Enqueue: asks that the packet fits and has a positive size, because of the drop just mentioned.
- `FQ::dec_count`: the counter for another algorithm, an easy member.
- Event loop, timers and packet delivery of the simulator: events are counted, or are messages of a pool.
- Times that the stores and the receiver record for statistics, averages of queue lengths and of windows.
- The set of missing chunks of the receiver, which only statistics use.
- Rehashing of hash tables, which invalidates the iterators that the source keeps.
- DBL_MAX as a distance, rounding of lengths: distances are reals.
- SPTsBroadcastLayer.SPTsBroadcastLayer.ComputePaths: asks for ids 0 to n-1 added in order before the links, because the
  search for alternative paths uses node ids as process ids, and for positive lengths between distinct nodes, because
  parents are taken from different rows, which need not choose alike among paths that are equally short.
- SPTsBroadcastLayer.SPTsBroadcastLayer.ComputeAlternativePaths: asks for the same ids, and for no negative length, as
  the search for shortest paths needs.
- SPTsBroadcastLayer.FindPath: asks for the same.
- SPTsBroadcastLayer.SPTsBroadcastLayer.ComputeTrees: asks for no negative length.
- MSTBroadcastLayer.MSTBroadcastLayer.ComputeForest: asks that the ends of every link were added as nodes, as
  ComputePaths does.
- MSTBroadcastLayer.MSTBroadcastLayer.ComputePaths: asks that the ends of every link were added as nodes; the source
  would give any other end a root label of its own making.
- CacheLRU.CacheLRU.AddInCache: asks for one size of each chunk, one number of chunks of each content, chunk numbers
  within it and a chunk that fits the store, because the source indexes and loops without checking them.
- CacheRND.CacheRND.AddInCache: asks for the same.
- CacheLRU.CacheLRU.SearchByName: asks for the one size of the chunk and a number within its content, for the
  same reason.
- CacheRND.CacheRND.SearchByName: asks for the same.
- SocketManager.SocketManager.ReceivedChunk: asks for chunks of one size, as the comparison of sizes does.
- SocketManager.SocketManager.constructor: asks for a positive limit of requests, since with a limit of 0 no chunk is
  ever selected, and for a window of at least one chunk.
- CBCBNode.CBCBNode.ProcessUR: asks that the sender is a respondee where the node waits for answers, because the source
  erases an element it may not have found; AnswerStep shows that it always is.
- A round of requests runs on predicates that no advertisement changes meanwhile; rounds of different numbers are
  kept apart by their numbers and are not run together.
- Advertisements along alternative paths (destination other than -1), which follow getNext.
- The forwarding table built from the routing table, matching, load balancing and message delivery.
- CBR, RAQM and RAQMsource controllers, the node variants with coding, parsers, options, collectors and printing.
- `registration_time` of the pending Interest table, a minimum over the same range.
- The other distributions of the generator, which use floating point functions.
