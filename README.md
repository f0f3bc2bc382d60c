# Node efficiency of an unweighted graph, in Dafny

The node_efficiency programs read an undirected, unweighted graph from an
`.edgelist` file. N, the number of nodes, comes from the file name. For every
node i they compute the efficiency

    eff(i) = ( sum over j != i reached from i of 1 / d(i, j) ) / (N - 1)

Here d(i, j) is the hop distance found by a breadth-first search. The programs
write the list of efficiencies to a `.eff` file. There are four programs:
- a sequential one with a fixed-size frontier buffer;
- a sequential one with a `std::list` FIFO;
- an OpenMP one;
- an MPI one.

A fifth, `node_eff.cpp`, only builds and prints the adjacency lists.

This project models the engine they share:

- **Graph** (`graph.dfy`):
  - the adjacency lists built from the edge list;
  - the flattened `[src0, dest0, src1, dest1, ...]` form that the MPI program broadcasts and rebuilds from;
  - the neighbour-pair listing of `node_eff.cpp`.
- **Paths** (`paths.dfy`): hop distance as a specification. `Within` means "reachable in at most k steps", `Distance` is the least such k, and `INT_MAX` marks a node that cannot be reached.
- **Frontier** (`frontier.dfy`): both `breadth_first_search` variants as methods on the `visited` and `dist` arrays. The fixed-size queue is an array; the `std::list` queue is a sequence. Each loop step is a lemma about sequence snapshots of `queue`, `visited` and `dist`.
- **Efficiency** (`efficiency.dfy`):
  - the per-node reduction, over `real`, in the programs' summation order;
  - its bounds and special cases;
  - the efficiency list of a graph.
- **Partition** (`partition.dfy`): the MPI `counts`/`displs` split of [0, N) and the `MPI_Gatherv` placement at the root.
- **FileNames** (`filenames.dfy`):
  - the `_` split of the file name;
  - `stoi` of field 2;
  - the `.eff` and `_mpi_.time` output names.
- **PathGraph** (`pathgraph.dfy`): the path 0 - 1 - ... - (N−1) for every N. Node 0 reaches node j at distance j, so its efficiency is (1 + 1/2 + ... + 1/(N−1)) / (N − 1).
- **Engine** (`engine.dfy`): each program's main loop as a sequential simulation. The OpenMP loop runs in any order of the iterations; the MPI program runs a loop over the ranks and then the gather. All four are proved to return `EfficiencyList(Adjacency(N, edges), N)`, so they agree.

Three edge cases, as the code handles them:
- **N = 1.** The formula divides by N − 1, which is undefined for N = 1. The code never evaluates that division: the only j is i itself, so no term is added and the result is 0 (`NothingReachedNodeEff`).
- **N = 0.** The code does not reject a node count of 0: every loop is empty and the list is empty. The model allows N = 0 too.
- **Summation order.** The code adds the terms in ascending j, not in the order the search discovers the nodes. `PartialEff` follows the code; over `real` the order does not change the value.

## Model

| member | source | states |
|---|---|---|
| Graph.Adjacency | node_eff_sequential_array.cpp:105-115 | Reading the edges in file order into N empty lists gives exactly N lists. |
| Graph.AddEdge | node_eff_sequential_array.cpp:113-114 | The two `push_back`s of one edge keep the number of lists at N. |
| Graph.AddEdgeEffect | node_eff_sequential_array.cpp:113-114 | One edge changes only its two endpoints' lists: dest goes onto src's list, then src onto dest's, and a self-loop adds u to its own list twice. |
| Graph.BuildAdjacency | node_eff_sequential_array.cpp:105-115 | The `push_back` loop yields `Adjacency(N, edges)`, and every neighbour is a node id in [0, N). |
| Graph.AdjacencyIsOpposites | node_eff.cpp:43-53 | List u holds the opposite endpoint of every edge touching u, in file order, with no deduplication; a self-loop (u, u) adds u twice. |
| Graph.AdjacencyEntryCount | node_eff_sequential_list.cpp:99-109 | E edges give 2E list entries in total. |
| Graph.AdjacencyIsGraph | node_eff_parallel_array_openmp.cpp:105-116 | With endpoints in [0, N), the lists form a graph on [0, N). |
| Graph.OppositesInRange | node_eff.cpp:46-53 | Every opposite endpoint of an in-range edge is a node id. |
| Graph.TotalEntriesAppend | node_eff.cpp:51-52 | One `push_back` adds one entry. |
| Graph.EmptyListsHaveNoEntries | node_eff.cpp:43 | N fresh lists hold no entries. |
| Graph.Flat | node_eff_parallel_array_mpi.cpp:146-153 | The flat list holds two entries per edge. |
| Graph.FlatLayout | node_eff_parallel_array_mpi.cpp:146-153 | The flat list alternates src and dest: it has 2E entries, with entry 2k the source and entry 2k+1 the destination of edge k. |
| Graph.Unflat | node_eff_parallel_array_mpi.cpp:165-168 | Reading back takes `flat.size() / 2` pairs; an odd last entry is dropped. `FlatRoundTrip` proves it inverts `Flat`. |
| Graph.FlatRoundTrip | node_eff_parallel_array_mpi.cpp:146-171 | Reading the pairs (flat[2i], flat[2i+1]) back gives the original edges. |
| Graph.FlatOfUnflat | node_eff_parallel_array_mpi.cpp:165-171 | An even-length flat list is the flattening of the pairs read from it. |
| Graph.FlattenEdges | node_eff_parallel_array_mpi.cpp:146-153 | The root's `push_back` loop builds the flat list; its length is even and its pairs are the edges. |
| Graph.RebuildAdjacency | node_eff_parallel_array_mpi.cpp:165-171 | Each rank's rebuild loop over `flat.size() / 2` pairs gives the adjacency lists of the pairs read. |
| Graph.BroadcastRebuildAgrees | node_eff_parallel_array_mpi.cpp:155-171 | Rebuilding from the broadcast flat list gives the same lists as building from the edges directly. |
| Graph.PairsBelowContents | node_eff.cpp:54-56 | The pairs printed for nodes below u are exactly the (x, y) with x < u and y in list x; there are as many as those lists' entries. |
| Graph.TotalEntriesSnoc | node_eff.cpp:54-56 | The entry count of the first u + 1 lists is that of the first u lists plus the length of list u. |
| Graph.NeighbourPairs | node_eff.cpp:54-56 | The nested print loop lists (i, adj[i][j]) with i ascending, then in list order: exactly the adjacency pairs, one per entry. |
| Graph.PrintedPairCount | node_eff.cpp:46-56 | After E edges the listing prints 2E pairs. |
| Paths.WithinMonotone | node_eff_sequential_array.cpp:33-65 | A node reachable in j steps is reachable in any k >= j steps. |
| Paths.ShortestExists | node_eff_sequential_array.cpp:33-65 | A node reachable in k steps has a shortest distance of at most k. |
| Paths.ShortestUnique | node_eff_sequential_array.cpp:33-65 | The shortest distance is unique. |
| Paths.Distance | node_eff_sequential_array.cpp:33-65 | A reachable node gets its shortest hop count; any other node gets `INT_MAX`. |
| Paths.DistanceZeroIsSource | node_eff_sequential_array.cpp:44-45 | The source is at distance 0 and no other node is. |
| Paths.DistanceRow | node_eff_sequential_array.cpp:124-125 | The row a BFS leaves in an `INT_MAX`-filled `dist` has N entries: 0 at the source, and `INT_MAX` or at least 1 elsewhere. |
| Paths.IsolatedReachesOnlyItself | node_eff_sequential_array.cpp:53-63 | From a node with an empty list, only the node itself is reachable. |
| Paths.WithinInRange | node_eff_sequential_array.cpp:53-63 | Every node reachable from a node in [0, N) is in [0, N). |
| Frontier.CountTrueNone | node_eff_sequential_array.cpp:41 | `visited(N, false)` marks no node. |
| Frontier.CountTrueMark | node_eff_sequential_array.cpp:56-58 | Marking an unvisited node adds one to the visited count, which was below N. |
| Frontier.CountTrueAtMostLength | node_eff_sequential_array.cpp:41 | At most N nodes are ever visited. |
| Frontier.Start | node_eff_sequential_array.cpp:43-46 | After seeding with src, the frontier invariant holds with `pos = 0` and `next_empty = 1`. |
| Frontier.Room | node_eff_sequential_array.cpp:56-61 | While some node is unvisited, `next_empty < N`: the write `queue[next_empty]` stays inside the buffer. |
| Frontier.DiscoveredIsShortest | node_eff_sequential_array.cpp:56-59 | A neighbour first seen from `node` is at shortest distance `dist[node] + 1`. |
| Frontier.Enqueue | node_eff_sequential_array.cpp:58-61 | Marking, setting `dist` and appending a node keeps the invariant. The invariant says: the queue is exactly the visited nodes, each once; it starts at src; its `dist` values are shortest and non-decreasing; unvisited nodes keep their old `dist`. |
| Frontier.Discover | node_eff_sequential_array.cpp:56-62 | The then-branch for an unvisited neighbour advances the inner loop invariant. |
| Frontier.Skip | node_eff_sequential_array.cpp:56 | A visited neighbour is passed over with the state unchanged. |
| Frontier.Visit | node_eff_sequential_array.cpp:53-63 | One inner iteration on either branch keeps the inner invariant, and the neighbour is a valid index. |
| Frontier.Expanded | node_eff_sequential_array.cpp:53-63 | After the inner loop, the node's neighbours are all visited and the outer invariant holds. |
| Frontier.VisitedCoversLevel | node_eff_sequential_array.cpp:48-64 | When every visited node closer than `level` is expanded, every node within `level` hops is visited. |
| Frontier.QueueInvDistancesCorrect | node_eff_sequential_array.cpp:56-59 | Under the invariant, every visited node's `dist` is its shortest distance. |
| Frontier.ScanningClosedBelow | node_eff_sequential_array.cpp:48-64 | While `node` is being expanded, every visited node nearer than it has been expanded. |
| Frontier.Done | node_eff_sequential_array.cpp:48-64 | When `pos == next_empty`: the visited nodes are exactly the reachable ones, each with `dist` equal to its distance (below N), and the rest keep their old `dist`. |
| Frontier.ExpandNode | node_eff_sequential_array.cpp:50-63 | Expanding one node keeps `next_empty <= N` and the outer invariant. |
| Frontier.BreadthFirstSearch | node_eff_sequential_array.cpp:33-65 | `dist[src] = 0`; every reachable node gets its hop distance, less than N; every other entry keeps the caller's value. |
| Frontier.ExpandNodeFifo | node_eff_sequential_list.cpp:45-56 | Expanding the popped node keeps the FIFO equal to the not-yet-popped part of everything pushed, and keeps the invariant. |
| Frontier.BreadthFirstSearchFifo | node_eff_sequential_list.cpp:33-59 | The `std::list` search has the same result as the buffer search: `dist[src] = 0`, hop distances for reachable nodes, others unchanged. Each node is pushed at most once, so at most N pushes happen (loop invariant, not part of the ensures). |
| Efficiency.Term | node_eff_sequential_array.cpp:131-133 | A term is never negative. It is positive exactly when j != i and j was reached. |
| Efficiency.PartialEff | node_eff_sequential_array.cpp:128-135 | The accumulator after any number of iterations is non-negative. Its bounds and its normalised-sum form are proved in `PartialEffBounds` and `PartialEffIsNormalisedSum`. |
| Efficiency.NodeEff | node_eff_sequential_array.cpp:128-135 | Node i's efficiency for a dist row is non-negative. `NodeEffBounds` bounds it by 1, and `NodeEffIsNormalisedSum` proves it is the sum of reciprocal distances over N − 1. |
| Efficiency.NodeEfficiency | node_eff_parallel_array_openmp.cpp:137-146 | The private `eff` loop returns the node's efficiency for its dist row. |
| Efficiency.AccumulateEfficiency | node_eff_sequential_array.cpp:128-135 | `eff_list[i] +=` in place adds the node's efficiency to `eff_list[i]` and leaves every other entry alone. |
| Efficiency.TermBounds | node_eff_sequential_array.cpp:130-133 | A term lies between 0 and 1/(N − 1), and is 0 for j = i or for an `INT_MAX` entry. |
| Efficiency.CapCount | node_eff_sequential_array.cpp:128-135 | The term bound summed over j < k is (k − 1)/(N − 1) once k has passed i, and k/(N − 1) before. |
| Efficiency.PartialEffBounds | node_eff_sequential_array.cpp:128-135 | After j iterations the accumulator lies between 0 and that bound. |
| Efficiency.CapTotal | node_eff_sequential_array.cpp:133 | Over all N iterations the bound is exactly 1. |
| Efficiency.NodeEffBounds | node_eff_sequential_array.cpp:117-135 | Every efficiency lies in [0, 1]; this includes N = 1. |
| Efficiency.NothingReachedPartialEff | node_eff_sequential_array.cpp:130-133 | With no other node reached, no term is ever added. |
| Efficiency.NothingReachedNodeEff | node_eff_sequential_array.cpp:117-135 | A node that reaches no other node has efficiency 0; with N = 1 no division is evaluated and the result is 0. |
| Efficiency.TermIsScaledReciprocal | node_eff_sequential_array.cpp:133 | Helper for `PartialEffIsNormalisedSum`: unfolds a term into the reciprocal distance divided by N − 1. |
| Efficiency.PartialEffIsNormalisedSum | node_eff_sequential_array.cpp:128-135 | The running sum of the terms equals the sum of reciprocal distances divided by N − 1. |
| Efficiency.NodeEffIsNormalisedSum | node_eff_sequential_array.cpp:128-135 | The efficiency is the sum of 1/d(i, j) over the reached j != i, divided by N − 1. |
| Efficiency.AllAdjacentReciprocalSum | node_eff_sequential_array.cpp:130-133 | With every other node at distance 1, the reciprocal sum over j < k counts the j != i. |
| Efficiency.AllAdjacentNodeEff | node_eff_sequential_array.cpp:128-135 | A row with every other node at distance 1 has efficiency 1. |
| Efficiency.DistanceRowIsDistRow | node_eff_sequential_array.cpp:124-125 | Helper for `EfficiencyOf`: the distance row has the shape the reduction needs, with no 0 outside the source. |
| Efficiency.EfficiencyOf | node_eff_sequential_array.cpp:123-136 | Node i's efficiency, computed from its BFS row, lies in [0, 1]. |
| Efficiency.EfficiencyList | node_eff_sequential_array.cpp:117-136 | `eff_list` has N entries; entry i is node i's efficiency, in [0, 1]. |
| Efficiency.IsolatedNodeEfficiency | node_eff_parallel_array_openmp.cpp:118-147 | A node with an empty adjacency list has efficiency 0. |
| Efficiency.UniversalNodeEfficiency | node_eff_parallel_array_openmp.cpp:139-147 | A node adjacent to every other node, with N >= 2, has efficiency 1. |
| Efficiency.DistanceIs | node_eff_sequential_array.cpp:33-65 | A node at a known shortest distance d has `Distance` d. `BreadthFirstSearch` proves that the search writes `Distance`, so this is the value the worked example reads. |
| Efficiency.PathAdjacency | node_eff_sequential_array.cpp:105-115 | The edges "0 1", "1 2" on N = 3 give the lists [[1], [0, 2], [1]]. |
| Efficiency.EndOfPathRow | node_eff_sequential_array.cpp:124-125 | On the path 0 - 1 - 2, the BFS row from an end is [0, 1, 2] (from 0) or [2, 1, 0] (from 2). |
| Efficiency.EndOfPath | node_eff_sequential_array.cpp:128-135 | An end of that path has efficiency (1 + 1/2)/2 = 0.75. |
| Efficiency.PathOfThree | node_eff_sequential_array.cpp:105-136 | The path 0 - 1 - 2 on N = 3 gives the efficiency list [0.75, 1, 0.75]. |
| PathGraph.PathEdges | node_eff_sequential_array.cpp:105-115 | The edge list "0 1", "1 2", ..., "N−2 N−1" has N − 1 edges, all inside [0, N). |
| PathGraph.Harmonic | node_eff_sequential_array.cpp:128-135 | H(m) = 1 + 1/2 + ... + 1/m, never negative. |
| PathGraph.OppositesOfSteps | node_eff_sequential_array.cpp:113-114 | When every edge goes from s to s + 1, node u's list holds only u − 1 and u + 1. |
| PathGraph.OppositesHasDest | node_eff_sequential_array.cpp:113 | An edge (u, w) puts w into u's list. |
| PathGraph.PathNeighbours | node_eff_sequential_array.cpp:105-115 | On the path, node u's neighbours are among u − 1 and u + 1, and u + 1 is one of them when u + 1 < N. |
| PathGraph.WithinAtMost | node_eff_sequential_array.cpp:48-64 | From node 0 of the path, nothing beyond node k is reached within k hops. |
| PathGraph.WithinWalk | node_eff_sequential_array.cpp:48-64 | Node v < N is reached from node 0 within v hops. |
| PathGraph.PathWithin | node_eff_sequential_array.cpp:33-65 | Node v is within k hops of node 0 exactly when v <= k, for every v < N and every k. |
| PathGraph.PathDistance | node_eff_sequential_array.cpp:33-65 | The search from node 0 finds node j at distance j. |
| PathGraph.PathRow | node_eff_sequential_array.cpp:124-126 | Node 0's distance row is 0, 1, ..., N − 1. |
| PathGraph.StepsReciprocalSum | node_eff_sequential_array.cpp:128-135 | Over that row, the reciprocals of the first k distances sum to H(k − 1). |
| PathGraph.PathEndEfficiency | node_eff_sequential_array.cpp:105-136 | For every N >= 2, node 0 of the path has efficiency H(N − 1) / (N − 1). |
| Partition.QuotientRemainder | node_eff_parallel_array_mpi.cpp:187-188 | The recursive q and r satisfy N = q·N_proc + r with 0 <= r < N_proc. |
| Partition.DivisionUnique | node_eff_parallel_array_mpi.cpp:187-188 | Such q and r are `N / N_proc` and `N % N_proc`. |
| Partition.DivisionParts | node_eff_parallel_array_mpi.cpp:187-188 | The q and r used by `counts` are the program's `N / N_proc` and `N % N_proc`. |
| Partition.Count | node_eff_parallel_array_mpi.cpp:187-190 | Every rank's count is q or q + 1, where q is `N / N_proc` by `DivisionParts`. |
| Partition.Displ | node_eff_parallel_array_mpi.cpp:191-192 | displs[k] is the running sum of counts[0 .. k). It has no ensures of its own; its closed form is `DisplShares`/`DisplClosedForm`. |
| Partition.Counts | node_eff_parallel_array_mpi.cpp:185-190 | `counts` has N_proc entries. |
| Partition.Displs | node_eff_parallel_array_mpi.cpp:185-192 | `displs` has N_proc entries. |
| Partition.DisplClosedForm | node_eff_parallel_array_mpi.cpp:187-192 | displs[k] = k·q + min(k, r). |
| Partition.DisplShares | node_eff_parallel_array_mpi.cpp:189-192 | The same closed form over the recursive q and r. |
| Partition.CountsSumToN | node_eff_parallel_array_mpi.cpp:185-192 | The counts sum to N. |
| Partition.DisplMonotone | node_eff_parallel_array_mpi.cpp:191-192 | displs is non-decreasing, so the ranges come in rank order. |
| Partition.OwnerBelow | node_eff_parallel_array_mpi.cpp:191-202 | Every node below displs[k] is in the range of some rank below k. |
| Partition.PartitionCovers | node_eff_parallel_array_mpi.cpp:179-202 | The ranges [displs[k], displs[k] + counts[k]) cover [0, N) exactly once: every node has exactly one owner, and nothing outside [0, N) has one. |
| Partition.Balanced | node_eff_parallel_array_mpi.cpp:179-190 | Range sizes differ by at most one, and the larger ones come first. |
| Partition.ElevenOnFour | node_eff_parallel_array_mpi.cpp:179-183 | 11 nodes on 4 ranks give counts [3, 3, 3, 2] and displs [0, 3, 6, 9]. |
| Partition.Distribute | node_eff_parallel_array_mpi.cpp:185-192 | The `fill_n`/`fill`/`partial_sum` computation yields `Counts(N, N_proc)` and `Displs(N, N_proc)`. |
| Partition.Displacements | node_eff_parallel_array_mpi.cpp:191-192 | `displs[0] = 0` plus `partial_sum` over the counts yields `Displs`. |
| Partition.Place | node_eff_parallel_array_mpi.cpp:220-222 | Placing a buffer at displ writes exactly [displ, displ + size) and leaves the rest of the root's list unchanged. |
| Partition.Gathered | node_eff_parallel_array_mpi.cpp:219-222 | The gather keeps the root list's length N. |
| Partition.GatheredPrefix | node_eff_parallel_array_mpi.cpp:220-222 | After ranks 0 .. k−1 are placed, the list up to displs[k] is their buffers concatenated and the rest is untouched. |
| Partition.GatherIsConcat | node_eff_parallel_array_mpi.cpp:220-222 | The full gather is the ranks' buffers concatenated in rank order. |
| Partition.RangeInBounds | node_eff_parallel_array_mpi.cpp:202 | Each rank's range lies inside [0, N). |
| Partition.Range | node_eff_parallel_array_mpi.cpp:202 | Rank k's piece of a list has exactly counts[k] entries. |
| Partition.Ranges | node_eff_parallel_array_mpi.cpp:202-217 | Cutting a list into the ranks' ranges gives buffers of sizes counts[k]. |
| Partition.ConcatOfRanges | node_eff_parallel_array_mpi.cpp:202-222 | Concatenating the pieces of ranks below k gives the list up to displs[k]. |
| Partition.GatherOfRanges | node_eff_parallel_array_mpi.cpp:202-222 | When each rank sends its range's piece of a list, the gather reproduces that list whatever the root's buffer held. |
| FileNames.Split | node_eff_sequential_array.cpp:88-93 | The `_`-separated fields of the name, read with `getline` until the stream is exhausted: always at least one field. |
| FileNames.FieldEnd | node_eff_sequential_array.cpp:91 | One `getline(..., '_')` stops at the first `_`, or at the end when there is none. |
| FileNames.SplitCount | node_eff_sequential_array.cpp:85-95 | A name with k underscores splits into k + 1 fields, empty ones included. |
| FileNames.SplitFieldsClean | node_eff_sequential_array.cpp:88-93 | No field contains `_`. |
| FileNames.SplitJoin | node_eff_sequential_array.cpp:88-93 | Joining the fields with `_` gives the name back. |
| FileNames.JoinSplit | node_eff_sequential_array.cpp:88-93 | Fields without `_`, once joined, split back into themselves. |
| FileNames.UnderscoresSplit | node_eff_sequential_array.cpp:91 | Consuming the first separator removes exactly one `_`. |
| FileNames.SplitFirst | node_eff_sequential_array.cpp:91-92 | The split is the first field followed by the split of what comes after its `_`. |
| FileNames.SplitAdvance | node_eff_sequential_list.cpp:82-88 | One `getline` reads name[start .. stop), and the next read starts after the `_`. |
| FileNames.SplitStep | node_eff_sequential_list.cpp:82-88 | The fields pushed so far, followed by the split of the unread rest, are the whole split. |
| FileNames.NextSeparator | node_eff_parallel_array_mpi.cpp:114 | The scan stops at the next `_` or at the end, passing no `_`. |
| FileNames.SplitFileName | node_eff_parallel_array_mpi.cpp:108-116 | The `while (s_stream.good())` loop builds `Split(name)`; a trailing `_` yields a last, empty field. |
| FileNames.LeadingDigits | node_eff_sequential_array.cpp:95 | The longest all-digit prefix of the field. |
| FileNames.Stoi | node_eff_sequential_array.cpp:95 | `stoi` gives a value in [0, `INT_MAX`], and fails on a field that does not start with a digit. |
| FileNames.Decimal | node_eff_sequential_array.cpp:85 | A rendered N is a non-empty digit string. |
| FileNames.DecimalValue | node_eff_sequential_array.cpp:95 | Reading back the digits of a rendered number gives the number. |
| FileNames.AllLeadingDigits | node_eff_sequential_array.cpp:95 | A digit string is read entirely. |
| FileNames.StoiDecimal | node_eff_sequential_array.cpp:95 | `stoi` of any rendered N in [0, `INT_MAX`] gives N back. |
| FileNames.NodeCount | node_eff_sequential_array.cpp:95 | `N = stoi(split_file_name[2])` is, when it succeeds, in [0, `INT_MAX`]. |
| FileNames.NodeCountOfName | node_eff.cpp:29-39 | For a name "a_b_N_rest" whose parts hold no `_`, N is read from field 2. |
| FileNames.Find | node_eff_sequential_array.cpp:100 | `find` returns the first occurrence of the pattern, or `npos` when there is none. |
| FileNames.PrefixBefore | node_eff_sequential_array.cpp:101 | `substr(0, pos)` is a prefix of the string, all of it when pos is `npos`. |
| FileNames.EffFileName | node_eff_sequential_array.cpp:98-102 | The output name ends in ".eff" after a prefix of the input name. |
| FileNames.EffFileNameParts | node_eff_sequential_array.cpp:98-102 | The `.eff` name is the input up to its first `.`, plus ".eff"; with no `.` it is the whole input plus ".eff". |
| FileNames.FindAppended | node_eff_parallel_array_mpi.cpp:126 | In base + pattern, where base holds no occurrence and the pattern's first character does not recur in it, the first occurrence is at the end of base. |
| FileNames.NoStraddle | node_eff_parallel_array_mpi.cpp:126 | Such a pattern cannot be found starting inside base and running into the appended copy. |
| FileNames.MpiFileNames | node_eff_parallel_array_mpi.cpp:120-131 | The two names share one base, a prefix of the input; the first ends in ".eff" and the second in "_mpi_.time". |
| FileNames.MpiFileNamesParts | node_eff_parallel_array_mpi.cpp:125-130 | With no ".edgelist" in the name, the base is the whole name. Otherwise it is the part before the first ".edgelist". Each base gets ".eff" and "_mpi_.time" appended. |
| FileNames.MpiNamesOfEdgelist | node_eff_parallel_array_mpi.cpp:122-131 | "<base>.edgelist", with no ".edgelist" inside base, gives "<base>.eff" and "<base>_mpi_.time". |
| FileNames.EffNamesAgree | node_eff_parallel_array_mpi.cpp:125-129 | On "<base>.edgelist" the sequential `.eff` name equals the MPI one exactly when base has no `.`. |
| FileNames.NoDotEffName | node_eff_sequential_array.cpp:98-102 | With no `.` in base, the sequential name of "<base>.edgelist" is "<base>.eff". |
| FileNames.DotEffNameShorter | node_eff_sequential_array.cpp:98-102 | A `.` inside base makes the sequential name of "<base>.edgelist" shorter than "<base>.eff". |
| FileNames.FirstDot | node_eff_sequential_array.cpp:100 | A string with a `.` has a first `.`. |
| Engine.SearchedRow | node_eff_sequential_array.cpp:124-125 | Helper for `DistancesFrom`/`DistancesFromFifo`: turns the search's ensures into equality with the distance row. |
| Engine.DistancesFrom | node_eff_parallel_array_openmp.cpp:135-136 | `dist_from_src(N, INT_MAX)` followed by the buffer search yields the distance row. |
| Engine.DistancesFromFifo | node_eff_sequential_list.cpp:119-120 | The same holds for the FIFO search. |
| Engine.RowEfficiency | node_eff_sequential_array.cpp:123-136 | Helper for the four program loops: unfolds `EfficiencyOf` as the reduction of the distance row. |
| Engine.SequentialArray | node_eff_sequential_array.cpp:104-136 | The sequential array program's `eff_list` is `EfficiencyList(Adjacency(N, edges), N)`. |
| Engine.SequentialList | node_eff_sequential_list.cpp:99-130 | The list program's `eff_list` is the same list. |
| Engine.OpenMp | node_eff_parallel_array_openmp.cpp:105-148 | Running the iterations in any order that covers every node gives the same list; each iteration writes only `eff_list[i]`. |
| Engine.FlatInRange | node_eff_parallel_array_mpi.cpp:146-153 | Helper for `Mpi`: supplies the range precondition of `RebuildAdjacency`, that every flat entry is a node id. |
| Engine.RankEfficiencies | node_eff_parallel_array_mpi.cpp:202-217 | A rank's `partial_eff_list` has `counts[rank]` entries; entry t is the efficiency of node `displs[rank] + t`. |
| Engine.Gather | node_eff_parallel_array_mpi.cpp:219-222 | Placing each rank's buffer at its displacement, rank by rank, is the gather. |
| Engine.Mpi | node_eff_parallel_array_mpi.cpp:135-222 | Flatten, broadcast, rebuild, the rank loops and the gather give the same list as the sequential programs. |

## Left out

- File and console I/O: reading the edge file line by line, `ofstream` output with `setprecision(6) fixed`, `cout` messages, and the exit codes 1 and 2 for a wrong argument count or an unopenable file. The model takes N and the edge sequence as inputs.
- `chrono` timing and the `_mpi_.time` file's contents. They are instrumentation; only the time file's name is modelled.
- The MPI runtime: `MPI_Init`/`MPI_Finalize`, rank and size queries, and the transport of `MPI_Bcast`/`MPI_Gatherv`. Broadcast is modelled as every rank holding the root's flat list. Gather is modelled as placement at `displs[k]`, and the ranks run one after another.
- OpenMP threads, `num_threads` (read with `stoi(argv[2])`) and scheduling. The loop runs sequentially in an arbitrary order of the iteration indices, which stands in for every schedule because iterations write distinct slots and read only shared read-only data.
- Floating point. Efficiencies are `real`, so the rounding of `1. / dist[j] / (N - 1)` and of the summation is not modelled.
- FileNames.Stoi: reads only an unsigned leading digit string. It does not model leading whitespace, a sign (so no negative N) or the exception `stoi` throws. A field with no leading digit or a value above `INT_MAX` gives None.
- Edge endpoints outside [0, N), and names with fewer than three `_`-separated fields, are preconditions. The programs do not check them and such inputs are undefined behaviour in C++.
- N itself is a precondition bounded by `INT_MAX` (`n <= IntMax`), as the C++ `int` is. Hop distances stay below N, so `dist[node] + 1` never overflows.
- compare-expected-trab-1.cpp, bach_process.py and log_interpreter.py are not part of this model: they are a tolerance-based file comparison, a batch driver and a plotting script.
