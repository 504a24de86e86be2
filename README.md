# K-mer graph engine — a Dafny model

This project models the k-mer graph of the pandora genotyper, from
`src/kmergraph.cpp`. The graph is a directed acyclic graph of k-mer nodes:

- **Nodes.** Each node carries an id, a Path (the k-mer's coordinates), two
  coverage counts, an A/T tag, a hash and its in- and out-adjacency lists.
- **Sink.** The last node of the vector is the sink.
- **Building.** A builder adds nodes, which are deduplicated by Path, and
  edges that go from a smaller to a larger Path.
- **Sorting.** The vector is sorted by Path and every node is renumbered with
  its position.
- **Decoding.** The graph runs a backward greedy dynamic program: each node
  follows the successor with the best mean log-probability per edge and adds
  its own log-probability. Following these choices from the source gives a
  path to the sink. The graph also computes a cached path length from the
  source.
- **Files.** The graph is saved to, and loaded from, a line-oriented file of
  segment and link lines.
- **Equality.** The graph has an equality operator.

**Representation.**

- **Arena.** The original owns heap nodes linked by pointers. Here the nodes
  live in an arena `seq<KmerNode<P>>` at stable handles, and the graph's node
  vector is a `seq` of handles. Sorting permutes handles and leaves the
  adjacency lists alone, as sorting a vector of pointers does.
- **Class.** The graph object is the class `KmerGraphs.KmerGraph`, whose
  methods update its fields in place.
- **Module-level functions.** The read-only algorithms are module-level
  functions, or methods proved against such functions:
  - `Consistency` holds the consistency check;
  - `TopoSort` holds the sort and the renumbering;
  - `Probability` holds the coverage model;
  - `SuccessorLists` and `Decoder` hold the dynamic program;
  - `PathLength` holds the cached length;
  - `Equality` holds the equality operator;
  - `Serialisation` holds save and load at record level.
- **Paths.** The Path type is a type parameter with its strict order `less`
  and its length `pathLength`.

**Behaviour of the code worth knowing**, which the model keeps:

- **Score.** `find_max_path` returns `M[0] / len[0]`, where `len[0]` counts
  every edge from the source to the sink. This is the summed log-probability
  of node 0 and the interior nodes divided by `|maxpath| + 1`. It is not the
  mean of the interior nodes' probabilities. Node 0's probability is 0 by
  `prob`.
- **Greedy choice.** `find_max_path` compares successors by their own mean
  `M[s] / len[s]`, so the path it returns need not have the highest mean of
  all walks from the source. With source successors 1 (mean -2 over the walk
  1, 2, sink) and 3 (mean -2.5 straight to the sink), it returns 1, 2 with
  score -4 / 3, although the walk through 3 has mean -2.5 / 2
  (`Decoder.GreedyNotBestMean`).
- **Calibration.** The loop of `discover_p` runs over positions n-1 down to
  1. It therefore includes the sink and is not limited to interior nodes.
- **Check.** `check` exempts nodes by their ids (`id == 0`,
  `id == size - 1`), not by their positions.
- **Cached length.** `min_path_length` keeps the larger successor length, so
  it computes the number of edges of a longest walk from node 0. The cache is
  consulted whenever it is non-zero. Nothing clears it when nodes or edges are
  added.
- **Equality.** `operator==` is not symmetric. Each node is compared with the
  first node of the other graph that has the same Path, so a graph with a
  duplicated Path can equal one without it while the converse fails
  (`Equality.EqualityNotSymmetric`).
- **Read count.** Segment lines write the read count from coverage slot 1, and
  loading stores it in coverage slot 0.
- **Loading.** `load` appends to the current graph. It does not clear the
  graph first, and it neither deduplicates nodes nor suppresses duplicate
  edges.

## Model

| member | source | states |
|---|---|---|
| KmerNodes.FirstWithPath | src/kmergraph.cpp:51-53 | the search finds the first position whose node has the Path; no earlier node has it; None exactly when no node has it |
| KmerNodes.AppendNodeWellFormed | src/kmergraph.cpp:55 | pushing a fresh edgeless node keeps the vector a permutation of the arena with edges in range and mirrored |
| KmerNodes.LinkNodesLists | src/kmergraph.cpp:98-99 | linking appends t to f's out-list and f to t's in-list, and changes nothing else in any node |
| KmerNodes.LinkNodesWellFormed | src/kmergraph.cpp:366-367 | an unconditional link keeps the graph well formed (out- and in-lists stay mirrored as multisets) |
| KmerNodes.WithEdgeIdempotent | src/kmergraph.cpp:96-101 | after adding an edge it is present in both lists, and adding it again changes nothing (duplicates are suppressed) |
| KmerNodes.WithEdgeKeeps | src/kmergraph.cpp:106-117 | adding an edge keeps the graph well formed, keeps Paths and ids, and keeps every edge Path-increasing when the new one is |
| KmerGraphs.KmerGraph.constructor | src/kmergraph.cpp:17-25 | a new graph is empty with next id 0, no reads, no cached length, k = 0 and p = 1 |
| KmerGraphs.KmerGraph.Clear | src/kmergraph.cpp:32-45 | clearing empties the graph and resets every counter to its initial value |
| KmerGraphs.KmerGraph.FindByPath | src/kmergraph.cpp:92-93 | returns the position of the first node with the Path, or None |
| KmerGraphs.KmerGraph.AddNode | src/kmergraph.cpp:47-70 | an existing Path returns its node and changes nothing; a new Path appends a node with the next id, increments the id counter and fixes k; the graph stays valid, and distinct Paths and ids-as-positions are kept |
| KmerGraphs.NodeAppended | src/kmergraph.cpp:55-62 | appending a node for an absent Path keeps the graph well formed, keeps Paths distinct and ids equal to positions, and keeps every Path of length k |
| KmerGraphs.KmerGraph.AddNodeWithKh | src/kmergraph.cpp:72-79 | as AddNode, then the node's hash and A/T tag are set; nothing else changes |
| KmerGraphs.NodeStamped | src/kmergraph.cpp:74-76 | stamping a node's hash and tag keeps the graph well formed with distinct Paths and ids as positions |
| KmerGraphs.KmerGraph.AddEdgeByPath | src/kmergraph.cpp:84-104 | equal Paths return with the graph unchanged; otherwise it locates both endpoints by Path and adds the edge once in both lists; ids, Paths and Path-increasing edges are kept |
| KmerGraphs.KmerGraph.AddEdge | src/kmergraph.cpp:106-117 | adds the edge between two nodes once in both lists; ids, Paths and Path-increasing edges are kept |
| KmerGraphs.EdgeAdded | src/kmergraph.cpp:96-101 | adding a Path-increasing edge keeps the graph well formed, keeps k fixed and keeps Paths, ids and increasing edges |
| Consistency.CheckEdges | src/kmergraph.cpp:129-133 | passes exactly when every remaining out-edge increases in Path and id; a failure names a real offending edge |
| Consistency.CheckNodes | src/kmergraph.cpp:125-134 | passes exactly when every remaining node is consistent; a failure is exhibited by some node of the graph |
| Consistency.Check | src/kmergraph.cpp:119-136 | passes exactly when the node count matches (or 0 is expected) and every node has an in-edge unless its id is 0, an out-edge unless its id is the last, and only increasing out-edges; a failure is a real violation |
| Consistency.ScanEdges | src/kmergraph.cpp:129-133 | the loop over a node's out-edges computes CheckEdges |
| Consistency.ScanNodes | src/kmergraph.cpp:125-134 | the loop over the nodes computes CheckNodes |
| KmerGraphs.KmerGraph.Check | src/kmergraph.cpp:119-136 | the check's outcome is Consistency.Check of the graph |
| TopoSort.InsertByPath | src/kmergraph.cpp:140 | inserting a handle into a Path-sorted list gives a sorted list holding one more copy of it |
| TopoSort.SortByPath | src/kmergraph.cpp:140 | the sorted vector is a permutation of the input, sorted by Path |
| TopoSort.Renumber | src/kmergraph.cpp:142-145 | renumbering sets each node's id to its position and changes no other field |
| TopoSort.SortedPositions | src/kmergraph.cpp:140 | in a Path-sorted vector a smaller Path sits at a smaller position |
| TopoSort.SortedEdgesForward | src/kmergraph.cpp:138-147 | after sorting and renumbering, every Path-increasing edge is also id-increasing |
| TopoSort.SortedEnds | src/kmergraph.cpp:138-147 | once ids are positions and increase along every edge, node 0 has no in-edges and the last node has no out-edges |
| KmerGraphs.IdsRewritten | src/kmergraph.cpp:142-145 | rewriting only ids keeps well-formedness, k, uniform length, increasing edges and sortedness |
| KmerGraphs.SortAndRenumber | src/kmergraph.cpp:138-147 | the vector becomes a Path-sorted permutation of itself and every id its node's new position, with no other field changed; Path-increasing edges become id-increasing, node 0 then has no in-edges and the last node no out-edges |
| KmerGraphs.KmerGraph.SortTopologically | src/kmergraph.cpp:138-147 | the vector becomes a Path-sorted permutation of itself, ids become positions and nothing else in any node changes; Path-increasing edges become id-increasing, and then node 0 has no in-edges and the last node no out-edges |
| Probability.Prob | src/kmergraph.cpp:149-164 | the probability of the first and last positions is 0; otherwise the over-coverage and normal branches |
| Probability.ProbAtZeroCoverage | src/kmergraph.cpp:159-161 | an interior node without coverage has the likelihood of numReads misses |
| Probability.Collected | src/kmergraph.cpp:178-184 | the collected totals are all above the coverage floor of 4 |
| Probability.CollectTotals | src/kmergraph.cpp:177-184 | the loop from position n-1 down to 1 collects exactly Collected |
| Probability.EstimateP | src/kmergraph.cpp:169-195 | p is the fallback with 40 reads or fewer, or when no node is above the floor; otherwise it is the mean collected total divided by the read count |
| Probability.RecalibratedMeanAboveFloor | src/kmergraph.cpp:180-193 | the mean of totals that each exceed 4 exceeds 4, so a recalibrated p exceeds 4 / numReads |
| KmerGraphs.KmerGraph.DiscoverP | src/kmergraph.cpp:166-197 | p becomes exp(-eRate k) with at most 40 reads; otherwise the mean of the collected coverages over the read count, or exp(-eRate k) if none is above the floor; nothing else changes |
| SuccessorLists.SuccessorIds | src/kmergraph.cpp:217-225 | each node's successor list has one id per out-edge |
| SuccessorLists.SuccessorIdsForward | src/kmergraph.cpp:213-225 | on a sorted, renumbered graph every successor id is higher than its node's position and in range |
| Decoder.MeanOf | src/kmergraph.cpp:220 | M / len is a number exactly when len > 0 (0 / 0 is NaN) |
| Decoder.ChooseFrom | src/kmergraph.cpp:217-236 | the scan's final choice is the starting one or one of the scanned successors |
| Decoder.Choose | src/kmergraph.cpp:215-236 | a node's choice, when it has one, is one of its successors |
| Decoder.ScanSuccessors | src/kmergraph.cpp:215-236 | the inner loop leaves M, len and prev at the node as the scan's choice prescribes and every other entry unchanged |
| Decoder.NodeSolved | src/kmergraph.cpp:213-239 | once a node takes its scan's choice, the recurrence holds from that node to the sink |
| Decoder.ExtractPath | src/kmergraph.cpp:241-248 | following prev from node 0 collects the interior nodes in increasing order, each linked to the next, the last pointing at the sink |
| Decoder.Decode | src/kmergraph.cpp:207-251 | the tables are a fixed point of the recurrence, the path is the prev chain from node 0 and the score is M[0] / len[0] |
| Decoder.SolvedPrevForward | src/kmergraph.cpp:209-225 | in solved tables every prev pointer is in range and points to a higher index |
| Decoder.ChosenHasLength | src/kmergraph.cpp:219-234 | a node with a choice points at the sink or at a node that has a choice itself |
| Decoder.SuffixValues | src/kmergraph.cpp:223-224 | along the extracted path, len counts the remaining edges and M sums the remaining probabilities |
| Decoder.DecodedScore | src/kmergraph.cpp:241-251 | with a choice at node 0, len[0] = path length + 1 and M[0] = prob[0] + the path's probabilities; without one the path is empty and the score is NaN |
| Decoder.ChooseClearWinner | src/kmergraph.cpp:219-221 | a successor whose mean beats every other by more than the tolerance is chosen |
| Decoder.ChooseTieBreak | src/kmergraph.cpp:221 | between two successors of equal mean, the longer continuation is chosen, and the earlier one on equal length |
| Decoder.ChainLinksBeforeSink | src/kmergraph.cpp:241-248 | every node of the extracted path but the last links by prev to a node before the sink, so the path ends at the first node whose prev is the sink |
| Decoder.GreedyNotBestMean | src/kmergraph.cpp:207-251 | on successors 1 -> 2 -> sink and 3 -> sink of the source, the decoded path is [1, 2] with score -4 / 3, below the mean -2.5 / 2 of the walk through 3 |
| Decoder.StraightLine | src/kmergraph.cpp:199-252 | on the straight line source, a, b, c, sink the path is [a, b, c], len[0] = 4 and M[0] sums the four probabilities |
| KmerGraphs.BestPath | src/kmergraph.cpp:207-251 | solves the dynamic program on the graph's successor ids and node probabilities and appends the nodes of the prev chain to the given path |
| KmerGraphs.KmerGraph.FindMaxPath | src/kmergraph.cpp:199-252 | calibrates p as DiscoverP does, then returns the given path followed by the nodes of the chain from node 0 in solved tables, and the score M[0] / len[0]; the graph is unchanged |
| PathLength.LongestPathLengths | src/kmergraph.cpp:275-285 | the backward loop computes, for every node, the edge count of a longest walk to a node without successors |
| PathLength.LongestAtMost | src/kmergraph.cpp:275-285 | a longest walk from j has at most n - 1 - j edges |
| PathLength.LongestBoundsWalks | src/kmergraph.cpp:276-285 | every walk from a node has at most Longest edges |
| PathLength.LongestAttained | src/kmergraph.cpp:276-285 | some walk from the node to a node without successors has exactly Longest edges |
| KmerGraphs.KmerGraph.MinPathLength | src/kmergraph.cpp:268-288 | a non-zero cached value is returned unchanged; otherwise the longest walk length from node 0 is computed and cached |
| Serialisation.LinksFor | src/kmergraph.cpp:298-301 | one link line per out-edge |
| Serialisation.NodeRecords | src/kmergraph.cpp:297-301 | a node's block is its segment line followed by one link line per out-edge |
| Serialisation.AppendNodeRecords | src/kmergraph.cpp:297-301 | writing a node appends exactly its block |
| KmerGraphs.KmerGraph.Save | src/kmergraph.cpp:290-304 | the file is the header followed by the nodes' blocks in vector order |
| Serialisation.SavedCounts | src/kmergraph.cpp:294-302 | the saved blocks hold one segment line per node and one link line per out-edge |
| Serialisation.SavedLinksInRange | src/kmergraph.cpp:298-301 | every saved link names two node positions of a renumbered graph |
| Serialisation.SavedFile | src/kmergraph.cpp:290-304 | the file has as many segment lines as nodes, as many link lines as edges, and loadable links |
| Serialisation.LoadSegments | src/kmergraph.cpp:318-347 | the segment pass appends one node per segment line, keeps the existing nodes and keeps the vector in range |
| Serialisation.LoadLinks | src/kmergraph.cpp:351-369 | the link pass keeps the arena size |
| Serialisation.SegmentPass | src/kmergraph.cpp:318-347 | the first-pass loop computes LoadSegments and the next id is the new node count |
| Serialisation.LinkPass | src/kmergraph.cpp:351-369 | the second-pass loop computes LoadLinks |
| Serialisation.LoadLinksKeepsNodes | src/kmergraph.cpp:366-367 | the link pass changes only adjacency lists |
| Serialisation.LoadSegmentsWellFormed | src/kmergraph.cpp:318-347 | the segment pass keeps the graph well formed and ids equal to positions |
| Serialisation.LoadLinksWellFormed | src/kmergraph.cpp:366-367 | the link pass keeps the graph well formed |
| Serialisation.LoadWellFormed | src/kmergraph.cpp:306-375 | loading keeps the graph well formed and ids equal to positions |
| KmerGraphs.LoadSegmentsKFixed | src/kmergraph.cpp:332-335 | k stays 0 only while every Path is empty during the segment pass |
| KmerGraphs.LoadKFixed | src/kmergraph.cpp:332-335 | the same holds after both passes |
| KmerGraphs.KmerGraph.Load | src/kmergraph.cpp:306-375 | the graph becomes the two passes applied to the old graph, the id counter advances by the segment count and the graph stays valid |
| Serialisation.LoadSaved | src/kmergraph.cpp:290-375 | loading a saved graph into an empty one gives node i = the i-th node with its Path and out-edges by id, the read count moved from slot 1 to slot 0, and slot 1 zero |
| Serialisation.RelabelledEqual | src/kmergraph.cpp:377-407 | a graph and its relabelling by id are equal in both directions when Paths are distinct |
| Serialisation.SaveLoadRoundTrip | src/kmergraph.cpp:290-375 | save followed by load into an empty graph gives a well-formed graph equal to the original in both directions, with each node at its old position under its old id and Path |
| Serialisation.SavedLinksForward | src/kmergraph.cpp:290-365 | in a graph whose ids are positions and increase along edges, every saved link has '+' in both orientation columns, so load adds it as written, from the smaller id to the larger |
| KmerGraphs.SaveLoadKeepsK | src/kmergraph.cpp:290-375 | when every non-empty Path has length k, save followed by load gives k back if some Path is non-empty, and 0 if all are empty |
| Equality.HasPath | src/kmergraph.cpp:399-401 | the search of a matched node's out-neighbours finds the Path exactly when one carries it |
| KmerGraphs.KmerGraph.Equals | src/kmergraph.cpp:377-407 | true exactly when the node counts agree and every node is matched by the first node of the other graph with its Path, with equal degrees and every out-neighbour's Path found |
| Equality.EqualUpToOrder | src/kmergraph.cpp:377-407 | two graphs with the same nodes in any vector order are equal when Paths are distinct |
| Equality.DuplicatedMatched | src/kmergraph.cpp:384-392 | the graph with Path 1 twice equals the graph with Paths 1 and 2 |
| Equality.SpreadUnmatched | src/kmergraph.cpp:387-392 | the graph with Paths 1 and 2 does not equal the graph with Path 1 twice |
| Equality.EqualityNotSymmetric | src/kmergraph.cpp:377-407 | equality holds one way between those two graphs and fails the other way |

## Left out

- File and stream I/O are not modelled. Save returns, and load takes, the sequence of records. The following are left out with it:
  - the error on an unopenable file and the exit;
  - line splitting and `stoi`;
  - the textual form of a Path;
  - the header's text and the `0M` column.
- `save_covg_dist` and `operator<<` are diagnostic text output and are not modelled.
- Console output is not modelled: the calibration message and the commented-out traces.
- `kmernode.cpp`, `kmernode.h` and the Path class are not part of this model. Node equality is taken to be Path equality, as `condition` and the add_node search use it. The Path order is a parameter.
- Floating point is not modelled:
  - values are real numbers, without single-precision rounding;
  - `log(0.005)` is the constant -5.2983174;
  - `exp`, `log` and `lognchoosek2` are parameters;
  - `1/exp(x)` is written `exp(-x)`.
- The 32-bit wrap-around of `uint` counters and of `j-1` is not modelled.
- Memory allocation, `delete` and the `reserve` hint are not modelled.
- KmerGraphs.KmerGraph.SortTopologically: requires `less` to be a strict total order. `std::sort` is modelled by an insertion sort, so the order it gives to nodes with equal Paths need not be the one `std::sort` gives.
- KmerGraphs.KmerGraph.FindMaxPath: requires a sorted, renumbered graph in which edges increase in id, because the source indexes its tables by successor id.
- KmerGraphs.KmerGraph.MinPathLength: requires the same as FindMaxPath when the cache is empty. The staleness of the cache after later edits is kept, not corrected.
- KmerGraphs.KmerGraph.Load: requires that segment ids equal the positions the nodes take, which the source asserts. It also requires every link to name loaded nodes; the source does not check this and indexes past the end.
- Serialisation.SaveLoadRoundTrip: the loaded graph does not keep the coverage in slot 0 or the hash. Slot 0 is overwritten by slot 1, and the hash is not saved. Apart from ids and Paths, the lemma states equality under the equality operator, which compares Paths and edges. k is stated separately by KmerGraphs.SaveLoadKeepsK. The lemma also requires distinct Paths, for the equality part only: `operator==` matches each node with the first node carrying its Path, so with a duplicated Path the round trip can fail to compare equal (`Equality.EqualityNotSymmetric`). Ids and Paths come back without that requirement, as `Serialisation.LoadSaved` states.
- The check's failure is an outcome value, not process termination: the assertion, its message and the abort are not modelled.
