# Graph loading, sampling and unit-weight distances, in Dafny

This project models the graph core of a small Rust program that reads edge
lists, samples them and computes hop distances. It has three parts.

- **Distances.** `dijkstra` works over a directed adjacency map
  `HashMap<usize, Vec<usize>>`. Every known node starts at a `usize::MAX`
  sentinel and the start at 0. A min-heap of `(distance, node)` entries is then
  drained. Stale entries are skipped. Each neighbour that is more than one hop
  further than its parent is lowered and pushed. Module `Algorithm`.
- **Tolerant directed reader.** The per-line loop of
  `preprocess_graph_with_sampling`:
  - it skips a leading run of `#` lines;
  - it ignores lines that are not exactly two tokens, or whose tokens are not
    both `usize`;
  - for every other line it records `source -> target` and gives `target` an
    entry of its own;
  - it finally keeps a random choice of keys.

  Module `GraphData`.
- **Strict loader, induced-edge sampler and writer.**
  - `load_graph` turns every two-token line into an edge and panics on a bad
    number.
  - `sample_graph` keeps the edges whose endpoints were both sampled.
  - `save_graph` writes one `u v` line per edge.

  Module `GraphPreprocessing`.

Three shared modules support them:

- `Text`: whitespace splitting as `split_whitespace` does it, `usize` parsing
  and printing, and the shape of an edge line.
- `Graphs`: the adjacency map, its node set, and paths.
- `Collections`: `Min`, plus generic facts about sequences and set sizes.

## How the model reads the code

- A file is a `seq<string>` of lines. Writing a file produces such a sequence.
- The strict loader's `unwrap` panic is a `Failure` that carries the index of
  the offending line. Lines after it are never read.
- A random choice is a caller-supplied set.
  - `choose_multiple` picks `min(k, n)` distinct items. The `requires` clauses
    say exactly that, and nothing more.
- Distances are `Inf | Fin(hops)`. `Inf` is the `usize::MAX` sentinel.
  - The code's guards compare against `usize::MAX`. The model compares against
    `Inf`.
  - These agree because every finite distance stays below the number of nodes
    (`Algorithm.Dijkstra`). So no finite distance reaches the sentinel, and
    `current_distance + 1` cannot overflow.
- The heap is a sequence with a pop-minimum in `(distance, node)` order, which
  is the order `BinaryHeap<Reverse<(usize, usize)>>` pops in.
  - No proof depends on that order.
  - `Algorithm.ResultIsUnique` shows that any order gives the same result.
- Termination is proved with a lexicographic measure. It consists of two
  parts:
  - the set of pairs `(v, k)`, `k < n`, whose recorded distance still exceeds
    `k`;
  - the heap's length.

  Each relaxation removes a pair. Each pop that relaxes nothing shortens the
  heap.
- The repository's test for an unknown start expects the result to be empty or
  to lack the start. The code instead records the start at 0 and every known
  node at the sentinel. The model follows the code (`Algorithm.Dijkstra`) and
  records the disagreement under Findings.
- `main.rs` calls `algorithm::load_graph`, `sample_connected_nodes`,
  `generate_edge_list` and `bfs`. `algorithm.rs` defines none of them, so
  `main.rs` is not part of this model. Those functions are not modelled.

## Model

| member | source | states |
|---|---|---|
| Algorithm.InitialDistances | project-code/src/algorithm.rs:12-24 | every key, every listed neighbour and the start get an entry; the start is at 0 and every other node at the sentinel |
| Algorithm.PopMin | project-code/src/algorithm.rs:29 | the popped entry is a least `(distance, node)` entry, and the heap loses exactly that one entry |
| Algorithm.RelaxNeighbours | project-code/src/algorithm.rs:41-53 | after the neighbour loop, each neighbour's distance is the smaller of its old distance and the popped distance plus one. Every other node keeps its distance. The heap keeps its old entries as a prefix. After them it gains exactly one `(distance + 1, neighbour)` entry for each neighbour that was lowered, and no other entry. `changed` is set exactly when something was lowered |
| Algorithm.PushAllExact | project-code/src/algorithm.rs:42-51 | pushing along the neighbour list keeps the old heap as a prefix. Every appended entry is at distance + 1 and names a listed neighbour that this lowered. The appended nodes are pairwise distinct, and every lowered neighbour appears among them, even when the list repeats a node |
| Algorithm.RelaxAllExact | project-code/src/algorithm.rs:42-50 | relaxing a list of neighbours, in any order and with repeats, lowers each listed node to `min(old, d + 1)` and leaves every other node and the key set unchanged |
| Algorithm.SkipKeepsInvariant | project-code/src/algorithm.rs:31-38 | skipping a stale entry, or a node without a neighbour list, preserves the loop invariant |
| Algorithm.RelaxKeepsInvariant | project-code/src/algorithm.rs:40-53 | relaxing a current entry preserves the loop invariant, and either strictly shrinks the termination measure or leaves distances and the rest of the heap unchanged |
| Algorithm.LoweringShrinksExcess | project-code/src/algorithm.rs:47-49 | lowering distances, one of them strictly and to a value below the node count, strictly shrinks the termination measure |
| Algorithm.InitialInvariant | project-code/src/algorithm.rs:24-27 | the initial distances with the single heap entry `(0, start)` satisfy the loop invariant |
| Algorithm.Dijkstra | project-code/src/algorithm.rs:8-57 | the loop terminates. Keys are all nodes plus the start, and the start is at 0. Every edge out of a reached key is relaxed. Every finite distance other than the start's is one more than a predecessor's, and below the node count. Every distance is finite exactly for reachable nodes and equals the shortest path length |
| Algorithm.ClosestPredecessorIsOneHop | project-code/src/algorithm.rs:43-49 | once every edge is relaxed, a strictly closer predecessor of a node is exactly one hop closer |
| Algorithm.PathLengthBound | project-code/src/algorithm.rs:41-51 | with every edge relaxed, any path of `m` edges from the start gives its end a finite distance of at most `m` |
| Algorithm.ShortestPathWitness | project-code/src/algorithm.rs:43-49 | a finite distance `d` comes with a path of exactly `d` edges from the start |
| Algorithm.DistancesAreShortest | project-code/src/algorithm.rs:41-53 | relaxed edges plus one-hop witnesses make each distance finite exactly when the node is reachable, and equal to the shortest path length |
| Algorithm.ResultIsUnique | project-code/src/algorithm.rs:29 | two shortest-distance maps over the same keys are equal, so the pop order of ties does not affect the result |
| Algorithm.DiamondResult | project-code/src/algorithm.rs:64-76 | on the first test's graph from node 1, any shortest-distance map over its nodes is `{1: 0, 2: 1, 3: 1, 4: 2}` |
| Algorithm.ExampleDiamond | project-code/src/algorithm.rs:64-76 | the first test: the distances from node 1 are 0, 1, 1 and 2 |
| Algorithm.UnknownStartResult | project-code/src/algorithm.rs:80-86 | on the second test's graph from node 4, any shortest-distance map over its nodes and 4 is every node at the sentinel and 4 at 0 |
| Algorithm.ExampleUnknownStart | project-code/src/algorithm.rs:80-87 | the second test as the code behaves: the result is `{1, 2, 3}` at the sentinel and 4 at 0, so it is neither empty nor missing 4 |
| Algorithm.DijkstraKnownStart | project-code/src/algorithm.rs:86-87 | a start that is not a node of the graph gives the empty map; otherwise the result is the shortest-distance map |
| Algorithm.ExampleUnknownStartCorrected | project-code/src/algorithm.rs:86-87 | with the corrected behaviour, the second test's assertion holds |
| Graphs.Nodes | project-code/src/algorithm.rs:13-22 | every key, and every node listed as a neighbour, is a node of the graph |
| Graphs.Endpoints | project-code/src/graph_preprocessing.rs:35 | both endpoints of every edge are in the endpoint set |
| Text.TokenLengthIsMaximal | project-code/src/graphdata.rs:25 | a token is a maximal run without whitespace: it contains no whitespace and ends at whitespace or at the end of the line |
| Text.NoTokensIffBlank | project-code/src/graphdata.rs:25 | a line splits into no tokens exactly when it is blank, that is empty or all whitespace |
| Text.TokensAreTokens | project-code/src/graphdata.rs:25 | whitespace splitting yields only non-empty pieces without whitespace, however the whitespace is repeated or placed |
| Text.TokensOfUnwords | project-code/src/graph_preprocessing.rs:20 | splitting tokens joined by single spaces gives back those tokens |
| Text.ParseUsize | project-code/src/graphdata.rs:32-45 | a parsed number fits in a 64-bit `usize`, and the token starts with `+` or a digit, so a `-` sign or a `#` never parses |
| Text.NatToString | project-code/src/graph_preprocessing.rs:55 | a printed number is a non-empty string of decimal digits with no leading zero: it starts with `0` only when it is 0 |
| Text.NatToStringShape | project-code/src/graph_preprocessing.rs:55 | the decimal value of a printed number is the number |
| Text.ParsePrintRoundTrip | project-code/src/graph_preprocessing.rs:55 | printing a `usize` in decimal and parsing it back gives the same number |
| Text.ClassifyLine | project-code/src/graphdata.rs:25-45 | a parsed token of a two-token line is at most `usize::MAX`. A line starting with `#` never yields a source number |
| GraphData.AcceptedEdge | project-code/src/graphdata.rs:25-45 | an accepted edge has both endpoints at most `usize::MAX`, and a line starting with `#` is never accepted, inside the header or after it |
| GraphData.ScanLine | project-code/src/graphdata.rs:19-48 | one line never removes a key, and once the header has ended it never resumes |
| GraphData.ScanLineOnlyAppends | project-code/src/graphdata.rs:47-48 | one line only appends to the neighbour lists it touches: every old list is a prefix of the new one |
| GraphData.Scan | project-code/src/graphdata.rs:14-23 | while the header lasts nothing is recorded |
| GraphData.ScanIsClosed | project-code/src/graphdata.rs:47-48 | after any number of lines, every node listed as a neighbour has a list of its own |
| GraphData.ParseGraph | project-code/src/graphdata.rs:16-49 | the keys of the parsed graph are all the nodes it mentions, because every target gets an entry (line 48) |
| GraphData.AddEdge | project-code/src/graphdata.rs:47-48 | recording an edge appends the target to the source's list and creates that list if missing. The target gets an empty list if it had none. Every other list is unchanged |
| GraphData.HeaderLength | project-code/src/graphdata.rs:19-23 | the header is the longest leading run of lines that start with `#` |
| GraphData.ScanInvariant | project-code/src/graphdata.rs:14-49 | the header flag stays set exactly while every line read so far started with `#`. The graph so far is built from the accepted edges after the header, in line order |
| GraphData.BuildGraphContents | project-code/src/graphdata.rs:47-48 | the graph built from edges has exactly their endpoints as keys, and each key lists its targets in edge order with duplicates kept |
| GraphData.ParseGraphContents | project-code/src/graphdata.rs:16-49 | the parsed graph's keys are the endpoints of the accepted lines after the header. Each key lists the targets of its own accepted lines, in line order: edges are directed |
| GraphData.HeaderContributesNoEdges | project-code/src/graphdata.rs:19-23 | dropping any leading run of `#` lines does not change the accepted edges |
| GraphData.HeaderSkipIsUnobservable | project-code/src/graphdata.rs:14-23 | the parsed graph equals the graph built from the accepted edges of all lines: the header flag changes nothing in the returned graph (only which diagnostics are printed) |
| GraphData.AcceptedLineEndpointsAreKeys | project-code/src/graphdata.rs:47-48 | both endpoints of every accepted line are keys, and the target is listed under the source |
| GraphData.SampleSubMap | project-code/src/graphdata.rs:52-57 | the sample's keys are exactly the chosen ones, `min(sample_size, node count)` keys of the graph. Each keeps its neighbour list unchanged and unfiltered |
| GraphData.SampleOfWholeGraph | project-code/src/graphdata.rs:52-57 | when `sample_size` is at least the number of keys, the sample is the whole graph |
| GraphData.PreprocessWithSampling | project-code/src/graphdata.rs:13-57 | the result's keys are the chosen keys, and each lists the targets of its accepted lines in line order |
| GraphData.AcceptedEdgeOfPrinted | project-code/src/graphdata.rs:25-45 | a line of two decimal `usize` values separated by a space is accepted as exactly that edge |
| GraphData.ExampleThreeTokenLine | project-code/src/graphdata.rs:25-29 | a three-token line contributes nothing |
| GraphData.ExampleBadNumberLine | project-code/src/graphdata.rs:39-44 | a two-token line whose target is not a number contributes nothing |
| GraphData.ExampleFile | project-code/src/graphdata.rs:16-49 | a header, the edge `1 2`, two lines that contribute nothing and the edge `2 3` read as `1 -> [2]`, `2 -> [3]`, `3 -> []` |
| GraphData.ExampleFileText | project-code/src/graphdata.rs:16-49 | the same file given as literal text lines |
| GraphPreprocessing.LoadGraph | project-code/src/graph_preprocessing.rs:18-26 | a successful load has at most one edge per line, and a failure names a line of the file |
| GraphPreprocessing.LoadGraphFailure | project-code/src/graph_preprocessing.rs:18-26 | a failed load names the first line with two tokens that are not both numbers |
| GraphPreprocessing.LoadGraphFailsIffBadLine | project-code/src/graph_preprocessing.rs:21-23 | a load succeeds exactly when no two-token line has a token that is not a number |
| GraphPreprocessing.LoadGraphEdges | project-code/src/graph_preprocessing.rs:18-26 | without bad lines the load succeeds with one edge per two-token line. Edges are in file order and orientation; other lines give nothing |
| GraphPreprocessing.InducedEdges | project-code/src/graph_preprocessing.rs:44-48 | every kept edge has both endpoints in the node set |
| GraphPreprocessing.SampleGraph | project-code/src/graph_preprocessing.rs:31-49 | given sampled nodes drawn from the endpoints, `min(num_nodes, #endpoints)` of them, every returned edge lies inside the sample |
| GraphPreprocessing.InducedEdgesIsSubsequence | project-code/src/graph_preprocessing.rs:44-48 | the kept edges are a subsequence of the input, in input order |
| GraphPreprocessing.InducedEdgesCounts | project-code/src/graph_preprocessing.rs:44-48 | each edge occurs in the output as often as in the input if both endpoints are sampled, and otherwise never |
| GraphPreprocessing.InducedEdgesExtremes | project-code/src/graph_preprocessing.rs:35-48 | sampling every endpoint keeps every edge; sampling nothing keeps none |
| GraphPreprocessing.FormatEdge | project-code/src/graph_preprocessing.rs:55 | a written line splits into exactly the two printed numbers, so the loader treats it as an edge line |
| GraphPreprocessing.SaveGraphLines | project-code/src/graph_preprocessing.rs:54-56 | one line is written per edge |
| GraphPreprocessing.FormattedEdgeReadsBack | project-code/src/graph_preprocessing.rs:55 | the line written for an edge reads back as two parsed numbers equal to the edge's endpoints |
| GraphPreprocessing.SaveLoadRoundTrip | project-code/src/graph_preprocessing.rs:54-56 | loading the lines written for any `usize` edges gives back exactly those edges |
| GraphPreprocessing.LoadedNodesFit | project-code/src/graph_preprocessing.rs:22-23 | every loaded node is a `usize` |
| GraphPreprocessing.SampleSurvivesSaving | project-code/src/graph_preprocessing.rs:31-56 | loading a file, sampling it, saving the sample and loading that again gives back the sample |

## Left out

- File handles, `BufReader`, I/O errors, `?` propagation and file creation. Lines come in and go out as sequences of strings.
- `eprintln!` diagnostics for skipped lines. They are side output with no effect on the result.
- `rand::thread_rng` and `choose_multiple`. The choice is a parameter constrained to its size and origin. Which items are chosen, and with what probability, is not modelled.
- `HashMap` and `HashSet` iteration order. The model uses maps and sets and claims no key order.
- `visualizations.rs`: plotting and raster output.
- `main.rs`: it calls functions that `algorithm.rs` does not define (see above).
- Text.IsSpace: only the ASCII whitespace characters count. Rust's `split_whitespace` also splits on the other Unicode whitespace characters, and a line containing one of those is not modelled faithfully.
- Text.ParseUsize: `usize` is taken to be 64 bits wide. On a 32-bit target the bound would be `2^32 - 1`.
- Algorithm.PopMin: the heap is a sequence with a linear minimum search, not a binary heap. Only the order in which entries come out is modelled.

## Findings

| source | as written | input that shows it | evidently intended | confidence | as-written member | corrected member |
|---|---|---|---|---|---|---|
| project-code/src/algorithm.rs:79-88 | `dijkstra` always inserts the start at distance 0, even when the graph does not mention it, so the test's claim that the result is empty or lacks the start does not hold | graph `{1: [2, 3], 2: [3], 3: []}`, start 4: the result is `{1: MAX, 2: MAX, 3: MAX, 4: 0}` | a start that is not a node of the graph gives an empty map, as the test asserts | not executed | Algorithm.ExampleUnknownStart | Algorithm.DijkstraKnownStart |
