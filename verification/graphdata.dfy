/**
 The tolerant, directed edge-list reader of `preprocess_graph_with_sampling`:
 it skips a leading run of `#` header lines, ignores any line that is not two
 tokens or whose tokens do not both parse, records `source -> target` for every
 other line, and makes sure the target has an entry of its own. The random
 choice of keys at the end is a caller-supplied set here.
 */
module GraphData {
  import opened Wrappers
  import opened Text
  import opened Graphs
  import opened Collections

  /** The reader's state between lines: the graph so far and the header flag. */
  datatype ScanState = ScanState(graph: Graph, inHeader: bool)

  predicate StartsWithHash(line: string) {
    |line| > 0 && line[0] == '#'
  }

  /** The edge a line contributes, if it is two tokens that both parse. */
  function AcceptedEdge(line: string): (r: Option<Edge>)
    ensures r.Some? ==> r.value.0 <= UsizeMax && r.value.1 <= UsizeMax
    ensures StartsWithHash(line) ==> r.None?
  {
    match ClassifyLine(line)
    case Pair(Some(s), Some(t)) => Some((s, t))
    case _ => None
  }

  /** Appends `t` to the list of `s` (creating it) and gives `t` a list if it has none. */
  function AddEdge(g: Graph, s: Node, t: Node): (g': Graph)
    ensures g'.Keys == g.Keys + {s, t}
    ensures g'[s] == (if s in g then g[s] + [t] else [t])
    ensures forall k :: k in g && k != s ==> g'[k] == g[k]
    ensures t !in g && t != s ==> g'[t] == []
  {
    var withSource := g[s := if s in g then g[s] + [t] else [t]];
    if t in withSource then withSource else withSource[t := []]
  }

  /** Adds the edge a line contributes, if it contributes one. */
  function AddAccepted(g: Graph, accepted: Option<Edge>): Graph {
    match accepted
    case Some(e) => AddEdge(g, e.0, e.1)
    case None => g
  }

  /** One iteration of the reading loop. */
  function ScanLine(st: ScanState, line: string): (r: ScanState)
    ensures st.graph.Keys <= r.graph.Keys
    ensures !st.inHeader ==> !r.inHeader
  {
    if st.inHeader && StartsWithHash(line) then st
    else ScanState(AddAccepted(st.graph, AcceptedEdge(line)), false)
  }

  /** The reading loop over all lines, in file order. */
  function Scan(lines: seq<string>): (r: ScanState)
    ensures r.inHeader ==> r.graph == map[]
    decreases |lines|
  {
    if |lines| == 0 then ScanState(map[], true)
    else ScanLine(Scan(lines[..|lines| - 1]), lines[|lines| - 1])
  }

  /** A line only ever appends to the neighbour lists it touches; no list loses an element. */
  lemma ScanLineOnlyAppends(st: ScanState, line: string)
    ensures forall k :: k in st.graph ==> st.graph[k] <= ScanLine(st, line).graph[k]
  {
  }

  /** After any number of lines, every node listed as a neighbour has a list of its own. */
  lemma {:induction false} ScanIsClosed(lines: seq<string>)
    ensures Closed(Scan(lines).graph)
    decreases |lines|
  {
    if |lines| > 0 {
      ScanIsClosed(lines[..|lines| - 1]);
      ScanLineKeepsClosed(Scan(lines[..|lines| - 1]), lines[|lines| - 1]);
    }
  }

  /** Recording an edge, or nothing, keeps every listed target a key. */
  lemma ScanLineKeepsClosed(st: ScanState, line: string)
    requires Closed(st.graph)
    ensures Closed(ScanLine(st, line).graph)
  {
    match AcceptedEdge(line)
    case Some(e) => AddEdgeKeepsClosed(st.graph, e.0, e.1);
    case None =>
  }

  lemma AddEdgeKeepsClosed(g: Graph, s: Node, t: Node)
    requires Closed(g)
    ensures Closed(AddEdge(g, s, t))
  {
    var g' := AddEdge(g, s, t);
    forall k, v | k in g' && v in g'[k] ensures v in g' {
      if k != s && k in g {
        assert v in g[k];
      }
    }
  }

  /**
   The graph read from a file's lines, before sampling. Every listed target has a
   list of its own, so the keys are all the nodes the graph mentions.
   */
  function ParseGraph(lines: seq<string>): (g: Graph)
    ensures Nodes(g) == g.Keys
  {
    ScanIsClosed(lines);
    ClosedNodes(Scan(lines).graph);
    Scan(lines).graph
  }

  // ---------------------------------------------------------------------------
  // A reference description of the parsed graph
  // ---------------------------------------------------------------------------

  /** Number of leading lines that start with `#`. */
  function HeaderLength(lines: seq<string>): (n: nat)
    ensures n <= |lines|
    ensures forall i :: 0 <= i < n ==> StartsWithHash(lines[i])
    ensures n < |lines| ==> !StartsWithHash(lines[n])
    decreases |lines|
  {
    if |lines| == 0 || !StartsWithHash(lines[0]) then 0
    else 1 + HeaderLength(lines[1..])
  }

  /** The accepted edges of `lines`, one per accepted line, in line order. */
  function AcceptedEdges(lines: seq<string>): seq<Edge>
    decreases |lines|
  {
    if |lines| == 0 then []
    else
      AcceptedEdges(lines[..|lines| - 1]) + AsSeq(AcceptedEdge(lines[|lines| - 1]))
  }

  function AsSeq<T>(o: Option<T>): seq<T> {
    match o
    case Some(x) => [x]
    case None => []
  }

  /** The targets of the edges leaving `k`, in order, duplicates kept. */
  function TargetsOf(edges: seq<Edge>, k: Node): seq<Node>
    decreases |edges|
  {
    if |edges| == 0 then []
    else
      var e := edges[|edges| - 1];
      TargetsOf(edges[..|edges| - 1], k) + (if e.0 == k then [e.1] else [])
  }

  /** The graph that adds `edges` one at a time. */
  function BuildGraph(edges: seq<Edge>): Graph
    decreases |edges|
  {
    if |edges| == 0 then map[]
    else
      var e := edges[|edges| - 1];
      AddEdge(BuildGraph(edges[..|edges| - 1]), e.0, e.1)
  }

  /** The graph built from edges has exactly their endpoints as keys, and each key's list is its targets. */
  lemma {:induction false} BuildGraphContents(edges: seq<Edge>)
    ensures BuildGraph(edges).Keys == Endpoints(edges)
    ensures forall k :: k in BuildGraph(edges) ==> BuildGraph(edges)[k] == TargetsOf(edges, k)
    decreases |edges|
  {
    if |edges| > 0 {
      var init := edges[..|edges| - 1];
      BuildGraphContents(init);
      var g := BuildGraph(edges);
      forall k | k in g ensures g[k] == TargetsOf(edges, k) {
        if k !in BuildGraph(init) {
          EmptyTargetsOfNonKey(init, k);
        }
      }
    }
  }

  lemma {:induction false} EmptyTargetsOfNonKey(edges: seq<Edge>, k: Node)
    requires k !in Endpoints(edges)
    ensures TargetsOf(edges, k) == []
    decreases |edges|
  {
    if |edges| > 0 {
      EmptyTargetsOfNonKey(edges[..|edges| - 1], k);
    }
  }

  lemma {:induction false} HeaderLengthSnoc(lines: seq<string>, line: string)
    ensures HeaderLength(lines + [line]) ==
      if HeaderLength(lines) < |lines| then HeaderLength(lines)
      else if StartsWithHash(line) then |lines| + 1
      else |lines|
    decreases |lines|
  {
    var all := lines + [line];
    if |lines| > 0 {
      assert all[1..] == lines[1..] + [line];
      assert all[0] == lines[0];
      if StartsWithHash(lines[0]) {
        HeaderLengthSnoc(lines[1..], line);
      }
    }
  }

  lemma {:induction false} AcceptedEdgesSnoc(lines: seq<string>, line: string)
    ensures AcceptedEdges(lines + [line]) ==
      AcceptedEdges(lines) + AsSeq(AcceptedEdge(line))
  {
    assert (lines + [line])[..|lines|] == lines;
  }

  /** The graph `BuildGraph` gets from one more line's accepted edge, if any. */
  lemma BuildGraphSnoc(lines: seq<string>, line: string)
    ensures BuildGraph(AcceptedEdges(lines + [line]))
      == AddAccepted(BuildGraph(AcceptedEdges(lines)), AcceptedEdge(line))
  {
    AcceptedEdgesSnoc(lines, line);
    BuildGraphExtend(AcceptedEdges(lines), AcceptedEdge(line));
  }

  lemma BuildGraphExtend(edges: seq<Edge>, accepted: Option<Edge>)
    ensures BuildGraph(edges + AsSeq(accepted)) == AddAccepted(BuildGraph(edges), accepted)
  {
    if accepted.Some? {
      assert (edges + AsSeq(accepted))[..|edges|] == edges;
    } else {
      assert edges + AsSeq(accepted) == edges;
    }
  }

  /** The two facts the reading loop keeps, stated for the lines read so far. */
  ghost predicate ScanFacts(lines: seq<string>) {
    && (Scan(lines).inHeader <==> HeaderLength(lines) == |lines|)
    && Scan(lines).graph == BuildGraph(AcceptedEdges(lines[HeaderLength(lines)..]))
  }

  /** Reading one more line while every earlier line was a header line. */
  lemma ScanStepInHeader(init: seq<string>, line: string)
    requires ScanFacts(init) && HeaderLength(init) == |init|
    ensures ScanFacts(init + [line])
  {
    var lines := init + [line];
    HeaderLengthSnoc(init, line);
    assert init[|init|..] == [];
    if StartsWithHash(line) {
      assert lines[HeaderLength(lines)..] == [];
    } else {
      assert lines[HeaderLength(lines)..] == [] + [line];
      BuildGraphSnoc([], line);
    }
  }

  /** Reading one more line after the header has ended. */
  lemma ScanStepAfterHeader(init: seq<string>, line: string)
    requires ScanFacts(init) && HeaderLength(init) < |init|
    ensures ScanFacts(init + [line])
  {
    var lines := init + [line];
    var h := HeaderLength(init);
    HeaderLengthSnoc(init, line);
    ScanSnoc(init, line);
    SuffixOfAppended(init, line, h);
    BuildGraphSnoc(init[h..], line);
  }

  /**
   The loop's header flag is still set exactly when every line so far started
   with `#`, and the graph so far is built from the accepted edges after the header.
   */
  lemma {:induction false} ScanInvariant(lines: seq<string>)
    ensures Scan(lines).inHeader <==> HeaderLength(lines) == |lines|
    ensures Scan(lines).graph == BuildGraph(AcceptedEdges(lines[HeaderLength(lines)..]))
    decreases |lines|
  {
    if |lines| > 0 {
      var init := lines[..|lines| - 1];
      var line := lines[|lines| - 1];
      assert lines == init + [line];
      ScanInvariant(init);
      if HeaderLength(init) == |init| {
        ScanStepInHeader(init, line);
      } else {
        ScanStepAfterHeader(init, line);
      }
    }
  }

  /**
   The parsed graph, described without the loop: skip the leading `#` lines,
   take the accepted edge of every remaining line, and the keys are exactly
   the endpoints of those edges, each listing its targets in line order.
   */
  lemma ParseGraphContents(lines: seq<string>)
    ensures var edges := AcceptedEdges(lines[HeaderLength(lines)..]);
      && ParseGraph(lines).Keys == Endpoints(edges)
      && forall k :: k in ParseGraph(lines) ==> ParseGraph(lines)[k] == TargetsOf(edges, k)
  {
    ScanInvariant(lines);
    BuildGraphContents(AcceptedEdges(lines[HeaderLength(lines)..]));
  }

  lemma {:induction false} HeaderContributesNoEdges(lines: seq<string>, n: nat)
    requires n <= |lines|
    requires forall i :: 0 <= i < n ==> StartsWithHash(lines[i])
    ensures AcceptedEdges(lines[n..]) == AcceptedEdges(lines)
    decreases |lines|
  {
    if |lines| > n {
      var init := lines[..|lines| - 1];
      var last := lines[|lines| - 1];
      assert forall i :: 0 <= i < n ==> init[i] == lines[i];
      HeaderContributesNoEdges(init, n);
      assert AcceptedEdges(lines) == AcceptedEdges(init) + AsSeq(AcceptedEdge(last));
      SuffixSplitLast(lines, n);
      AcceptedEdgesSnoc(init[n..], last);
    } else if |lines| > 0 {
      assert lines[n..] == [];
      AcceptedEdgesNone(lines);
    }
  }

  lemma {:induction false} AcceptedEdgesNone(lines: seq<string>)
    requires forall i :: 0 <= i < |lines| ==> StartsWithHash(lines[i])
    ensures AcceptedEdges(lines) == []
    decreases |lines|
  {
    if |lines| > 0 {
      AcceptedEdgesNone(lines[..|lines| - 1]);
    }
  }

  /**
   Skipping the header is unobservable in the result: a `#` line is never an
   accepted edge, so the parsed graph is built from every line's accepted edge.
   */
  lemma HeaderSkipIsUnobservable(lines: seq<string>)
    ensures ParseGraph(lines) == BuildGraph(AcceptedEdges(lines))
  {
    ScanInvariant(lines);
    HeaderContributesNoEdges(lines, HeaderLength(lines));
  }

  /** Every accepted line's two endpoints are keys; edges are recorded source to target only. */
  lemma AcceptedLineEndpointsAreKeys(lines: seq<string>, i: nat)
    requires i < |lines|
    requires AcceptedEdge(lines[i]).Some?
    ensures var (s, t) := AcceptedEdge(lines[i]).value;
      s in ParseGraph(lines) && t in ParseGraph(lines) && t in ParseGraph(lines)[s]
  {
    var edges := AcceptedEdges(lines);
    var e := AcceptedEdge(lines[i]).value;
    HeaderSkipIsUnobservable(lines);
    BuildGraphContents(edges);
    var j := AcceptedEdgesIndex(lines, i);
    assert e.0 in Endpoints(edges) && e.1 in Endpoints(edges) by {
      assert e.0 in {edges[j].0, edges[j].1};
      assert e.1 in {edges[j].0, edges[j].1};
    }
    TargetsOfContains(edges, j);
  }

  lemma {:induction false} AcceptedEdgesIndex(lines: seq<string>, i: nat) returns (j: nat)
    requires i < |lines|
    requires AcceptedEdge(lines[i]).Some?
    ensures j < |AcceptedEdges(lines)| && AcceptedEdges(lines)[j] == AcceptedEdge(lines[i]).value
    decreases |lines|
  {
    var init := lines[..|lines| - 1];
    if i == |lines| - 1 {
      j := |AcceptedEdges(init)|;
    } else {
      j := AcceptedEdgesIndex(init, i);
    }
  }

  lemma {:induction false} TargetsOfContains(edges: seq<Edge>, j: nat)
    requires j < |edges|
    ensures edges[j].1 in TargetsOf(edges, edges[j].0)
    decreases |edges|
  {
    if j < |edges| - 1 {
      var init := edges[..|edges| - 1];
      TargetsOfContains(init, j);
    }
  }

  // ---------------------------------------------------------------------------
  // The sampled sub-map
  // ---------------------------------------------------------------------------

  /**
   The random selection at the end of the reader: `chosen` stands for the keys
   `choose_multiple` picked, that is `min(sampleSize, |g|)` distinct keys of `g`.
   Each chosen key keeps its whole neighbour list, unfiltered.
   */
  function SampleSubMap(g: Graph, chosen: set<Node>, sampleSize: nat): (r: Graph)
    requires chosen <= g.Keys
    requires |chosen| == Min(sampleSize, |g.Keys|)
    ensures r.Keys == chosen && |r.Keys| == Min(sampleSize, |g.Keys|)
    ensures |r.Keys| <= sampleSize
    ensures r.Keys <= g.Keys
    ensures forall k :: k in r ==> r[k] == g[k]
  {
    var r := map k | k in chosen :: g[k];
    assert r.Keys == chosen;
    r
  }

  /** A sample at least as large as the graph is the whole graph. */
  lemma SampleOfWholeGraph(g: Graph, chosen: set<Node>, sampleSize: nat)
    requires chosen <= g.Keys
    requires |chosen| == Min(sampleSize, |g.Keys|)
    requires sampleSize >= |g.Keys|
    ensures SampleSubMap(g, chosen, sampleSize) == g
  {
    SubsetOfEqualSize(chosen, g.Keys);
  }

  /** The reader's result: the parsed graph cut down to the chosen keys. */
  function PreprocessWithSampling(lines: seq<string>, chosen: set<Node>, sampleSize: nat): (r: Graph)
    requires chosen <= ParseGraph(lines).Keys
    requires |chosen| == Min(sampleSize, |ParseGraph(lines).Keys|)
    ensures r.Keys == chosen
    ensures forall k :: k in r ==> r[k] == TargetsOf(AcceptedEdges(lines), k)
  {
    HeaderSkipIsUnobservable(lines);
    BuildGraphContents(AcceptedEdges(lines));
    SampleSubMap(ParseGraph(lines), chosen, sampleSize)
  }

  /** A line printed as two decimal numbers is accepted as exactly that edge. */
  lemma AcceptedEdgeOfPrinted(u: Node, v: Node)
    requires u <= UsizeMax && v <= UsizeMax
    ensures AcceptedEdge(NatToString(u) + " " + NatToString(v)) == Some((u, v))
  {
    ParsePrintRoundTrip(u);
    ParsePrintRoundTrip(v);
    TokensOfPair(NatToString(u), NatToString(v));
  }

  lemma ExampleBadNumberLine()
    ensures AcceptedEdge("2 x") == None
  {
    assert Tokens("2 x") == ["2", "x"] by {
      TokensOfPair("2", "x");
      assert "2" + " " + "x" == "2 x";
    }
    assert ParseUsize("x") == None;
  }

  lemma ExampleThreeTokenLine()
    ensures AcceptedEdge("header line here") == None
  {
    var ts := ["header", "line", "here"];
    assert Unwords(ts) == "header line here";
    TokensOfUnwords(ts);
    NotTwoTokensIsNotAccepted("header line here");
  }

  /** A line that does not split into exactly two tokens contributes no edge. */
  lemma NotTwoTokensIsNotAccepted(line: string)
    requires |Tokens(line)| != 2
    ensures AcceptedEdge(line) == None
  {
  }

  lemma ExampleAcceptedLines()
    ensures AcceptedEdge("1 2") == Some((1, 2))
    ensures AcceptedEdge("2 3") == Some((2, 3))
  {
    AcceptedEdgeOfPrinted(1, 2);
    assert NatToString(1) + " " + NatToString(2) == "1 2";
    AcceptedEdgeOfPrinted(2, 3);
    assert NatToString(2) + " " + NatToString(3) == "2 3";
  }

  /** Reading one more line is one more turn of the loop. */
  lemma ScanSnoc(lines: seq<string>, line: string)
    ensures Scan(lines + [line]) == ScanLine(Scan(lines), line)
  {
    DropAppended(lines, line);
  }

  /** A header line and then the edge `1 -> 2`. */
  lemma ExampleFirstTwoLines(header: string, first: string)
    requires StartsWithHash(header) && AcceptedEdge(first) == Some((1, 2))
    ensures Scan([header, first]) == ScanState(map[1 := [2], 2 := []], false)
  {
    ScanSnoc([], header);
    ScanSnoc([header], first);
    assert [] + [header] == [header];
    assert [header] + [first] == [header, first];
    FirstEdgeGraph();
  }

  lemma FirstEdgeGraph()
    ensures AddEdge(map[], 1, 2) == map[1 := [2], 2 := []]
  {
  }

  lemma SecondEdgeGraph()
    ensures AddEdge(map[1 := [2], 2 := []], 2, 3) == map[1 := [2], 2 := [3], 3 := []]
  {
    var g := map[1 := [2], 2 := []];
    assert g[2] + [3] == [3];
  }

  /** After the header, lines that contribute no edge change nothing. */
  lemma ExampleSkippedLines(prefix: seq<string>, prose: string, bad: string)
    requires AcceptedEdge(prose).None? && AcceptedEdge(bad).None?
    requires !Scan(prefix).inHeader
    ensures Scan(prefix + [prose, bad]) == Scan(prefix)
  {
    ScanSnoc(prefix, prose);
    ScanSnoc(prefix + [prose], bad);
    assert prefix + [prose] + [bad] == prefix + [prose, bad];
  }

  /** The edge `2 -> 3` after `1 -> 2`: 2 gets its first target, and 3 a list of its own. */
  lemma ExampleLastLine(prefix: seq<string>, second: string)
    requires AcceptedEdge(second) == Some((2, 3))
    requires Scan(prefix) == ScanState(map[1 := [2], 2 := []], false)
    ensures Scan(prefix + [second]).graph == map[1 := [2], 2 := [3], 3 := []]
  {
    ScanSnoc(prefix, second);
    SecondEdgeGraph();
  }

  /**
   A file of a header line, the edge `1 -> 2`, two lines that contribute nothing
   and the edge `2 -> 3` reads as `1 -> [2]`, `2 -> [3]`, `3 -> []`.
   */
  lemma ExampleFile(header: string, first: string, prose: string, bad: string, second: string)
    requires StartsWithHash(header)
    requires AcceptedEdge(first) == Some((1, 2)) && AcceptedEdge(second) == Some((2, 3))
    requires AcceptedEdge(prose).None? && AcceptedEdge(bad).None?
    ensures ParseGraph([header, first, prose, bad, second]) == map[1 := [2], 2 := [3], 3 := []]
  {
    ExampleFirstTwoLines(header, first);
    ExampleSkippedLines([header, first], prose, bad);
    ExampleLastLine([header, first] + [prose, bad], second);
    JoinFive(header, first, prose, bad, second);
  }

  /** The same file, line by line as text: a three-token line and a bad number are skipped. */
  lemma ExampleFileText()
    ensures ParseGraph(["# header", "1 2", "header line here", "2 x", "2 3"])
      == map[1 := [2], 2 := [3], 3 := []]
  {
    ExampleAcceptedLines();
    ExampleThreeTokenLine();
    ExampleBadNumberLine();
    ExampleFile("# header", "1 2", "header line here", "2 x", "2 3");
  }
}
