/**
 The strict edge-list loader, the induced-edge sampler and the edge-list writer.
 `load_graph` turns every two-token line into an edge and aborts (a panic in the
 source) on the first such line with a token that is not a `usize`;
 `sample_graph` keeps the edges whose endpoints both lie in a sampled node set;
 `save_graph` writes one `"u v"` line per edge. File handles are left out: lines
 come in and go out as sequences of strings, and the random node choice is a
 caller-supplied set.
 */
module GraphPreprocessing {
  import opened Wrappers
  import opened Text
  import opened Graphs
  import opened Collections

  /** Why a load failed: the index of the first line whose two tokens are not both numbers. */
  datatype LoadError = InvalidNumber(line: nat)

  /** A line the loader turns into an edge: exactly two tokens. */
  predicate IsPairLine(line: string) {
    ClassifyLine(line).Pair?
  }

  /** A two-token line on which the loader's `unwrap` panics. */
  predicate IsBadLine(line: string) {
    var shape := ClassifyLine(line);
    shape.Pair? && (shape.source.None? || shape.target.None?)
  }

  /** The edge of a well-formed two-token line. */
  function LineEdge(line: string): Edge
    requires IsPairLine(line) && !IsBadLine(line)
  {
    var shape := ClassifyLine(line);
    (shape.source.value, shape.target.value)
  }

  /** `load_graph` on the lines of a file. */
  function LoadGraph(lines: seq<string>): (r: Result<seq<Edge>, LoadError>)
    ensures r.Success? ==> |r.value| <= |lines|
    ensures r.Failure? ==> r.error.line < |lines|
    decreases |lines|
  {
    if |lines| == 0 then Success([])
    else
      var init := lines[..|lines| - 1];
      var line := lines[|lines| - 1];
      match LoadGraph(init)
      case Failure(e) => Failure(e)
      case Success(edges) =>
        match ClassifyLine(line)
        case NotAPair => Success(edges)
        case Pair(Some(u), Some(v)) => Success(edges + [(u, v)])
        case Pair(_, _) => Failure(InvalidNumber(|lines| - 1))
  }

  /** No two-token line has a token that is not a number: the files `load_graph` reads without panicking. */
  predicate NoBadLine(lines: seq<string>) {
    forall i :: 0 <= i < |lines| ==> !IsBadLine(lines[i])
  }

  /** Number of two-token lines. */
  function PairLineCount(lines: seq<string>): nat
    decreases |lines|
  {
    if |lines| == 0 then 0
    else PairLineCount(lines[..|lines| - 1]) + (if IsPairLine(lines[|lines| - 1]) then 1 else 0)
  }

  /** A failed load names the first line whose two tokens are not both numbers. */
  lemma {:induction false} LoadGraphFailure(lines: seq<string>)
    requires LoadGraph(lines).Failure?
    ensures LoadGraph(lines).error.line < |lines|
    ensures IsBadLine(lines[LoadGraph(lines).error.line])
    ensures forall i :: 0 <= i < LoadGraph(lines).error.line ==> !IsBadLine(lines[i])
    decreases |lines|
  {
    var init := lines[..|lines| - 1];
    LoadGraphFailStep(lines);
    if LoadGraph(init).Failure? {
      LoadGraphFailure(init);
      var k := LoadGraph(init).error.line;
      assert forall i :: 0 <= i <= k ==> lines[i] == init[i];
    } else {
      LoadGraphFailsIffBadLine(init);
      assert forall i :: 0 <= i < |init| ==> lines[i] == init[i];
    }
  }

  /** A load fails at the last line exactly when all earlier lines load and the last is bad. */
  lemma LoadGraphFailStep(lines: seq<string>)
    requires LoadGraph(lines).Failure?
    ensures |lines| > 0
    ensures LoadGraph(lines[..|lines| - 1]).Failure? ==> LoadGraph(lines) == LoadGraph(lines[..|lines| - 1])
    ensures LoadGraph(lines[..|lines| - 1]).Success? ==>
      LoadGraph(lines).error.line == |lines| - 1 && IsBadLine(lines[|lines| - 1])
  {
  }

  /** A load fails exactly when some two-token line has a token that is not a number. */
  lemma {:induction false} LoadGraphFailsIffBadLine(lines: seq<string>)
    ensures LoadGraph(lines).Success? <==> NoBadLine(lines)
    decreases |lines|
  {
    if |lines| > 0 {
      var init := lines[..|lines| - 1];
      LoadGraphFailsIffBadLine(init);
      SplitLast(lines);
      NoBadLineSnoc(init, lines[|lines| - 1]);
    }
  }

  lemma NoBadLineSnoc(init: seq<string>, line: string)
    ensures NoBadLine(init + [line]) <==> NoBadLine(init) && !IsBadLine(line)
  {
    var lines := init + [line];
    assert forall i :: 0 <= i < |init| ==> lines[i] == init[i];
    assert lines[|init|] == line;
  }

  /**
   A successful load has one edge per two-token line, in file order: the line at
   index `i` gives the edge at the position that counts the two-token lines before it.
   */
  lemma {:induction false} LoadGraphEdges(lines: seq<string>)
    requires NoBadLine(lines)
    ensures LoadGraph(lines).Success?
    ensures |LoadGraph(lines).value| == PairLineCount(lines)
    ensures forall i :: 0 <= i < |lines| && IsPairLine(lines[i]) ==>
      PairLineCount(lines[..i]) < |LoadGraph(lines).value| &&
      LoadGraph(lines).value[PairLineCount(lines[..i])] == LineEdge(lines[i])
    decreases |lines|
  {
    LoadGraphFailsIffBadLine(lines);
    if |lines| > 0 {
      var init := lines[..|lines| - 1];
      assert NoBadLine(init) by {
        assert forall i :: 0 <= i < |init| ==> init[i] == lines[i];
      }
      LoadGraphEdges(init);
      forall i | 0 <= i < |lines| && IsPairLine(lines[i])
        ensures PairLineCount(lines[..i]) < |LoadGraph(lines).value|
        ensures LoadGraph(lines).value[PairLineCount(lines[..i])] == LineEdge(lines[i])
      {
        LoadedEdgeAt(lines, i);
      }
    }
  }

  /** One line's case of `LoadGraphEdges`, given the case for all lines but the last. */
  lemma LoadedEdgeAt(lines: seq<string>, i: nat)
    requires |lines| > 0 && NoBadLine(lines)
    requires i < |lines| && IsPairLine(lines[i])
    requires LoadGraph(lines).Success?
    requires var init := lines[..|lines| - 1];
      && LoadGraph(init).Success?
      && |LoadGraph(init).value| == PairLineCount(init)
      && forall k :: 0 <= k < |init| && IsPairLine(init[k]) ==>
        PairLineCount(init[..k]) < |LoadGraph(init).value| &&
        LoadGraph(init).value[PairLineCount(init[..k])] == LineEdge(init[k])
    ensures PairLineCount(lines[..i]) < |LoadGraph(lines).value|
    ensures LoadGraph(lines).value[PairLineCount(lines[..i])] == LineEdge(lines[i])
  {
    var init := lines[..|lines| - 1];
    var prev := LoadGraph(init).value;
    LoadGraphStep(lines);
    if i < |lines| - 1 {
      PrefixOfPrefix(lines, i, |lines| - 1);
      assert init[i] == lines[i];
      assert prev[PairLineCount(init[..i])] == LineEdge(init[i]);
    } else {
      assert lines[..i] == init;
    }
  }

  /** A successful load of a non-empty file extends the load of all lines but the last. */
  lemma LoadGraphStep(lines: seq<string>)
    requires |lines| > 0 && LoadGraph(lines).Success?
    ensures LoadGraph(lines[..|lines| - 1]).Success?
    ensures var last := lines[|lines| - 1];
      IsPairLine(last) ==>
        (!IsBadLine(last) && LoadGraph(lines).value == LoadGraph(lines[..|lines| - 1]).value + [LineEdge(last)])
    ensures !IsPairLine(lines[|lines| - 1]) ==>
      LoadGraph(lines).value == LoadGraph(lines[..|lines| - 1]).value
  {
  }

  // ---------------------------------------------------------------------------
  // Sampling
  // ---------------------------------------------------------------------------

  predicate Inside(e: Edge, nodes: set<Node>) {
    e.0 in nodes && e.1 in nodes
  }

  /** The edges with both endpoints in `nodes`, in their original order. */
  function InducedEdges(edges: seq<Edge>, nodes: set<Node>): (r: seq<Edge>)
    ensures forall i :: 0 <= i < |r| ==> Inside(r[i], nodes)
    decreases |edges|
  {
    if |edges| == 0 then []
    else
      var e := edges[|edges| - 1];
      InducedEdges(edges[..|edges| - 1], nodes) + (if Inside(e, nodes) then [e] else [])
  }

  /** `a` is `b` with some elements left out, the rest kept in order. */
  ghost predicate IsSubsequence<T>(a: seq<T>, b: seq<T>)
    decreases |b|
  {
    if |a| == 0 then true
    else if |b| == 0 then false
    else if a[|a| - 1] == b[|b| - 1] then IsSubsequence(a[..|a| - 1], b[..|b| - 1])
    else IsSubsequence(a, b[..|b| - 1])
  }

  /**
   `sample_graph`: `sampled` stands for the nodes `choose_multiple` picked from
   the distinct endpoints, that is `min(numNodes, #endpoints)` of them.
   */
  function SampleGraph(edges: seq<Edge>, sampled: set<Node>, numNodes: nat): (r: seq<Edge>)
    requires sampled <= Endpoints(edges)
    requires |sampled| == Min(numNodes, |Endpoints(edges)|)
    ensures forall i :: 0 <= i < |r| ==> r[i].0 in sampled && r[i].1 in sampled
  {
    InducedEdges(edges, sampled)
  }

  /** The induced edges keep their input order and skip only edges that leave the node set. */
  lemma {:induction false} InducedEdgesIsSubsequence(edges: seq<Edge>, nodes: set<Node>)
    ensures IsSubsequence(InducedEdges(edges, nodes), edges)
    decreases |edges|
  {
    if |edges| > 0 {
      var init := edges[..|edges| - 1];
      var e := edges[|edges| - 1];
      var r := InducedEdges(edges, nodes);
      InducedEdgesIsSubsequence(init, nodes);
      if Inside(e, nodes) {
        assert r[..|r| - 1] == InducedEdges(init, nodes);
      } else {
        assert r == InducedEdges(init, nodes);
        if |r| > 0 {
          assert Inside(r[|r| - 1], nodes);
        }
      }
    }
  }

  /** Each edge occurs in the output as often as in the input if it is inside the node set, else never. */
  lemma {:induction false} InducedEdgesCounts(edges: seq<Edge>, nodes: set<Node>)
    ensures forall e ::
      multiset(InducedEdges(edges, nodes))[e] == (if Inside(e, nodes) then multiset(edges)[e] else 0)
    decreases |edges|
  {
    if |edges| > 0 {
      var init := edges[..|edges| - 1];
      InducedEdgesCounts(init, nodes);
      assert edges == init + [edges[|edges| - 1]];
    }
  }

  /** Sampling every endpoint keeps every edge; sampling no node keeps none. */
  lemma {:induction false} InducedEdgesExtremes(edges: seq<Edge>, nodes: set<Node>)
    ensures Endpoints(edges) <= nodes ==> InducedEdges(edges, nodes) == edges
    ensures nodes == {} ==> InducedEdges(edges, nodes) == []
    decreases |edges|
  {
    if |edges| > 0 {
      var init := edges[..|edges| - 1];
      var e := edges[|edges| - 1];
      InducedEdgesExtremes(init, nodes);
      assert Endpoints(edges) == Endpoints(init) + {e.0, e.1};
      assert InducedEdges(edges, nodes) == InducedEdges(init, nodes) + (if Inside(e, nodes) then [e] else []);
      if Endpoints(edges) <= nodes {
        assert Inside(e, nodes);
        assert edges == init + [e];
      }
    }
  }

  // ---------------------------------------------------------------------------
  // Saving
  // ---------------------------------------------------------------------------

  /**
   The line `save_graph` writes for an edge: both ids in decimal, one space
   between. It splits back into exactly the two printed numbers, so the loader
   takes it as an edge line.
   */
  function FormatEdge(e: Edge): (line: string)
    ensures Tokens(line) == [NatToString(e.0), NatToString(e.1)]
  {
    TokensOfPair(NatToString(e.0), NatToString(e.1));
    NatToString(e.0) + " " + NatToString(e.1)
  }

  /** The lines `save_graph` writes, one per edge, in order (the newline ends each line). */
  function SaveGraphLines(edges: seq<Edge>): (lines: seq<string>)
    ensures |lines| == |edges|
    decreases |edges|
  {
    if |edges| == 0 then []
    else SaveGraphLines(edges[..|edges| - 1]) + [FormatEdge(edges[|edges| - 1])]
  }

  /** Every node of `edges` fits in a `usize`. */
  predicate FitsUsize(edges: seq<Edge>) {
    forall i :: 0 <= i < |edges| ==> edges[i].0 <= UsizeMax && edges[i].1 <= UsizeMax
  }

  /** The line written for an edge that fits reads back as that edge. */
  lemma FormattedEdgeReadsBack(e: Edge)
    requires e.0 <= UsizeMax && e.1 <= UsizeMax
    ensures ClassifyLine(FormatEdge(e)) == Pair(Some(e.0), Some(e.1))
  {
    ParsePrintRoundTrip(e.0);
    ParsePrintRoundTrip(e.1);
  }

  /** Loading the lines `save_graph` writes gives back exactly the edges written. */
  lemma {:induction false} SaveLoadRoundTrip(edges: seq<Edge>)
    requires FitsUsize(edges)
    ensures LoadGraph(SaveGraphLines(edges)) == Success(edges)
    decreases |edges|
  {
    if |edges| > 0 {
      var init := edges[..|edges| - 1];
      var e := edges[|edges| - 1];
      DropAppended(SaveGraphLines(init), FormatEdge(e));
      assert FitsUsize(init) by {
        assert forall i :: 0 <= i < |init| ==> init[i] == edges[i];
      }
      SaveLoadRoundTrip(init);
      FormattedEdgeReadsBack(e);
      SplitLast(edges);
    }
  }

  /** Loading, sampling and saving a file, then loading the result, gives the sample. */
  lemma SampleSurvivesSaving(lines: seq<string>, sampled: set<Node>, numNodes: nat)
    requires LoadGraph(lines).Success?
    requires sampled <= Endpoints(LoadGraph(lines).value)
    requires |sampled| == Min(numNodes, |Endpoints(LoadGraph(lines).value)|)
    ensures var sample := SampleGraph(LoadGraph(lines).value, sampled, numNodes);
      LoadGraph(SaveGraphLines(sample)) == Success(sample)
  {
    var sample := SampleGraph(LoadGraph(lines).value, sampled, numNodes);
    LoadedNodesFit(lines);
    InducedEdgesCounts(LoadGraph(lines).value, sampled);
    assert FitsUsize(sample) by {
      forall i | 0 <= i < |sample| ensures sample[i].0 <= UsizeMax && sample[i].1 <= UsizeMax {
        assert sample[i] in multiset(sample);
        assert sample[i] in multiset(LoadGraph(lines).value);
      }
    }
    SaveLoadRoundTrip(sample);
  }

  /** Every loaded node is a parsed `usize`. */
  lemma {:induction false} LoadedNodesFit(lines: seq<string>)
    requires LoadGraph(lines).Success?
    ensures FitsUsize(LoadGraph(lines).value)
    decreases |lines|
  {
    if |lines| > 0 {
      LoadedNodesFit(lines[..|lines| - 1]);
    }
  }
}
