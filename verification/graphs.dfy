/**
 The adjacency-map graph shared by the loader and the distance engine: each key
 maps to the ordered list of nodes it has an edge to. Node ids are `usize` in the
 source and unbounded naturals here.
 */
module Graphs {

  type Node = nat

  /** `HashMap<usize, Vec<usize>>`; key iteration order is not modelled. */
  type Graph = map<Node, seq<Node>>

  /** Every node that occurs in `g`, as a key or inside some neighbour list. */
  function Nodes(g: Graph): (ns: set<Node>)
    ensures g.Keys <= ns
    ensures forall u, v :: u in g && v in g[u] ==> v in ns
  {
    g.Keys + set u, v | u in g && v in g[u] :: v
  }

  /** Every node listed as a neighbour is itself a key. */
  predicate Closed(g: Graph) {
    forall k, v :: k in g && v in g[k] ==> v in g
  }

  /** In a closed graph the keys are all the nodes. */
  lemma ClosedNodes(g: Graph)
    requires Closed(g)
    ensures Nodes(g) == g.Keys
  {
  }

  /** An edge as read from one line of an edge list: `(source, target)`. */
  type Edge = (Node, Node)

  /** Both endpoints of every edge. */
  function Endpoints(edges: seq<Edge>): (ns: set<Node>)
    ensures forall i :: 0 <= i < |edges| ==> edges[i].0 in ns && edges[i].1 in ns
    decreases |edges|
  {
    if |edges| == 0 then {}
    else
      var e := edges[|edges| - 1];
      Endpoints(edges[..|edges| - 1]) + {e.0, e.1}
  }

  /** `v` is listed as a neighbour of key `u`: a directed edge `u -> v`. */
  predicate HasEdge(g: Graph, u: Node, v: Node) {
    u in g && v in g[u]
  }

  /** `p` is a non-empty walk along the edges of `g`. */
  ghost predicate IsPath(g: Graph, p: seq<Node>) {
    |p| > 0 && forall i :: 0 <= i < |p| - 1 ==> HasEdge(g, p[i], p[i + 1])
  }

  /** `p` is a walk from `s` to `t`; it has `|p| - 1` edges. */
  ghost predicate PathFromTo(g: Graph, s: Node, t: Node, p: seq<Node>) {
    IsPath(g, p) && p[0] == s && p[|p| - 1] == t
  }

  ghost predicate Reachable(g: Graph, s: Node, t: Node) {
    exists p :: PathFromTo(g, s, t, p)
  }
}
