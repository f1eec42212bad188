/**
 Single-source distances over a directed, unit-weight adjacency map, computed the
 way `dijkstra` does it: every known node starts at the "infinite" sentinel and
 the start at 0; a min-heap of `(distance, node)` entries is drained, an entry
 whose distance exceeds the node's recorded one is skipped as stale, and each
 neighbour whose recorded distance exceeds `distance + 1` is lowered to it and
 pushed.
 */
module Algorithm {
  import opened Graphs
  import opened Collections

  /** A recorded distance; the source's `usize::MAX` sentinel is `Inf`. */
  datatype Distance = Inf | Fin(hops: nat)

  type DistanceMap = map<Node, Distance>

  /** `a < b`, with `Inf` above every finite distance. */
  predicate Below(a: Distance, b: Distance) {
    a.Fin? && (b.Inf? || a.hops < b.hops)
  }

  /** `a <= b`, with `Inf` above every finite distance. */
  predicate AtMost(a: Distance, b: Distance) {
    b.Inf? || (a.Fin? && a.hops <= b.hops)
  }

  /** A heap entry `(distance, node)`. */
  datatype Entry = Entry(dist: nat, node: Node)

  /** The heap's order: by distance, then by node id. */
  predicate EntryLe(a: Entry, b: Entry) {
    a.dist < b.dist || (a.dist == b.dist && a.node <= b.node)
  }

  // ---------------------------------------------------------------------------
  // Facts about a distance map
  // ---------------------------------------------------------------------------

  /** Every edge leaving `u` is relaxed: its target is at most one hop further than `u`. */
  ghost predicate RelaxedAt(g: Graph, dist: DistanceMap, u: Node) {
    u in g && u in dist && dist[u].Fin? ==>
      forall v :: v in g[u] ==> v in dist && AtMost(dist[v], Fin(dist[u].hops + 1))
  }

  ghost predicate Relaxed(g: Graph, dist: DistanceMap) {
    forall u :: u in g ==> RelaxedAt(g, dist, u)
  }

  /** Some key with an edge to `v` has a strictly smaller finite distance. */
  ghost predicate HasCloserPredecessor(g: Graph, dist: DistanceMap, v: Node) {
    v in dist && exists u :: u in g && v in g[u] && u in dist && Below(dist[u], dist[v])
  }

  /**
   Every finite distance other than the start's is explained by a strictly closer
   predecessor. The trigger keeps the solver from chasing predecessors endlessly.
   */
  ghost predicate HasCloserPredecessors(g: Graph, start: Node, dist: DistanceMap) {
    forall v {:trigger HasCloserPredecessor(g, dist, v)} ::
      v in dist && dist[v].Fin? && v != start ==> HasCloserPredecessor(g, dist, v)
  }

  /** Some key with an edge to `v` has a finite distance exactly one less than that of `v`. */
  ghost predicate HasOneHopPredecessor(g: Graph, dist: DistanceMap, v: Node) {
    v in dist && dist[v].Fin? &&
      exists u :: u in g && v in g[u] && u in dist && dist[u].Fin? && dist[u].hops + 1 == dist[v].hops
  }

  /** Every finite distance other than the start's is one more than that of some predecessor. */
  ghost predicate Witnessed(g: Graph, start: Node, dist: DistanceMap) {
    forall v {:trigger HasOneHopPredecessor(g, dist, v)} ::
      v in dist && dist[v].Fin? && v != start ==> HasOneHopPredecessor(g, dist, v)
  }

  ghost function FiniteNodes(dist: DistanceMap): set<Node> {
    set v | v in dist && dist[v].Fin?
  }

  /** Each finite distance is smaller than the number of nodes with a finite distance. */
  ghost predicate Bounded(dist: DistanceMap) {
    forall v :: v in dist && dist[v].Fin? ==> dist[v].hops < |FiniteNodes(dist)|
  }

  /**
   The termination measure: the pairs `(v, k)`, `k < n`, whose recorded distance
   still exceeds `k`. Lowering any distance to a value below `n` removes a pair.
   */
  ghost function Excess(dist: DistanceMap, n: nat): set<(Node, nat)> {
    set v, k | v in dist && 0 <= k < n && !AtMost(dist[v], Fin(k)) :: (v, k)
  }

  /** Every heap entry is no better than its node's recorded distance. */
  ghost predicate QueueSound(dist: DistanceMap, queue: seq<Entry>) {
    forall i :: 0 <= i < |queue| ==>
      queue[i].node in dist && AtMost(dist[queue[i].node], Fin(queue[i].dist))
  }

  /** A reached key either still waits in the heap at its recorded distance or has all its edges relaxed. */
  ghost predicate Covered(g: Graph, dist: DistanceMap, queue: seq<Entry>, w: Node) {
    (w in g && w in dist && dist[w].Fin? ==> Entry(dist[w].hops, w) in queue) || RelaxedAt(g, dist, w)
  }

  /** The facts the distance loop keeps. */
  ghost predicate LoopInvariant(g: Graph, start: Node, dist: DistanceMap, queue: seq<Entry>) {
    && dist.Keys == Nodes(g) + {start}
    && dist[start] == Fin(0)
    && Bounded(dist)
    && HasCloserPredecessors(g, start, dist)
    && QueueSound(dist, queue)
    && forall w :: Covered(g, dist, queue, w)
  }

  // ---------------------------------------------------------------------------
  // Lemmas about one update
  // ---------------------------------------------------------------------------

  /** Lowering `v` to one more than the finite distance of `u` keeps distances bounded, and below `|dist|`. */
  lemma UpdateKeepsBounded(dist: DistanceMap, u: Node, v: Node, k: nat)
    requires Bounded(dist)
    requires u in dist && dist[u].Fin? && k == dist[u].hops + 1 && v in dist
    requires Below(Fin(k), dist[v])
    ensures k < |dist|
    ensures Bounded(dist[v := Fin(k)])
  {
    var dist' := dist[v := Fin(k)];
    var fin := FiniteNodes(dist);
    var fin' := FiniteNodes(dist');
    assert u in fin;
    if dist[v].Inf? {
      assert fin' == fin + {v};
      assert v !in fin;
      SubsetSize(fin, dist.Keys - {v});
      assert |dist.Keys - {v}| == |dist| - 1;
    } else {
      assert fin' == fin;
      SubsetSize(fin, dist.Keys);
    }
  }

  /** Lowering `v` through the edge `u -> v` keeps every finite distance explained by a closer predecessor. */
  lemma UpdateKeepsPredecessors(g: Graph, start: Node, dist: DistanceMap, u: Node, v: Node)
    requires HasCloserPredecessors(g, start, dist)
    requires u in g && v in g[u] && u in dist && dist[u].Fin? && v in dist && v != start
    requires Below(Fin(dist[u].hops + 1), dist[v])
    ensures HasCloserPredecessors(g, start, dist[v := Fin(dist[u].hops + 1)])
  {
    var dist' := dist[v := Fin(dist[u].hops + 1)];
    forall w | w in dist' && dist'[w].Fin? && w != start
      ensures HasCloserPredecessor(g, dist', w)
    {
      if w == v {
        assert u in g && w in g[u] && u in dist' && Below(dist'[u], dist'[w]);
      } else {
        assert HasCloserPredecessor(g, dist, w);
        var p :| p in g && w in g[p] && p in dist && Below(dist[p], dist[w]);
        assert p in dist' && Below(dist'[p], dist'[w]);
      }
    }
  }

  /**
   Lowering distances, at least one of them strictly and to a value below `n`,
   strictly shrinks the termination measure.
   */
  lemma LoweringShrinksExcess(dist0: DistanceMap, dist: DistanceMap, n: nat)
    requires dist.Keys == dist0.Keys
    requires forall v :: v in dist0 ==> AtMost(dist[v], dist0[v])
    requires exists v :: v in dist0 && Below(dist[v], dist0[v]) && dist[v].hops < n
    ensures Excess(dist, n) < Excess(dist0, n)
  {
    var v :| v in dist0 && Below(dist[v], dist0[v]) && dist[v].hops < n;
    var k := dist[v].hops;
    assert (v, k) in Excess(dist0, n);
    assert (v, k) !in Excess(dist, n);
    forall p | p in Excess(dist, n) ensures p in Excess(dist0, n) {
      var (w, j) := p;
      assert w in dist && 0 <= j < n && !AtMost(dist[w], Fin(j));
      assert AtMost(dist[w], dist0[w]);
    }
  }

  /** Popping an entry leaves every other heap entry sound. */
  lemma QueueSoundAfterPop(dist: DistanceMap, queue: seq<Entry>, e: Entry, rest: seq<Entry>)
    requires QueueSound(dist, queue)
    requires multiset(queue) == multiset(rest) + multiset{e}
    ensures QueueSound(dist, rest)
    ensures e in queue
  {
    forall i | 0 <= i < |rest|
      ensures rest[i].node in dist && AtMost(dist[rest[i].node], Fin(rest[i].dist))
    {
      assert rest[i] in multiset(queue);
    }
    assert e in multiset(queue);
  }

  lemma InRestAfterPop(queue: seq<Entry>, rest: seq<Entry>, e: Entry, x: Entry)
    requires multiset(queue) == multiset(rest) + multiset{e}
    requires x in queue && x != e
    ensures x in rest
  {
    assert x in multiset(queue);
  }

  // ---------------------------------------------------------------------------
  // The algorithm
  // ---------------------------------------------------------------------------

  /** The distances before the loop: the start at 0, every other known node at the sentinel. */
  function InitialDistances(g: Graph, start: Node): (dist: DistanceMap)
    ensures dist.Keys == Nodes(g) + {start}
    ensures forall v :: v in dist && v != start ==> dist[v] == Inf
    ensures start in dist && dist[start] == Fin(0)
  {
    map v | v in Nodes(g) + {start} :: if v == start then Fin(0) else Inf
  }

  /** Pops a least entry of the heap in `(distance, node)` order. */
  method PopMin(queue: seq<Entry>) returns (e: Entry, rest: seq<Entry>)
    requires |queue| > 0
    ensures multiset(queue) == multiset(rest) + multiset{e}
    ensures |rest| == |queue| - 1
    ensures forall i :: 0 <= i < |queue| ==> EntryLe(e, queue[i])
  {
    var m := 0;
    var i := 1;
    while i < |queue|
      invariant 0 <= m < |queue| && 1 <= i <= |queue|
      invariant forall j :: 0 <= j < i ==> EntryLe(queue[m], queue[j])
    {
      if !EntryLe(queue[m], queue[i]) {
        m := i;
      }
      i := i + 1;
    }
    e := queue[m];
    rest := queue[..m] + queue[m + 1..];
    assert queue == queue[..m] + [e] + queue[m + 1..];
  }

  /** What the inner loop keeps about the distances, compared with those it started from. */
  ghost predicate DistProgress(
    g: Graph, start: Node, dist0: DistanceMap, u: Node, d: nat, dist: DistanceMap)
  {
    && dist.Keys == dist0.Keys
    && u in dist && dist[u] == Fin(d)
    && start in dist && dist[start] == Fin(0)
    && (forall v :: v in dist0 ==> AtMost(dist[v], dist0[v]))
    && Bounded(dist)
    && HasCloserPredecessors(g, start, dist)
  }

  /** What the inner loop keeps about the heap and the termination measure. */
  ghost predicate QueueProgress(
    dist0: DistanceMap, queue0: seq<Entry>, dist: DistanceMap, queue: seq<Entry>, changed: bool)
  {
    && QueueSound(dist, queue)
    && (forall x :: x in queue0 ==> x in queue)
    && (forall v :: v in dist && v in dist0 && dist[v] != dist0[v] ==> dist[v].Fin? && Entry(dist[v].hops, v) in queue)
    && (changed ==> exists v :: v in dist0 && v in dist && Below(dist[v], dist0[v]))
    && (!changed ==> dist == dist0 && queue == queue0)
  }

  /** Before the inner loop changes anything, both progress facts hold trivially. */
  lemma RelaxStart(g: Graph, start: Node, dist0: DistanceMap, queue0: seq<Entry>, u: Node)
    requires u in dist0 && dist0[u].Fin?
    requires start in dist0 && dist0[start] == Fin(0)
    requires Bounded(dist0) && HasCloserPredecessors(g, start, dist0)
    requires QueueSound(dist0, queue0)
    ensures DistProgress(g, start, dist0, u, dist0[u].hops, dist0)
    ensures QueueProgress(dist0, queue0, dist0, queue0, false)
  {
  }

  /** Lowering one neighbour `v` of `u` to `d + 1` keeps the distance facts. */
  lemma RelaxOneDist(g: Graph, start: Node, dist0: DistanceMap, u: Node, d: nat, dist: DistanceMap, v: Node)
    requires DistProgress(g, start, dist0, u, d, dist)
    requires u in g && v in g[u] && v in dist && Below(Fin(d + 1), dist[v])
    ensures DistProgress(g, start, dist0, u, d, dist[v := Fin(d + 1)])
  {
    UpdateKeepsBounded(dist, u, v, d + 1);
    UpdateKeepsPredecessors(g, start, dist, u, v);
  }

  /** Lowering `v` to `k` and pushing `(k, v)` keeps the heap facts. */
  lemma RelaxOneQueue(
    dist0: DistanceMap, queue0: seq<Entry>, dist: DistanceMap, queue: seq<Entry>, changed: bool,
    v: Node, k: nat)
    requires QueueProgress(dist0, queue0, dist, queue, changed)
    requires dist.Keys == dist0.Keys
    requires forall w :: w in dist0 ==> AtMost(dist[w], dist0[w])
    requires v in dist && Below(Fin(k), dist[v])
    ensures QueueProgress(dist0, queue0, dist[v := Fin(k)], queue + [Entry(k, v)], true)
  {
    var dist' := dist[v := Fin(k)];
    var queue' := queue + [Entry(k, v)];
    forall i | 0 <= i < |queue'|
      ensures queue'[i].node in dist' && AtMost(dist'[queue'[i].node], Fin(queue'[i].dist))
    {
      if i < |queue| {
        assert queue'[i] == queue[i];
      }
    }
    assert AtMost(dist[v], dist0[v]);
    assert v in dist0 && v in dist' && Below(dist'[v], dist0[v]);
    if !changed {
      assert dist == dist0;
    }
  }

  /** The first `j` neighbours in `ns` are at most `d + 1` away. */
  ghost predicate WithinOneHop(dist: DistanceMap, ns: seq<Node>, j: nat, d: nat)
    requires j <= |ns|
  {
    forall i :: 0 <= i < j ==> ns[i] in dist && AtMost(dist[ns[i]], Fin(d + 1))
  }

  /** Lowering neighbour `ns[j]` to `d + 1` extends the relaxed prefix by one. */
  lemma WithinOneHopAfterLower(dist: DistanceMap, ns: seq<Node>, j: nat, d: nat)
    requires j < |ns| && WithinOneHop(dist, ns, j, d) && ns[j] in dist
    ensures WithinOneHop(dist[ns[j] := Fin(d + 1)], ns, j + 1, d)
  {
    var dist' := dist[ns[j] := Fin(d + 1)];
    forall i | 0 <= i < j + 1 ensures ns[i] in dist' && AtMost(dist'[ns[i]], Fin(d + 1)) {
      if ns[i] != ns[j] {
        assert AtMost(dist[ns[i]], Fin(d + 1));
      }
    }
  }

  /** A neighbour already at most `d + 1` away extends the relaxed prefix by one. */
  lemma WithinOneHopAfterSkip(dist: DistanceMap, ns: seq<Node>, j: nat, d: nat)
    requires j < |ns| && WithinOneHop(dist, ns, j, d)
    requires ns[j] in dist && AtMost(dist[ns[j]], Fin(d + 1))
    ensures WithinOneHop(dist, ns, j + 1, d)
  {
  }

  /** Once every neighbour of `u` is at most one hop further than `u`, `u` is relaxed. */
  lemma WithinOneHopIsRelaxed(g: Graph, dist: DistanceMap, u: Node)
    requires u in g && u in dist && dist[u].Fin?
    requires WithinOneHop(dist, g[u], |g[u]|, dist[u].hops)
    ensures RelaxedAt(g, dist, u)
  {
    var ns := g[u];
    forall v | v in ns ensures v in dist && AtMost(dist[v], Fin(dist[u].hops + 1)) {
      var i :| 0 <= i < |ns| && ns[i] == v;
    }
  }

  /** What the inner loop keeps after handling the first `j` neighbours `ns` of `u`. */
  ghost predicate InnerInvariant(
    g: Graph, start: Node, dist0: DistanceMap, queue0: seq<Entry>, u: Node, d: nat, ns: seq<Node>,
    j: nat, dist: DistanceMap, queue: seq<Entry>, changed: bool)
  {
    && j <= |ns|
    && DistProgress(g, start, dist0, u, d, dist)
    && QueueProgress(dist0, queue0, dist, queue, changed)
    && WithinOneHop(dist, ns, j, d)
  }

  /** One turn of the inner loop that lowers neighbour `ns[j]` keeps the inner invariant. */
  lemma InnerLower(
    g: Graph, start: Node, dist0: DistanceMap, queue0: seq<Entry>, u: Node, d: nat,
    j: nat, dist: DistanceMap, queue: seq<Entry>, changed: bool)
    requires u in g
    requires InnerInvariant(g, start, dist0, queue0, u, d, g[u], j, dist, queue, changed)
    requires j < |g[u]| && g[u][j] in dist && Below(Fin(d + 1), dist[g[u][j]])
    ensures InnerInvariant(
      g, start, dist0, queue0, u, d, g[u], j + 1,
      dist[g[u][j] := Fin(d + 1)], queue + [Entry(d + 1, g[u][j])], true)
  {
    var v := g[u][j];
    RelaxOneDist(g, start, dist0, u, d, dist, v);
    RelaxOneQueue(dist0, queue0, dist, queue, changed, v, d + 1);
    WithinOneHopAfterLower(dist, g[u], j, d);
  }

  /** One turn of the inner loop that leaves neighbour `ns[j]` alone keeps the inner invariant. */
  lemma InnerSkip(
    g: Graph, start: Node, dist0: DistanceMap, queue0: seq<Entry>, u: Node, d: nat,
    j: nat, dist: DistanceMap, queue: seq<Entry>, changed: bool)
    requires u in g
    requires InnerInvariant(g, start, dist0, queue0, u, d, g[u], j, dist, queue, changed)
    requires j < |g[u]| && g[u][j] in dist && !Below(Fin(d + 1), dist[g[u][j]])
    ensures InnerInvariant(g, start, dist0, queue0, u, d, g[u], j + 1, dist, queue, changed)
  {
    WithinOneHopAfterSkip(dist, g[u], j, d);
  }

  /** The distances after relaxing the neighbours `ns`, in order, from a node at distance `d`. */
  function RelaxAll(dist0: DistanceMap, ns: seq<Node>, d: nat): DistanceMap
    decreases |ns|
  {
    if |ns| == 0 then dist0
    else RelaxOne(RelaxAll(dist0, ns[..|ns| - 1], d), ns[|ns| - 1], d)
  }

  /** Neighbour `v` of a node at distance `d` is lowered to `d + 1` if that is shorter. */
  function RelaxOne(dist: DistanceMap, v: Node, d: nat): DistanceMap {
    if v in dist && Below(Fin(d + 1), dist[v]) then dist[v := Fin(d + 1)] else dist
  }

  /**
   Relaxing the neighbours `ns` computes `min(old, d + 1)` on each of them and
   touches no other node, whatever the order or repetitions in `ns`.
   */
  lemma {:induction false} RelaxAllExact(dist0: DistanceMap, ns: seq<Node>, d: nat)
    ensures RelaxAll(dist0, ns, d).Keys == dist0.Keys
    ensures forall v :: v in dist0 ==>
      RelaxAll(dist0, ns, d)[v] == (if v in ns && Below(Fin(d + 1), dist0[v]) then Fin(d + 1) else dist0[v])
    decreases |ns|
  {
    if |ns| > 0 {
      var init := ns[..|ns| - 1];
      var last := ns[|ns| - 1];
      RelaxAllExact(dist0, init, d);
      assert ns == init + [last];
      var dist := RelaxAll(dist0, init, d);
      forall v | v in dist0
        ensures RelaxAll(dist0, ns, d)[v] == (if v in ns && Below(Fin(d + 1), dist0[v]) then Fin(d + 1) else dist0[v])
      {
        if v == last && v in init {
          assert !Below(Fin(d + 1), dist[v]);
        }
      }
    }
  }

  /** Relaxing one more neighbour is one more turn of the inner loop. */
  lemma RelaxAllStep(dist0: DistanceMap, ns: seq<Node>, j: nat, d: nat)
    requires j < |ns|
    ensures RelaxAll(dist0, ns[..j + 1], d) == RelaxOne(RelaxAll(dist0, ns[..j], d), ns[j], d)
  {
    PrefixOfPrefix(ns, j, j + 1);
  }

  /** The heap after relaxing the neighbours `ns`, in order: one `(d + 1, v)` per lowering. */
  function PushAll(dist0: DistanceMap, queue0: seq<Entry>, ns: seq<Node>, d: nat): seq<Entry>
    decreases |ns|
  {
    if |ns| == 0 then queue0
    else
      var init := ns[..|ns| - 1];
      var v := ns[|ns| - 1];
      var dist := RelaxAll(dist0, init, d);
      var queue := PushAll(dist0, queue0, init, d);
      if v in dist && Below(Fin(d + 1), dist[v]) then queue + [Entry(d + 1, v)] else queue
  }

  /**
   Relaxing `ns` from a node at distance `d` keeps the heap `queue0` as a prefix and
   appends exactly one `(d + 1, v)` for each listed `v` that `d + 1` improves, and nothing else.
   */
  ghost predicate PushedExactly(dist0: DistanceMap, queue0: seq<Entry>, ns: seq<Node>, d: nat, queue: seq<Entry>)
  {
    && |queue0| <= |queue| && queue[..|queue0|] == queue0
    && (forall i :: |queue0| <= i < |queue| ==>
          queue[i].dist == d + 1 && queue[i].node in ns && queue[i].node in dist0
          && Below(Fin(d + 1), dist0[queue[i].node]))
    && (forall i, k :: |queue0| <= i < k < |queue| ==> queue[i].node != queue[k].node)
    && (forall v :: v in ns && v in dist0 && Below(Fin(d + 1), dist0[v]) ==> Entry(d + 1, v) in queue[|queue0|..])
  }

  /** The reference heap fold pushes exactly the improved neighbours, each once. */
  lemma {:induction false} PushAllExact(dist0: DistanceMap, queue0: seq<Entry>, ns: seq<Node>, d: nat)
    ensures PushedExactly(dist0, queue0, ns, d, PushAll(dist0, queue0, ns, d))
    decreases |ns|
  {
    if |ns| > 0 {
      var init := ns[..|ns| - 1];
      var v := ns[|ns| - 1];
      assert ns == init + [v];
      PushAllExact(dist0, queue0, init, d);
      RelaxAllExact(dist0, init, d);
      var dist := RelaxAll(dist0, init, d);
      var queue := PushAll(dist0, queue0, init, d);
      if v in dist && Below(Fin(d + 1), dist[v]) {
        var queue' := queue + [Entry(d + 1, v)];
        SuffixOfAppended(queue, Entry(d + 1, v), |queue0|);
        assert queue'[..|queue0|] == queue[..|queue0|];
        forall i | |queue0| <= i < |queue|
          ensures queue[i].node != v
        {
          var w := queue[i].node;
          assert w in init && Below(Fin(d + 1), dist0[w]);
          assert dist[w] == Fin(d + 1);
        }
        forall w | w in ns && w in dist0 && Below(Fin(d + 1), dist0[w])
          ensures Entry(d + 1, w) in queue'[|queue0|..]
        {
          if w != v {
            assert Entry(d + 1, w) in queue[|queue0|..];
          }
        }
      } else {
        forall w | w in ns && w in dist0 && Below(Fin(d + 1), dist0[w])
          ensures Entry(d + 1, w) in queue[|queue0|..]
        {
          if w == v && w !in init {
            assert false;
          }
        }
      }
    }
  }

  /** Pushing for one more neighbour is one more turn of the inner loop. */
  lemma PushAllStep(dist0: DistanceMap, queue0: seq<Entry>, ns: seq<Node>, j: nat, d: nat)
    requires j < |ns|
    ensures PushAll(dist0, queue0, ns[..j + 1], d) ==
      var dist := RelaxAll(dist0, ns[..j], d);
      var queue := PushAll(dist0, queue0, ns[..j], d);
      if ns[j] in dist && Below(Fin(d + 1), dist[ns[j]]) then queue + [Entry(d + 1, ns[j])] else queue
  {
    PrefixOfPrefix(ns, j, j + 1);
  }

  /** One turn of the inner loop: neighbour `g[u][j]` is lowered to `d + 1` and pushed if that is shorter. */
  method RelaxStep(
    g: Graph, start: Node, dist0: DistanceMap, queue0: seq<Entry>, u: Node, d: nat,
    j: nat, dist: DistanceMap, queue: seq<Entry>, changed: bool)
    returns (dist': DistanceMap, queue': seq<Entry>, changed': bool)
    requires u in g && j < |g[u]|
    requires forall v :: v in g[u] ==> v in dist0
    requires InnerInvariant(g, start, dist0, queue0, u, d, g[u], j, dist, queue, changed)
    ensures InnerInvariant(g, start, dist0, queue0, u, d, g[u], j + 1, dist', queue', changed')
    ensures dist' == RelaxOne(dist, g[u][j], d)
    ensures queue' == if g[u][j] in dist && Below(Fin(d + 1), dist[g[u][j]])
      then queue + [Entry(d + 1, g[u][j])] else queue
  {
    var v := g[u][j];
    var newDistance := d + 1;
    if v in dist && Below(Fin(newDistance), dist[v]) {
      InnerLower(g, start, dist0, queue0, u, d, j, dist, queue, changed);
      dist' := dist[v := Fin(newDistance)];
      queue' := queue + [Entry(newDistance, v)];
      changed' := true;
    } else {
      InnerSkip(g, start, dist0, queue0, u, d, j, dist, queue, changed);
      dist', queue', changed' := dist, queue, changed;
    }
  }

  /**
   The inner loop over the neighbours of `u`, whose recorded distance is finite:
   each neighbour whose distance exceeds `dist[u] + 1` is lowered to it and pushed.
   `changed` tells whether any distance was lowered.
   */
  method RelaxNeighbours(g: Graph, start: Node, dist0: DistanceMap, queue0: seq<Entry>, u: Node)
    returns (dist: DistanceMap, queue: seq<Entry>, changed: bool)
    requires u in g && u in dist0 && dist0[u].Fin?
    requires forall v :: v in g[u] ==> v in dist0
    requires start in dist0 && dist0[start] == Fin(0)
    requires Bounded(dist0)
    requires HasCloserPredecessors(g, start, dist0)
    requires QueueSound(dist0, queue0)
    ensures InnerInvariant(g, start, dist0, queue0, u, dist0[u].hops, g[u], |g[u]|, dist, queue, changed)
    ensures dist == RelaxAll(dist0, g[u], dist0[u].hops)
    ensures dist.Keys == dist0.Keys
    ensures forall v :: v in dist0 ==>
      dist[v] == (if v in g[u] && Below(Fin(dist0[u].hops + 1), dist0[v]) then Fin(dist0[u].hops + 1) else dist0[v])
    ensures PushedExactly(dist0, queue0, g[u], dist0[u].hops, queue)
  {
    var d := dist0[u].hops;
    dist, queue, changed := dist0, queue0, false;
    RelaxStart(g, start, dist0, queue0, u);
    var j := 0;
    assert g[u][..j] == [];
    while j < |g[u]|
      invariant InnerInvariant(g, start, dist0, queue0, u, d, g[u], j, dist, queue, changed)
      invariant dist == RelaxAll(dist0, g[u][..j], d)
      invariant queue == PushAll(dist0, queue0, g[u][..j], d)
    {
      RelaxAllStep(dist0, g[u], j, d);
      PushAllStep(dist0, queue0, g[u], j, d);
      dist, queue, changed := RelaxStep(g, start, dist0, queue0, u, d, j, dist, queue, changed);
      j := j + 1;
    }
    assert g[u][..j] == g[u];
    RelaxAllExact(dist0, g[u], d);
    PushAllExact(dist0, queue0, g[u], d);
  }

  /** After one popped entry, every reached key is still covered. */
  lemma CoverageAfterStep(
    g: Graph, dist: DistanceMap, queue: seq<Entry>, e: Entry, rest: seq<Entry>,
    dist': DistanceMap, queue': seq<Entry>)
    requires multiset(queue) == multiset(rest) + multiset{e}
    requires forall w :: Covered(g, dist, queue, w)
    requires dist'.Keys == dist.Keys
    requires forall v :: v in dist ==> AtMost(dist'[v], dist[v])
    requires forall x :: x in rest ==> x in queue'
    requires forall v :: v in dist' && dist'[v] != dist[v] ==> dist'[v].Fin? && Entry(dist'[v].hops, v) in queue'
    requires e.node in dist && dist[e.node] == Fin(e.dist) ==> RelaxedAt(g, dist', e.node)
    ensures forall w :: Covered(g, dist', queue', w)
  {
    forall w ensures Covered(g, dist', queue', w) {
      if w in g && w in dist' && dist'[w].Fin? {
        if dist'[w] != dist[w] {
        } else if w == e.node && dist[w] == Fin(e.dist) {
        } else if Entry(dist[w].hops, w) in queue {
          InRestAfterPop(queue, rest, e, Entry(dist[w].hops, w));
        } else {
          assert w in dist && Covered(g, dist, queue, w);
          assert RelaxedAt(g, dist, w);
          forall v | v in g[w] ensures v in dist' && AtMost(dist'[v], Fin(dist'[w].hops + 1)) {
            assert AtMost(dist[v], Fin(dist[w].hops + 1));
          }
        }
      }
    }
  }

  /** Only the start has a finite distance at first, so the initial distances are bounded. */
  lemma InitialBounded(g: Graph, start: Node)
    ensures Bounded(InitialDistances(g, start))
    ensures HasCloserPredecessors(g, start, InitialDistances(g, start))
  {
    var dist := InitialDistances(g, start);
    OnlyStartIsFinite(dist, start);
    assert |FiniteNodes(dist)| == 1;
    forall v | v in dist && dist[v].Fin? ensures dist[v].hops < |FiniteNodes(dist)| {
      assert v == start;
    }
    assert forall v :: v in dist && v != start ==> !dist[v].Fin?;
  }

  /** A map whose only finite entry is `start`, at 0, has `{start}` as its finite nodes. */
  lemma OnlyStartIsFinite(dist: DistanceMap, start: Node)
    requires start in dist && dist[start] == Fin(0)
    requires forall v :: v in dist && v != start ==> dist[v] == Inf
    ensures FiniteNodes(dist) == {start}
  {
  }

  /** At first the only reached key is the start, which waits in the heap. */
  lemma InitialCovered(g: Graph, start: Node)
    ensures QueueSound(InitialDistances(g, start), [Entry(0, start)])
    ensures forall w :: Covered(g, InitialDistances(g, start), [Entry(0, start)], w)
  {
    var dist := InitialDistances(g, start);
    var queue := [Entry(0, start)];
    forall w ensures Covered(g, dist, queue, w) {
      if w in g && w in dist && dist[w].Fin? {
        assert w == start;
      }
    }
  }

  /** The distances and heap the loop starts from satisfy its invariant. */
  lemma InitialInvariant(g: Graph, start: Node)
    ensures LoopInvariant(g, start, InitialDistances(g, start), [Entry(0, start)])
  {
    InitialBounded(g, start);
    InitialCovered(g, start);
  }

  /** A popped entry that is stale, or whose node has no neighbour list, leaves the invariant intact. */
  lemma SkipKeepsInvariant(g: Graph, start: Node, dist: DistanceMap, queue: seq<Entry>, e: Entry, rest: seq<Entry>)
    requires LoopInvariant(g, start, dist, queue)
    requires multiset(queue) == multiset(rest) + multiset{e}
    requires !(e.node in g && e.node in dist && AtMost(Fin(e.dist), dist[e.node]))
    ensures LoopInvariant(g, start, dist, rest)
  {
    QueueSoundAfterPop(dist, queue, e, rest);
    CoverageAfterStep(g, dist, queue, e, rest, dist, rest);
  }

  /**
   Relaxing the neighbours of a popped entry that is not stale keeps the invariant,
   and either lowers some distance, shrinking the termination measure, or changes nothing.
   */
  lemma RelaxKeepsInvariant(
    g: Graph, start: Node, dist: DistanceMap, queue: seq<Entry>, e: Entry, rest: seq<Entry>,
    dist': DistanceMap, queue': seq<Entry>, changed: bool)
    requires LoopInvariant(g, start, dist, queue)
    requires multiset(queue) == multiset(rest) + multiset{e}
    requires e.node in g && e.node in dist && dist[e.node] == Fin(e.dist)
    requires InnerInvariant(g, start, dist, rest, e.node, e.dist, g[e.node], |g[e.node]|, dist', queue', changed)
    ensures LoopInvariant(g, start, dist', queue')
    ensures |dist'| == |dist|
    ensures changed ==> Excess(dist', |dist|) < Excess(dist, |dist|)
    ensures !changed ==> dist' == dist && queue' == rest
  {
    var u := e.node;
    assert dist'[u] == Fin(e.dist);
    WithinOneHopIsRelaxed(g, dist', u);
    CoverageAfterStep(g, dist, queue, e, rest, dist', queue');
    if changed {
      var v :| v in dist && v in dist' && Below(dist'[v], dist[v]);
      SubsetSize(FiniteNodes(dist'), dist'.Keys);
      assert dist'[v].hops < |dist|;
      LoweringShrinksExcess(dist, dist', |dist|);
    }
  }

  /** When the heap is empty, the invariant gives the promised facts about the distances. */
  lemma FinalFacts(g: Graph, start: Node, dist: DistanceMap)
    requires LoopInvariant(g, start, dist, [])
    ensures Relaxed(g, dist)
    ensures Witnessed(g, start, dist)
    ensures forall v :: v in dist && dist[v].Fin? ==> dist[v].hops < |dist|
  {
    SubsetSize(FiniteNodes(dist), dist.Keys);
    forall w | w in g ensures RelaxedAt(g, dist, w) {
      assert Covered(g, dist, [], w);
    }
    ClosestPredecessorIsOneHop(g, start, dist);
  }

  /**
   `dijkstra(graph, start)`. The heap is a sequence drained by `PopMin`; the
   proofs do not depend on the pop order.
   */
  method Dijkstra(g: Graph, start: Node) returns (dist: DistanceMap)
    ensures dist.Keys == Nodes(g) + {start}
    ensures dist[start] == Fin(0)
    ensures Relaxed(g, dist)
    ensures Witnessed(g, start, dist)
    ensures forall v :: v in dist && dist[v].Fin? ==> dist[v].hops < |dist|
    ensures ShortestDistances(g, start, dist)
  {
    dist := InitialDistances(g, start);
    var queue := [Entry(0, start)];
    ghost var n := |dist|;
    InitialInvariant(g, start);
    while |queue| > 0
      invariant LoopInvariant(g, start, dist, queue)
      invariant |dist| == n
      decreases Excess(dist, n), |queue|
    {
      var e, rest := PopMin(queue);
      var u := e.node;
      QueueSoundAfterPop(dist, queue, e, rest);
      if u in g && u in dist && AtMost(Fin(e.dist), dist[u]) {
        assert dist[u] == Fin(e.dist);
        var dist', queue', changed := RelaxNeighbours(g, start, dist, rest, u);
        RelaxKeepsInvariant(g, start, dist, queue, e, rest, dist', queue', changed);
        dist, queue := dist', queue';
      } else {
        SkipKeepsInvariant(g, start, dist, queue, e, rest);
        queue := rest;
      }
    }
    FinalFacts(g, start, dist);
    DistancesAreShortest(g, start, dist);
  }

  /** Once every edge is relaxed, a strictly closer predecessor is exactly one hop closer. */
  lemma ClosestPredecessorIsOneHop(g: Graph, start: Node, dist: DistanceMap)
    requires Relaxed(g, dist) && HasCloserPredecessors(g, start, dist)
    ensures Witnessed(g, start, dist)
  {
    forall v | v in dist && dist[v].Fin? && v != start
      ensures HasOneHopPredecessor(g, dist, v)
    {
      assert HasCloserPredecessor(g, dist, v);
      var u :| u in g && v in g[u] && u in dist && Below(dist[u], dist[v]);
      assert RelaxedAt(g, dist, u);
      assert u in g && v in g[u] && u in dist && dist[u].Fin? && dist[u].hops + 1 == dist[v].hops;
    }
  }

  // ---------------------------------------------------------------------------
  // What the distances mean
  // ---------------------------------------------------------------------------

  /**
   Each recorded distance is finite exactly when the node is reachable from the
   start, and then it is the number of edges of a shortest path.
   */
  ghost predicate ShortestDistances(g: Graph, start: Node, dist: DistanceMap) {
    forall v :: v in dist ==>
      && (dist[v].Fin? <==> Reachable(g, start, v))
      && (dist[v].Fin? ==> exists p :: PathFromTo(g, start, v, p) && |p| == dist[v].hops + 1)
      && (dist[v].Fin? ==> forall p :: PathFromTo(g, start, v, p) ==> dist[v].hops + 1 <= |p|)
  }

  /** With every edge relaxed, a path of `|p| - 1` edges gives its end a finite distance of at most that. */
  lemma {:induction false} PathLengthBound(g: Graph, start: Node, dist: DistanceMap, v: Node, p: seq<Node>)
    requires Relaxed(g, dist) && start in dist && dist[start] == Fin(0)
    requires PathFromTo(g, start, v, p)
    ensures v in dist && dist[v].Fin? && dist[v].hops + 1 <= |p|
    decreases |p|
  {
    if |p| > 1 {
      var q := p[..|p| - 1];
      var u := q[|q| - 1];
      assert HasEdge(g, p[|p| - 2], p[|p| - 1]);
      PathLengthBound(g, start, dist, u, q);
      assert RelaxedAt(g, dist, u);
    }
  }

  /** Following one-hop predecessors back from a finite distance gives a path of exactly that many edges. */
  lemma {:induction false} ShortestPathWitness(g: Graph, start: Node, dist: DistanceMap, v: Node)
    returns (p: seq<Node>)
    requires Witnessed(g, start, dist) && start in dist && dist[start] == Fin(0)
    requires v in dist && dist[v].Fin?
    ensures PathFromTo(g, start, v, p) && |p| == dist[v].hops + 1
    decreases dist[v].hops
  {
    if v == start {
      p := [start];
    } else {
      assert HasOneHopPredecessor(g, dist, v);
      var u :| u in g && v in g[u] && u in dist && dist[u].Fin? && dist[u].hops + 1 == dist[v].hops;
      var q := ShortestPathWitness(g, start, dist, u);
      p := q + [v];
      forall i | 0 <= i < |p| - 1 ensures HasEdge(g, p[i], p[i + 1]) {
        if i < |q| - 1 {
          assert p[i] == q[i] && p[i + 1] == q[i + 1];
        }
      }
    }
  }

  /** Relaxed edges and one-hop witnesses together make every distance a shortest-path length. */
  lemma DistancesAreShortest(g: Graph, start: Node, dist: DistanceMap)
    requires start in dist && dist[start] == Fin(0)
    requires Relaxed(g, dist) && Witnessed(g, start, dist)
    ensures ShortestDistances(g, start, dist)
  {
    forall v | v in dist
      ensures dist[v].Fin? <==> Reachable(g, start, v)
      ensures dist[v].Fin? ==> exists p :: PathFromTo(g, start, v, p) && |p| == dist[v].hops + 1
      ensures dist[v].Fin? ==> forall p :: PathFromTo(g, start, v, p) ==> dist[v].hops + 1 <= |p|
    {
      if dist[v].Fin? {
        var p := ShortestPathWitness(g, start, dist, v);
        forall q | PathFromTo(g, start, v, q) ensures dist[v].hops + 1 <= |q| {
          PathLengthBound(g, start, dist, v, q);
        }
      } else if Reachable(g, start, v) {
        var q :| PathFromTo(g, start, v, q);
        PathLengthBound(g, start, dist, v, q);
      }
    }
  }

  /**
   Two distance maps over the same keys that both record shortest-path lengths
   are equal: the result does not depend on the order the heap pops ties in.
   */
  lemma ResultIsUnique(g: Graph, start: Node, dist1: DistanceMap, dist2: DistanceMap)
    requires dist1.Keys == dist2.Keys
    requires ShortestDistances(g, start, dist1) && ShortestDistances(g, start, dist2)
    ensures dist1 == dist2
  {
  }

  // ---------------------------------------------------------------------------
  // The two distance tests
  // ---------------------------------------------------------------------------

  /** The graph of the first test: 1 -> 2, 3; 2 -> 3, 4; 3 -> 4; 4 has no edges. */
  function DiamondGraph(): Graph {
    map[1 := [2, 3], 2 := [3, 4], 3 := [4], 4 := []]
  }

  lemma DiamondGraphNodes()
    ensures Nodes(DiamondGraph()) == {1, 2, 3, 4}
  {
    var g := DiamondGraph();
    forall u, v | u in g && v in g[u] ensures v in g.Keys {
    }
  }

  /** The distances the first test expects. */
  function DiamondDistances(): DistanceMap {
    map[1 := Fin(0), 2 := Fin(1), 3 := Fin(1), 4 := Fin(2)]
  }

  lemma DiamondRelaxed()
    ensures Relaxed(DiamondGraph(), DiamondDistances())
  {
  }

  lemma DiamondWitnessed()
    ensures Witnessed(DiamondGraph(), 1, DiamondDistances())
  {
    var g := DiamondGraph();
    var dist := DiamondDistances();
    assert HasOneHopPredecessor(g, dist, 2) by {
      assert 1 in g && 2 in g[1];
    }
    assert HasOneHopPredecessor(g, dist, 3) by {
      assert 1 in g && 3 in g[1];
    }
    assert HasOneHopPredecessor(g, dist, 4) by {
      assert 2 in g && 4 in g[2];
    }
  }

  /** The distances the first test expects are shortest-path lengths in its graph. */
  lemma DiamondDistancesAreShortest()
    ensures ShortestDistances(DiamondGraph(), 1, DiamondDistances())
  {
    DiamondRelaxed();
    DiamondWitnessed();
    DistancesAreShortest(DiamondGraph(), 1, DiamondDistances());
  }

  /** Any map of shortest distances over the first test's nodes is the one the test expects. */
  lemma DiamondResult(dist: DistanceMap)
    requires dist.Keys == Nodes(DiamondGraph()) + {1}
    requires ShortestDistances(DiamondGraph(), 1, dist)
    ensures dist == DiamondDistances()
  {
    DiamondGraphNodes();
    assert dist.Keys == DiamondDistances().Keys;
    DiamondDistancesAreShortest();
    ResultIsUnique(DiamondGraph(), 1, dist, DiamondDistances());
  }

  /** The first test: from node 1 the distances are 0, 1, 1 and 2. */
  method ExampleDiamond() returns (dist: DistanceMap)
    ensures dist == map[1 := Fin(0), 2 := Fin(1), 3 := Fin(1), 4 := Fin(2)]
  {
    dist := Dijkstra(DiamondGraph(), 1);
    DiamondResult(dist);
  }

  /** The graph of the second test: 1 -> 2, 3; 2 -> 3; 3 has no edges. */
  function ChainGraph(): Graph {
    map[1 := [2, 3], 2 := [3], 3 := []]
  }

  lemma ChainGraphNodes()
    ensures Nodes(ChainGraph()) == {1, 2, 3}
  {
    var g := ChainGraph();
    forall u, v | u in g && v in g[u] ensures v in g.Keys {
    }
  }

  /** What the code records for the second test: every node at the sentinel but the start. */
  function UnknownStartDistances(): DistanceMap {
    map[1 := Inf, 2 := Inf, 3 := Inf, 4 := Fin(0)]
  }

  /** From a start outside the graph nothing else is reachable. */
  lemma UnknownStartDistancesAreShortest()
    ensures ShortestDistances(ChainGraph(), 4, UnknownStartDistances())
  {
    DistancesAreShortest(ChainGraph(), 4, UnknownStartDistances());
  }

  /** Any map of shortest distances from 4 over the second test's nodes and 4 is the sentinel map. */
  lemma UnknownStartResult(dist: DistanceMap)
    requires dist.Keys == Nodes(ChainGraph()) + {4}
    requires ShortestDistances(ChainGraph(), 4, dist)
    ensures dist == UnknownStartDistances()
  {
    ChainGraphNodes();
    assert dist.Keys == UnknownStartDistances().Keys;
    UnknownStartDistancesAreShortest();
    ResultIsUnique(ChainGraph(), 4, dist, UnknownStartDistances());
  }

  /**
   The second test as the code behaves: starting at 4, which the graph does not
   mention, the result still records 4 at distance 0, so the test's claim that
   the map is empty or lacks 4 does not hold.
   */
  method ExampleUnknownStart() returns (dist: DistanceMap)
    ensures dist == map[1 := Inf, 2 := Inf, 3 := Inf, 4 := Fin(0)]
    ensures !(|dist| == 0 || 4 !in dist)
  {
    dist := Dijkstra(ChainGraph(), 4);
    UnknownStartResult(dist);
  }

  /**
   The behaviour the second test expects: a start the graph does not mention
   gives an empty map; otherwise the distances are those of `Dijkstra`.
   */
  method DijkstraKnownStart(g: Graph, start: Node) returns (dist: DistanceMap)
    ensures start !in Nodes(g) ==> dist == map[]
    ensures start in Nodes(g) ==> dist.Keys == Nodes(g) && dist[start] == Fin(0)
    ensures start in Nodes(g) ==> ShortestDistances(g, start, dist)
  {
    if start in Nodes(g) {
      dist := Dijkstra(g, start);
    } else {
      dist := map[];
    }
  }

  /** The second test holds for the corrected behaviour. */
  method ExampleUnknownStartCorrected() returns (dist: DistanceMap)
    ensures |dist| == 0 || 4 !in dist
  {
    ChainGraphNodes();
    dist := DijkstraKnownStart(ChainGraph(), 4);
  }
}
