/** The five solvers of algorithms.py as values: their names, which of them
    need a source and a target, the items they list, the state key of
    `GraphAlgorithm.update`, and what each one's `run` leaves behind. */
module Outcomes {
  import opened Common
  import opened GraphModel
  import opened Forests
  import opened Weighted
  import Kruskal
  import Dijkstra
  import AStar

  /** The five subclasses of `GraphAlgorithm`. */
  datatype Kind = DijkstraSolver | BellmanFordSolver | AStarSolver | KruskalSolver | PrimSolver

  /** The `name` each subclass passes to `GraphAlgorithm.__init__`. */
  function Title(k: Kind): string {
    match k
    case DijkstraSolver => "DIJKSTRA"
    case BellmanFordSolver => "BELLMAN-FORD"
    case AStarSolver => "A*"
    case KruskalSolver => "KRUSKAL"
    case PrimSolver => "PRIM"
  }

  /** `requires_source_target`: true by default, set to false by the two
      spanning-tree solvers. */
  predicate NeedsEnds(k: Kind) {
    k != KruskalSolver && k != PrimSolver
  }

  /** `self.requires_source_target and (not source or not target)`: the
      solver waits for both ends. */
  predicate EndsMissing(k: Kind, source: Option<string>, target: Option<string>) {
    NeedsEnds(k) && !(Given(source) && Given(target))
  }

  /** `result` of a path solver: its vertex names. */
  function AsNames(p: seq<string>): (r: seq<Item>)
    ensures |r| == |p| && forall i :: 0 <= i < |p| ==> r[i] == Name(p[i])
  {
    if p == [] then [] else [Name(p[0])] + AsNames(p[1..])
  }

  /** `result` of a spanning-tree solver: its pairs. */
  function AsPairs(mst: EdgeList): (r: seq<Item>)
    ensures |r| == |mst| && forall i :: 0 <= i < |mst| ==> r[i] == Pair(mst[i].0, mst[i].1)
  {
    if mst == [] then [] else [Pair(mst[0].0, mst[0].1)] + AsPairs(mst[1..])
  }

  /** Python's `not source`: `None` and the empty name are both missing. */
  predicate Given(s: Option<string>) {
    s.Some? && s.value != ""
  }

  /** The graph fingerprint: the set of vertex names and the set of
      `(start, end)` pairs. Weights are not part of it. */
  datatype Fingerprint = Fingerprint(names: set<string>, pairs: set<(string, string)>)

  function FingerprintOf(vs: seq<Vertex>, es: seq<Edge>): (f: Fingerprint)
    ensures f.names == NameSet(vs)
    ensures forall a, b :: (a, b) in f.pairs <==> exists e :: e in es && e.start == a && e.end == b
  {
    Fingerprint(NameSet(vs), set e | e in es :: (e.start, e.end))
  }

  /** Editing an edge's value leaves the fingerprint as it was, so `update`
      sees the same state key and returns early. */
  lemma FingerprintIgnoresValues(vs: seq<Vertex>, es: seq<Edge>, i: int, v: Value)
    requires 0 <= i < |es|
    ensures FingerprintOf(vs, es[i := es[i].(value := v)]) == FingerprintOf(vs, es)
  {
    var es' := es[i := es[i].(value := v)];
    var f, f' := FingerprintOf(vs, es), FingerprintOf(vs, es');
    forall a, b | (a, b) in f'.pairs ensures (a, b) in f.pairs {
      var e :| e in es' && e.start == a && e.end == b;
      var j :| 0 <= j < |es'| && es'[j] == e;
      assert es[j] in es && es[j].start == a && es[j].end == b;
    }
    forall a, b | (a, b) in f.pairs ensures (a, b) in f'.pairs {
      var e :| e in es && e.start == a && e.end == b;
      var j :| 0 <= j < |es| && es[j] == e;
      assert es'[j] in es' && es'[j].start == a && es'[j].end == b;
    }
  }

  /** Moving or highlighting vertices, which keeps their names in place,
      leaves the fingerprint as it was. */
  lemma FingerprintIgnoresVertexFields(vs: seq<Vertex>, vs': seq<Vertex>, es: seq<Edge>)
    requires |vs'| == |vs| && forall i :: 0 <= i < |vs| ==> vs'[i].name == vs[i].name
    ensures FingerprintOf(vs', es) == FingerprintOf(vs, es)
  {
    forall n | n in NameSet(vs') ensures n in NameSet(vs) {
      var w :| w in vs' && w.name == n;
      var j :| 0 <= j < |vs'| && vs'[j] == w;
      assert vs[j] in vs;
    }
    forall n | n in NameSet(vs) ensures n in NameSet(vs') {
      var w :| w in vs && w.name == n;
      var j :| 0 <= j < |vs| && vs[j] == w;
      assert vs'[j] in vs';
    }
  }

  /** An edge with a `(start, end)` pair no edge had changes the fingerprint. */
  lemma FingerprintSeesNewPair(vs: seq<Vertex>, es: seq<Edge>, e: Edge)
    requires forall x :: x in es ==> (x.start, x.end) != (e.start, e.end)
    ensures FingerprintOf(vs, es + [e]) != FingerprintOf(vs, es)
  {
    assert e in es + [e];
    assert (e.start, e.end) in FingerprintOf(vs, es + [e]).pairs;
  }

  /** A vertex with a new name changes the fingerprint. */
  lemma FingerprintSeesNewName(vs: seq<Vertex>, es: seq<Edge>, v: Vertex)
    requires v.name !in NameSet(vs)
    ensures FingerprintOf(vs + [v], es) != FingerprintOf(vs, es)
  {
    assert v in vs + [v];
  }

  /** `state_key = (self.graph_state._hash_graph(), source, target, directed)`. */
  datatype StateKey = StateKey(graph: Fingerprint, source: Option<string>, target: Option<string>, directed: bool)

  /** `run` raises, and the worker then dies before marking the result
      ready: Kruskal's sort meets a value `float` rejects, Dijkstra looks up a
      source that is no vertex, and A* does the same or its heuristic divides
      by a zero mean weight. */
  predicate Raises(k: Kind, vs: seq<Vertex>, es: seq<Edge>, source: Option<string>, target: Option<string>,
                   directed: bool) {
    || (k == KruskalSolver && !directed && Kruskal.Unparsable(es))
    || (k == DijkstraSolver && source.Some? && target.Some? && Dijkstra.RunRaises(vs, es, source.value, target.value))
    || (k == AStarSolver && source.Some? && target.Some? && AStar.RunRaises(vs, es, source.value, target.value))
  }

  /** A path solver's `result` and `edge_result`: some answer of the search,
      of least cost when `cheapest` is asked for. */
  ghost predicate PathAnswer(adj: WAdj, source: string, target: string, result: seq<Item>, edges: EdgeList, cheapest: bool) {
    exists p: seq<string>, active: bool, ws: seq<int> {:trigger Answers(adj, source, target, p, edges, active, ws)} ::
      && result == AsNames(p) && Answers(adj, source, target, p, edges, active, ws)
      && (cheapest && p != [] ==> Cheapest(adj, source, target, ws))
  }

  /** What each solver's `run` leaves in `result` and `edge_result` when it
      returns. */
  ghost predicate Finished(k: Kind, vs: seq<Vertex>, es: seq<Edge>, source: Option<string>, target: Option<string>,
                           directed: bool, result: seq<Item>, edges: EdgeList) {
    match k
    case DijkstraSolver => source.Some? && target.Some? && DijkstraDone(vs, es, source.value, target.value, directed, result, edges)
    case BellmanFordSolver => source.Some? && target.Some? && BellmanFordDone(vs, es, source.value, target.value, directed, result, edges)
    case AStarSolver => source.Some? && target.Some? && AStarDone(vs, es, source.value, target.value, directed, result, edges)
    case KruskalSolver => KruskalDone(vs, es, directed, result, edges)
    case PrimSolver => PrimDone(vs, es, directed, result, edges)
  }

  /** Dijkstra: nothing when some weight is negative, otherwise a cheapest
      path when there is one. */
  ghost predicate DijkstraDone(vs: seq<Vertex>, es: seq<Edge>, source: string, target: string, directed: bool,
                               result: seq<Item>, edges: EdgeList) {
    if NegativeEdge(es) then result == [] && edges == []
    else PathAnswer(WeightedAdj(vs, es, directed), source, target, result, edges, true)
  }

  /** Bellman-Ford: nothing when a negative cycle is reachable, otherwise a
      cheapest path when there is one. */
  ghost predicate BellmanFordDone(vs: seq<Vertex>, es: seq<Edge>, source: string, target: string, directed: bool,
                                  result: seq<Item>, edges: EdgeList) {
    if NegativeCycleFrom(WeightedAdj(vs, es, directed), source) then result == [] && edges == []
    else PathAnswer(WeightedAdj(vs, es, directed), source, target, result, edges, true)
  }

  /** A*: nothing when some weight is negative, otherwise a path when there
      is one. */
  ghost predicate AStarDone(vs: seq<Vertex>, es: seq<Edge>, source: string, target: string, directed: bool,
                            result: seq<Item>, edges: EdgeList) {
    if NegativeEdge(es) then result == [] && edges == []
    else PathAnswer(WeightedAdj(vs, es, directed), source, target, result, edges, false)
  }

  /** Kruskal: nothing on a directed graph, otherwise a spanning forest
      chosen in weight order; `result` and `edge_result` are one list. */
  ghost predicate KruskalDone(vs: seq<Vertex>, es: seq<Edge>, directed: bool, result: seq<Item>, edges: EdgeList) {
    && result == AsPairs(edges)
    && (directed ==> edges == [])
    && (!directed ==> exists chosen, root :: Kruskal.Built(NameSet(vs), es, edges, chosen, root))
  }

  /** Prim: nothing on a directed graph or without vertices, otherwise a
      spanning forest; `result` and `edge_result` are one list. */
  ghost predicate PrimDone(vs: seq<Vertex>, es: seq<Edge>, directed: bool, result: seq<Item>, edges: EdgeList) {
    && result == AsPairs(edges)
    && (directed || vs == [] ==> edges == [])
    && (!directed ==> exists comp :: SpanningForest(NameSet(vs), es, edges, comp) && FromGraph(es, edges))
  }
}
