/** The `GraphAlgorithm` base class of algorithms.py: the result fields a
    solver shows, `reset`, `update` with its state-key check, and the
    worker that runs one of the five solvers. The worker thread is replaced
    by a synchronous call: `busy` stands for `self._thread is not None`. */
module Solvers {
  import opened Common
  import opened GraphModel
  import opened Forests
  import opened Outcomes
  import Dijkstra
  import BellmanFord
  import AStar
  import Kruskal
  import Prim

  class GraphAlgorithm {
    const kind: Kind
    const name: string
    const requiresSourceTarget: bool := NeedsEnds(kind)
    /** The host's vertex and edge lists, shared, not copied. */
    const graph: Store
    var result: seq<Item>
    var edgeResult: EdgeList
    var active: bool
    var source: Option<string>
    var target: Option<string>
    var needsUpdate: bool
    var lastKey: Option<StateKey>
    var busy: bool
    var resultReady: bool

    /** What the solver shows: `result`, `edge_result`, `active` and
        `_result_ready`. */
    function Shown(): (seq<Item>, EdgeList, bool, bool)
      reads this
    {
      (result, edgeResult, active, resultReady)
    }

    /** What `update` consults: the ends, the dirty flag, the last state key
        and whether a worker was started. */
    function Settings(): (Option<string>, Option<string>, bool, Option<StateKey>, bool)
      reads this
    {
      (source, target, needsUpdate, lastKey, busy)
    }

    /** `__init__` of the subclass for `kind`: empty results, inactive,
        dirty, no state key, no worker. */
    constructor (kind: Kind, graph: Store)
      ensures this.kind == kind && name == Title(kind)
      ensures this.graph == graph
      ensures result == [] && edgeResult == [] && !active && source == None && target == None
      ensures needsUpdate && lastKey == None && !busy && !resultReady
    {
      this.kind := kind;
      name := Title(kind);
      this.graph := graph;
      result, edgeResult, active := [], [], false;
      source, target := None, None;
      needsUpdate, lastKey, busy, resultReady := true, None, false, false;
    }

    /** `reset`: clear both results, go inactive and dirty, forget the worker
        and the state key. */
    method Reset()
      modifies this
      ensures result == [] && edgeResult == [] && !active && needsUpdate
      ensures !busy && !resultReady && lastKey == None
      ensures source == old(source) && target == old(target)
    {
      result, edgeResult, active, needsUpdate := [], [], false, true;
      busy, resultReady, lastKey := false, false, None;
    }

    /** `update(source, target, directed, compute_enabled)`: nothing when
        computing is off or the state key is the last one seen; otherwise
        remember the key and the ends, and start a run unless the solver
        needs both ends and lacks one, or a worker was already started. */
    method Update(source: Option<string>, target: Option<string>, directed: bool, computeEnabled: bool,
                  h: string -> real)
      requires computeEnabled ==> EndsKnown(graph.vertices, graph.edges)
      modifies this
      ensures !computeEnabled ==> unchanged(this)
      ensures var key := StateKey(FingerprintOf(graph.vertices, graph.edges), source, target, directed);
              && (computeEnabled && old(lastKey) == Some(key) ==> unchanged(this))
              && (computeEnabled && old(lastKey) != Some(key) ==>
                    && Settings() == (source, target, true, Some(key),
                                      old(busy) || (!EndsMissing(kind, source, target) && Raises(kind, graph.vertices, graph.edges, source, target, directed)))
                    && (EndsMissing(kind, source, target) || old(busy) ==> Shown() == old(Shown()))
                    && (!EndsMissing(kind, source, target) && !old(busy) ==>
                          if Raises(kind, graph.vertices, graph.edges, source, target, directed) then Shown() == ([], [], false, false)
                          else Finished(kind, graph.vertices, graph.edges, source, target, directed, result, edgeResult)
                               && active && resultReady))
    {
      if !computeEnabled {
        return;
      }
      var key := StateKey(FingerprintOf(graph.vertices, graph.edges), source, target, directed);
      if lastKey == Some(key) {
        return;
      }
      lastKey := Some(key);
      this.source, this.target := source, target;
      needsUpdate := true;
      if requiresSourceTarget && !(Given(source) && Given(target)) {
        return;
      }
      if !busy && needsUpdate {
        result, edgeResult, active, resultReady := [], [], false, false;
        busy := true;
        RunThread(source, target, directed, h);
      }
    }

    /** `_run_thread`: `run`, then `_result_ready` and `active` set and the
        worker forgotten; when `run` raises, none of this happens, so the
        worker is never forgotten and no later `update` starts a run until
        `reset`. */
    method RunThread(source: Option<string>, target: Option<string>, directed: bool, h: string -> real)
      requires EndsKnown(graph.vertices, graph.edges)
      requires !EndsMissing(kind, source, target)
      modifies this
      ensures if Raises(kind, old(graph.vertices), old(graph.edges), source, target, directed) then Shown() == old(Shown())
              else Finished(kind, old(graph.vertices), old(graph.edges), source, target, directed, result, edgeResult)
                   && active && resultReady
      ensures Settings() == (old(this.source), old(this.target), old(needsUpdate), old(lastKey),
                             old(busy) && Raises(kind, old(graph.vertices), old(graph.edges), source, target, directed))
    {
      var vs, es := graph.vertices, graph.edges;
      var raised, r, e := RunSolver(kind, vs, es, source, target, directed, h);
      if !raised {
        result, edgeResult, resultReady, active, busy := r, e, true, true, false;
      }
    }
  }

  /** `self.run(source, target, directed)` of the solver `k`: whether it
      raises, and otherwise the `result` and `edge_result` it leaves. */
  method RunSolver(k: Kind, vs: seq<Vertex>, es: seq<Edge>, source: Option<string>, target: Option<string>,
                   directed: bool, h: string -> real)
    returns (raised: bool, result: seq<Item>, edges: EdgeList)
    requires EndsKnown(vs, es) && !EndsMissing(k, source, target)
    ensures raised == Raises(k, vs, es, source, target, directed)
    ensures !raised ==> Finished(k, vs, es, source, target, directed, result, edges)
  {
    raised := false;
    match k {
      case DijkstraSolver =>
        raised, result, edges := RunDijkstra(vs, es, source.value, target.value, directed);
      case BellmanFordSolver =>
        result, edges := RunBellmanFord(vs, es, source.value, target.value, directed);
      case AStarSolver =>
        raised, result, edges := RunAStar(vs, es, source.value, target.value, directed, h);
      case KruskalSolver =>
        raised, result, edges := RunKruskal(vs, es, source, target, directed);
      case PrimSolver =>
        result, edges := RunPrim(vs, es, source, target, directed);
    }
  }

  method RunDijkstra(vs: seq<Vertex>, es: seq<Edge>, source: string, target: string, directed: bool)
    returns (raised: bool, result: seq<Item>, edges: EdgeList)
    requires EndsKnown(vs, es)
    ensures raised == Raises(DijkstraSolver, vs, es, Some(source), Some(target), directed)
    ensures !raised ==> Finished(DijkstraSolver, vs, es, Some(source), Some(target), directed, result, edges)
  {
    var p, e, active;
    ghost var ws;
    raised, p, e, active, ws := Dijkstra.Run(vs, es, source, target, directed);
    result, edges := AsNames(p), e;
  }

  method RunBellmanFord(vs: seq<Vertex>, es: seq<Edge>, source: string, target: string, directed: bool)
    returns (result: seq<Item>, edges: EdgeList)
    requires EndsKnown(vs, es)
    ensures Finished(BellmanFordSolver, vs, es, Some(source), Some(target), directed, result, edges)
  {
    var p, e, _, ws := BellmanFord.Run(vs, es, source, target, directed);
    result, edges := AsNames(p), e;
  }

  method RunAStar(vs: seq<Vertex>, es: seq<Edge>, source: string, target: string, directed: bool, h: string -> real)
    returns (raised: bool, result: seq<Item>, edges: EdgeList)
    requires EndsKnown(vs, es)
    ensures raised == Raises(AStarSolver, vs, es, Some(source), Some(target), directed)
    ensures !raised ==> Finished(AStarSolver, vs, es, Some(source), Some(target), directed, result, edges)
  {
    var p, e, active;
    ghost var ws;
    raised, p, e, active, ws := AStar.Run(vs, es, source, target, directed, h);
    result, edges := AsNames(p), e;
  }

  method RunKruskal(vs: seq<Vertex>, es: seq<Edge>, source: Option<string>, target: Option<string>, directed: bool)
    returns (raised: bool, result: seq<Item>, edges: EdgeList)
    requires EndsKnown(vs, es)
    ensures raised == Raises(KruskalSolver, vs, es, source, target, directed)
    ensures !raised ==> Finished(KruskalSolver, vs, es, source, target, directed, result, edges)
  {
    var mst, active;
    ghost var chosen, root;
    raised, mst, active, chosen, root := Kruskal.Run(vs, es, directed);
    result, edges := AsPairs(mst), mst;
  }

  method RunPrim(vs: seq<Vertex>, es: seq<Edge>, source: Option<string>, target: Option<string>, directed: bool)
    returns (result: seq<Item>, edges: EdgeList)
    requires EndsKnown(vs, es)
    ensures Finished(PrimSolver, vs, es, source, target, directed, result, edges)
  {
    var mst, _, comp := Prim.Run(vs, es, directed);
    result, edges := AsPairs(mst), mst;
  }

  /** `get_all_algorithms`: one fresh solver of each kind, in this order,
      all sharing the host's graph. */
  method GetAllAlgorithms(graph: Store) returns (algs: seq<GraphAlgorithm>)
    ensures |algs| == 5
    ensures algs[0].kind == DijkstraSolver && algs[1].kind == BellmanFordSolver && algs[2].kind == AStarSolver
    ensures algs[3].kind == KruskalSolver && algs[4].kind == PrimSolver
    ensures forall a :: a in algs ==> && fresh(a) && a.graph == graph && a.result == [] && a.edgeResult == []
                                      && !a.active && a.needsUpdate && a.lastKey == None && !a.busy
  {
    var d := new GraphAlgorithm(DijkstraSolver, graph);
    var b := new GraphAlgorithm(BellmanFordSolver, graph);
    var s := new GraphAlgorithm(AStarSolver, graph);
    var k := new GraphAlgorithm(KruskalSolver, graph);
    var p := new GraphAlgorithm(PrimSolver, graph);
    algs := [d, b, s, k, p];
  }

  /** `mark_all_algorithms_dirty`: every solver is marked dirty, and nothing
      else changes. */
  method MarkAllAlgorithmsDirty(algs: seq<GraphAlgorithm>)
    modifies set a | a in algs
    ensures forall a :: a in algs ==> a.needsUpdate
    ensures forall a :: a in algs ==> && a.result == old(a.result) && a.edgeResult == old(a.edgeResult)
                                      && a.active == old(a.active) && a.lastKey == old(a.lastKey)
                                      && a.busy == old(a.busy) && a.resultReady == old(a.resultReady)
                                      && a.source == old(a.source) && a.target == old(a.target)
  {
    for i := 0 to |algs|
      invariant forall j :: 0 <= j < i ==> algs[j].needsUpdate
      invariant forall a :: a in algs ==> && a.result == old(a.result) && a.edgeResult == old(a.edgeResult)
                                          && a.active == old(a.active) && a.lastKey == old(a.lastKey)
                                          && a.busy == old(a.busy) && a.resultReady == old(a.resultReady)
                                          && a.source == old(a.source) && a.target == old(a.target)
    {
      algs[i].needsUpdate := true;
    }
  }
}
