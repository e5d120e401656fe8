/** `AStarSolver.run`: a heap of `(f, g, node)` entries ordered by `f`, the
    cost so far plus the heuristic; every popped node is expanded (there is no
    stale-entry check), the search stops when the target comes off the heap,
    then the `came_from` chain is walked back to the source. The heuristic is
    a parameter, `h(v)` standing for `heuristic(v, target)`. */
module AStar {
  import opened Common
  import opened GraphModel
  import opened Weighted
  import opened Relaxation
  import Dijkstra
  import Kruskal

  type Open = multiset<(real, int, string)>

  /** No entry of the heap has an `f` below `f`. */
  ghost predicate Lowest(f: real, heap: Open) {
    forall f', g, v {:trigger heap[(f', g, v)]} :: (f', g, v) in heap ==> f <= f'
  }

  /** A non-empty heap has an entry of least `f`; the keys are reals and the
      entries carry `g`, so Dijkstra's integer-keyed lemma does not apply. */
  lemma {:induction false} LowestExists(h: Open)
    requires h != multiset{}
    ensures exists e :: e in h && Lowest(e.0, h)
    decreases |h|
  {
    var x :| x in h;
    var rest := h - multiset{x};
    assert h == rest + multiset{x};
    if rest == multiset{} {
      forall f', g, v {:trigger h[(f', g, v)]} | (f', g, v) in h ensures x.0 <= f' {
        assert (f', g, v) in multiset{x};
      }
    } else {
      LowestExists(rest);
      var m :| m in rest && Lowest(m.0, rest);
      if x.0 < m.0 {
        forall f', g, v {:trigger h[(f', g, v)]} | (f', g, v) in h ensures x.0 <= f' {
          assert (f', g, v) in rest || (f', g, v) in multiset{x};
        }
      } else {
        forall f', g, v {:trigger h[(f', g, v)]} | (f', g, v) in h ensures m.0 <= f' {
          assert (f', g, v) in rest || (f', g, v) in multiset{x};
        }
        assert m in h;
      }
    }
  }

  /** `heappop`: an entry of least `f`. Python breaks ties by `g`, then by
      name; the model takes any entry of least `f`. */
  method PopLowest(heap: Open) returns (e: (real, int, string))
    requires heap != multiset{}
    ensures e in heap && Lowest(e.0, heap)
  {
    LowestExists(heap);
    ghost var m :| m in heap && Lowest(m.0, heap);
    forall t | t in heap ensures m.0 <= t.0 {
      var (f, g, v) := t;
      assert (f, g, v) in heap;
    }
    e :| e in heap && forall t :: t in heap ==> e.0 <= t.0;
    forall f, g, v {:trigger heap[(f, g, v)]} | (f, g, v) in heap ensures e.0 <= f {
      assert (f, g, v).0 == f;
    }
  }

  /** Every entry's node has a finite cost. */
  ghost predicate EntriesFinite(dist: Dist, heap: Open) {
    forall f, g, v {:trigger heap[(f, g, v)]} :: (f, g, v) in heap ==> v in dist && dist[v].Some?
  }

  /** `entry[v]` is one of `v`'s entries in the heap. */
  ghost predicate Pending(heap: Open, entry: map<string, (real, int)>) {
    forall v :: v in entry ==> (entry[v].0, entry[v].1, v) in heap
  }

  /** Every finite node outside `skip` still has an entry or is expanded. */
  ghost predicate Covered(adj: WAdj, dist: Dist, entry: map<string, (real, int)>, skip: set<string>) {
    forall v :: v in dist && dist[v].Some? ==> v in entry || v in skip || Settled(adj, dist, v)
  }

  /** The invariant of the `while open_set` loop: the links and routes of
      `Relaxation`, and every finite node either waiting on the heap or
      expanded with nothing left to relax. */
  ghost predicate Searching(adj: WAdj, source: string, dist: Dist, prev: map<string, string>, b: Book,
                            heap: Open, entry: map<string, (real, int)>) {
    && Consistent(adj, source, dist, prev, b) && source !in prev
    && EntriesFinite(dist, heap) && Pending(heap, entry) && Covered(adj, dist, entry, {})
  }

  /** The invariant of the expansion of `u`: `u`'s cost fixed, every finite
      node but `u` waiting or expanded, and the termination measure below its
      value at the top of the loop. */
  ghost predicate Expanding(adj: WAdj, keys: seq<string>, u: string, du: int, dist: Dist, heap: Open,
                            entry: map<string, (real, int)>, u0: nat, s0: nat, n0: nat) {
    && u in dist && dist[u] == Some(du) && du >= 0
    && EntriesFinite(dist, heap) && Pending(heap, entry) && Covered(adj, dist, entry, {u})
    && Progress(u0, s0, n0, |Unreached(dist)|, FiniteSum(dist, keys), |heap|)
  }

  /** Taking `e` off the heap starts the expansion of its node. */
  lemma ExpandStart(adj: WAdj, keys: seq<string>, source: string, dist: Dist, prev: map<string, string>, b: Book,
                    heap: Open, entry: map<string, (real, int)>, e: (real, int, string))
    requires NonNegative(adj) && Searching(adj, source, dist, prev, b, heap, entry) && e in heap
    ensures e.2 in dist && dist[e.2].Some?
    ensures Expanding(adj, keys, e.2, dist[e.2].value, dist, heap - multiset{e}, entry - {e.2},
                      |Unreached(dist)|, FiniteSum(dist, keys), |heap|)
  {
    var (f, g, v) := e;
    assert (f, g, v) in heap;
    DistNonNegative(adj, source, dist, prev, b, e.2);
    var heap', entry' := heap - multiset{e}, entry - {e.2};
    forall f, g, v {:trigger heap'[(f, g, v)]} | (f, g, v) in heap' ensures v in dist && dist[v].Some? {
      assert (f, g, v) in heap;
    }
    forall v | v in entry' ensures (entry'[v].0, entry'[v].1, v) in heap' {
      assert (entry[v].0, entry[v].1, v) in heap;
    }
    assert heap == heap' + multiset{e};
  }

  /** Lowering `dist[v]` through an improving entry `(v, w)` of `u` and
      pushing `(f, g, v)` keeps the expansion's invariant. */
  lemma ExpandRelax(adj: WAdj, keys: seq<string>, u: string, du: int, dist: Dist, heap: Open,
                    entry: map<string, (real, int)>, u0: nat, s0: nat, n0: nat, v: string, w: int, f: real)
    requires Expanding(adj, keys, u, du, dist, heap, entry, u0, s0, n0)
    requires w >= 0 && v in dist && v in keys && Improves(dist[u], w, dist[v])
    ensures v != u
    ensures Expanding(adj, keys, u, du, dist[v := Some(dist[u].value + w)],
                      heap + multiset{(f, dist[u].value + w, v)}, entry[v := (f, dist[u].value + w)], u0, s0, n0)
  {
    var g := dist[u].value + w;
    var dist', heap', entry' := dist[v := Some(g)], heap + multiset{(f, g, v)}, entry[v := (f, g)];
    forall f1, g1, v1 {:trigger heap'[(f1, g1, v1)]} | (f1, g1, v1) in heap' ensures v1 in dist' && dist'[v1].Some? {
      if (f1, g1, v1) != (f, g, v) {
        assert (f1, g1, v1) in heap;
      }
    }
    forall x | x in dist' && dist'[x].Some? ensures x in entry' || x in {u} || Settled(adj, dist', x) {
      if x != v && x != u && x !in entry {
        SettledKept(adj, dist, dist', x);
      }
    }
    RelaxFalls(dist, keys, v, g, u0, s0, n0, |heap|, |heap'|);
  }

  /** The search's state while `u` is expanded. */
  ghost predicate Expansion(adj: WAdj, keys: seq<string>, source: string, u: string, du: int,
                            dist: Dist, prev: map<string, string>, b: Book, heap: Open,
                            entry: map<string, (real, int)>, u0: nat, s0: nat, n0: nat) {
    && WClosed(adj) && NonNegative(adj) && (forall k :: k in keys <==> k in adj) && u in adj
    && Consistent(adj, source, dist, prev, b) && source !in prev
    && Expanding(adj, keys, u, du, dist, heap, entry, u0, s0, n0)
  }

  /** One entry `(v, w)` of `u`'s list: relax it if it improves and push
      `(g + h(v), g, v)`. */
  method ExpandEntry(adj: WAdj, ghost keys: seq<string>, source: string, h: string -> real, u: string, ghost du: int,
                     dist: Dist, prev: map<string, string>, ghost b: Book, heap: Open,
                     ghost entry: map<string, (real, int)>, ghost u0: nat, ghost s0: nat, ghost n0: nat,
                     ns: seq<(string, int)>, j: nat)
    returns (dist': Dist, prev': map<string, string>, ghost b': Book, heap': Open,
             ghost entry': map<string, (real, int)>)
    requires Expansion(adj, keys, source, u, du, dist, prev, b, heap, entry, u0, s0, n0)
    requires ns == adj[u] && j < |ns| && Relaxed(dist, u, ns[..j])
    ensures Expansion(adj, keys, source, u, du, dist', prev', b', heap', entry', u0, s0, n0) && Relaxed(dist', u, ns[..j + 1])
  {
    var (v, w) := ns[j];
    ghost var ps := ns[..j];
    TakeNext(ns, j);
    assert (v, w) in adj[u];
    assert w >= 0 && v in adj;
    if Improves(dist[u], w, dist[v]) {
      var f := (dist[u].value + w) as real + h(v);
      Relax(adj, source, dist, prev, b, u, v, w);
      ExpandRelax(adj, keys, u, du, dist, heap, entry, u0, s0, n0, v, w, f);
      RelaxedStep(dist, u, ps, v, w);
      b', dist', prev' := NextBook(b, u, v, w), dist[v := Some(dist[u].value + w)], prev[v := u];
      heap', entry' := heap + multiset{(f, dist[u].value + w, v)}, entry[v := (f, dist[u].value + w)];
    } else {
      RelaxedNext(dist, u, ps, v, w);
      dist', prev', b', heap', entry' := dist, prev, b, heap, entry;
    }
  }

  /** `for neighbor, weight in adj[current]`: relax every improving entry. */
  method Expand(adj: WAdj, ghost keys: seq<string>, source: string, h: string -> real, u: string, ghost du: int,
                dist: Dist, prev: map<string, string>, ghost b: Book, heap: Open,
                ghost entry: map<string, (real, int)>, ghost u0: nat, ghost s0: nat, ghost n0: nat)
    returns (dist': Dist, prev': map<string, string>, ghost b': Book, heap': Open,
             ghost entry': map<string, (real, int)>)
    requires Expansion(adj, keys, source, u, du, dist, prev, b, heap, entry, u0, s0, n0)
    ensures Expansion(adj, keys, source, u, du, dist', prev', b', heap', entry', u0, s0, n0) && Relaxed(dist', u, adj[u])
  {
    dist', prev', b', heap', entry' := dist, prev, b, heap, entry;
    var ns := adj[u];
    for j := 0 to |ns|
      invariant Expansion(adj, keys, source, u, du, dist', prev', b', heap', entry', u0, s0, n0)
      invariant Relaxed(dist', u, ns[..j])
    {
      dist', prev', b', heap', entry' := ExpandEntry(adj, keys, source, h, u, du, dist', prev', b', heap', entry',
                                                     u0, s0, n0, ns, j);
    }
    assert ns[..|ns|] == ns;
  }

  /** Once all of `u`'s list is relaxed, `u` is expanded and the search's
      invariant holds again, with the measure lowered. */
  lemma ExpandEnd(adj: WAdj, keys: seq<string>, source: string, u: string, du: int, dist: Dist,
                  prev: map<string, string>, b: Book, heap: Open, entry: map<string, (real, int)>,
                  u0: nat, s0: nat, n0: nat)
    requires u in adj && Consistent(adj, source, dist, prev, b) && source !in prev
    requires Expanding(adj, keys, u, du, dist, heap, entry, u0, s0, n0) && Relaxed(dist, u, adj[u])
    ensures Searching(adj, source, dist, prev, b, heap, entry)
    ensures Progress(u0, s0, n0, |Unreached(dist)|, FiniteSum(dist, keys), |heap|)
  {
    assert Settled(adj, dist, u);
  }

  /** With the heap empty every finite node is expanded, so nothing relaxes. */
  lemma Exhausted(adj: WAdj, source: string, dist: Dist, prev: map<string, string>, b: Book,
                  entry: map<string, (real, int)>)
    requires WClosed(adj) && Searching(adj, source, dist, prev, b, multiset{}, entry)
    ensures Feasible(adj, dist)
  {
    forall u, p: (string, int) | u in adj && p in adj[u]
      ensures u in dist && p.0 in dist && !Improves(dist[u], p.1, dist[p.0])
    {
      if dist[u].Some? {
        if u in entry {
          assert false;
        }
        assert Settled(adj, dist, u);
        assert (p.0, p.1) in adj[u];
      }
    }
  }

  /** The search part of `run`, from `[(0 + h(source), 0, source)]` until the
      target comes off the heap or the heap runs out. */
  method Search(adj: WAdj, ghost keys: seq<string>, source: string, target: string, h: string -> real)
    returns (dist: Dist, prev: map<string, string>, ghost b: Book, ghost found: bool)
    requires WClosed(adj) && NonNegative(adj) && (forall k :: k in keys <==> k in adj)
    requires source in adj
    ensures Consistent(adj, source, dist, prev, b) && source !in prev
    ensures found ==> target in dist && dist[target].Some?
    ensures !found ==> Feasible(adj, dist)
  {
    dist, prev, b := Initial(adj, source), map[], InitialBook(source);
    InitialConsistent(adj, source);
    var heap: Open := multiset{(0.0 + h(source), 0, source)};
    ghost var entry: map<string, (real, int)> := map[source := (0.0 + h(source), 0)];
    found := false;
    while heap != multiset{}
      invariant Searching(adj, source, dist, prev, b, heap, entry)
      decreases |Unreached(dist)|, FiniteSum(dist, keys), |heap|
    {
      var e := PopLowest(heap);
      var current := e.2;
      if current == target {
        var (f, g, v) := e;
        assert (f, g, v) in heap;
        found := true;
        break;
      }
      ExpandStart(adj, keys, source, dist, prev, b, heap, entry, e);
      ghost var du, u0, s0, n0 := dist[current].value, |Unreached(dist)|, FiniteSum(dist, keys), |heap|;
      dist, prev, b, heap, entry := Expand(adj, keys, source, h, current, du, dist, prev, b,
                                           heap - multiset{e}, entry - {current}, u0, s0, n0);
      ExpandEnd(adj, keys, source, current, du, dist, prev, b, heap, entry, u0, s0, n0);
    }
    if !found {
      Exhausted(adj, source, dist, prev, b, entry);
    }
  }

  /** `sum(weights)` in `heuristic`: the edge values added up, a missing value
      counting 1. */
  function ValueSum(es: seq<Edge>): int {
    if es == [] then 0 else ValueSum(es[..|es| - 1]) + Weight(es[|es| - 1].value)
  }

  /** Over non-negative weights the sum is non-negative, and it is zero
      exactly when every weight is. */
  lemma {:induction false} ValueSumZero(es: seq<Edge>)
    requires forall i :: 0 <= i < |es| ==> Weight(es[i].value) >= 0
    ensures ValueSum(es) >= 0
    ensures ValueSum(es) == 0 <==> forall i :: 0 <= i < |es| ==> Weight(es[i].value) == 0
  {
    if es != [] {
      var init := es[..|es| - 1];
      assert forall i :: 0 <= i < |init| ==> init[i] == es[i];
      ValueSumZero(init);
    }
  }

  /** The divisor of `heuristic`: the mean edge value, or 1 when the `except`
      branch is taken, that is when there is no edge (`len` is zero) or some
      value does not parse. */
  function Scale(es: seq<Edge>): real {
    if es == [] || Kruskal.Unparsable(es) then 1.0 else ValueSum(es) as real / |es| as real
  }

  /** The call `heuristic(source, target)` made before the search divides by
      `Scale(es)` outside its `try`, so it raises `ZeroDivisionError` when the
      mean is zero; with no negative weight, that is exactly when there is an
      edge and every value is `0`. */
  lemma ScaleZero(es: seq<Edge>)
    requires !NegativeEdge(es)
    ensures Scale(es) == 0.0 <==> es != [] && forall e :: e in es ==> e.value == Number(0)
  {
    ValueSumZero(es);
    if es != [] && !Kruskal.Unparsable(es) {
      assert Scale(es) == 0.0 <==> ValueSum(es) == 0;
      forall i | 0 <= i < |es| ensures Weight(es[i].value) == 0 <==> es[i].value == Number(0) {
        assert es[i] in es;
      }
    }
  }

  /** `AStarSolver.run` raises: no weight is negative, so the first call
      `heuristic(source, target)` is reached. When both ends are vertex names
      it divides by `Scale(es)`, which raises `ZeroDivisionError` when that is
      zero; otherwise it returns 0. Then, when the source is no key and not
      the target, its first pop looks up `adj[source]` and raises `KeyError`. */
  predicate RunRaises(vs: seq<Vertex>, es: seq<Edge>, source: string, target: string) {
    && !NegativeEdge(es)
    && (|| (source in NameSet(vs) && target in NameSet(vs) && Scale(es) == 0.0)
        || (source !in NameSet(vs) && source != target))
  }

  /** `AStarSolver.run(source, target, directed)` over `get_adj(directed)`,
      with `h(v)` for `heuristic(v, target)` as it is when it does not raise:
      with a negative edge anywhere it stops with empty results and `active`
      set; otherwise it raises when the heuristic divides by zero or the
      source is missing, and it answers with a route whenever one exists.
      Either end may be a name that is not, or no longer, a vertex. */
  method Run(vs: seq<Vertex>, es: seq<Edge>, source: string, target: string, directed: bool, h: string -> real)
    returns (raised: bool, result: seq<string>, edges: seq<(string, string)>, active: bool, ghost ws: seq<int>)
    requires EndsKnown(vs, es)
    ensures raised <==> && !NegativeEdge(es)
                        && (|| (source in NameSet(vs) && target in NameSet(vs)
                                && es != [] && forall e :: e in es ==> e.value == Number(0))
                            || (source !in NameSet(vs) && source != target))
    ensures raised == RunRaises(vs, es, source, target)
    ensures NegativeEdge(es) ==> result == [] && edges == [] && active
    ensures !NegativeEdge(es) && !raised ==> Answers(WeightedAdj(vs, es, directed), source, target, result, edges, active, ws)
  {
    var adj := WeightedAdj(vs, es, directed);
    var negative := HasNegativeWeights(es);
    if negative {
      return false, [], [], true, [];
    }
    ScaleZero(es);
    if source in adj && target in adj && Scale(es) == 0.0 {
      return true, [], [], false, [];
    }
    WeightedAdjClosed(vs, es, directed);
    NoNegativeEdge(vs, es, directed);
    NamesListed(vs);
    if source !in adj {
      // the first pop is the source's entry: the loop stops there when it is
      // the target, and otherwise `adj[source]` raises
      if source != target {
        return true, [], [], false, [];
      }
      return false, [source], [], true, [];
    }
    raised := false;
    result, active, ws := Find(adj, Names(vs), source, target, h);
    edges := Pairs(result);
  }

  /** The search and the walk back of `run`, from a source that is a key. */
  method Find(adj: WAdj, ghost keys: seq<string>, source: string, target: string, h: string -> real)
    returns (result: seq<string>, active: bool, ghost ws: seq<int>)
    requires WClosed(adj) && NonNegative(adj) && (forall k :: k in keys <==> k in adj) && source in adj
    ensures Answers(adj, source, target, result, Pairs(result), active, ws)
  {
    var dist, prev;
    ghost var b, found;
    dist, prev, b, found := Search(adj, keys, source, target, h);
    if source == target {
      return [source], true, [];
    }
    var v, path;
    v, path, ws := Dijkstra.Chain(adj, source, target, dist, prev, b);
    if v != source {
      if Reachable(adj, source, target) {
        if !found {
          FeasibleReach(adj, source, dist, prev, b, target);
        }
        assert false;
      }
      return [], false, ws;
    }
    result := [source] + path;
    return result, true, ws;
  }
}
