/** `DijkstraSolver.run`: a heap of `(distance, node)` entries, stale entries
    skipped, the search stopped when the target comes off the heap, then the
    `prev` chain from the target walked back to the source. The heap is a
    multiset from which an entry of least distance is taken; Python breaks
    ties between equal distances by name. */
module Dijkstra {
  import opened Common
  import opened GraphModel
  import opened Weighted
  import opened Relaxation

  type Heap = multiset<(int, string)>

  /** No entry of the heap has a key below `k`. */
  ghost predicate Below(k: int, heap: Heap) {
    forall k', v :: (k', v) in heap ==> k <= k'
  }

  /** A non-empty heap has an entry of least distance. Prim's and A*'s heaps
      hold other tuples, so each of those modules proves its own. */
  lemma {:induction false} MinExists(h: Heap)
    requires h != multiset{}
    ensures exists e :: e in h && Below(e.0, h)
    decreases |h|
  {
    var x :| x in h;
    var rest := h - multiset{x};
    assert h == rest + multiset{x};
    if rest == multiset{} {
      forall k', v | (k', v) in h ensures x.0 <= k' {
        assert (k', v) in multiset{x};
      }
    } else {
      MinExists(rest);
      var m :| m in rest && Below(m.0, rest);
      if x.0 < m.0 {
        forall k', v | (k', v) in h ensures x.0 <= k' {
          assert (k', v) in rest || (k', v) in multiset{x};
        }
      } else {
        forall k', v | (k', v) in h ensures m.0 <= k' {
          assert (k', v) in rest || (k', v) in multiset{x};
        }
        assert m in h;
      }
    }
  }

  /** Heap entries are never below the distance of their node ... */
  ghost predicate EntriesAbove(dist: Dist, heap: Heap) {
    forall k, v :: (k, v) in heap ==> v in dist && dist[v].Some? && dist[v].value <= k
  }

  /** ... and every finite node not yet settled has its current entry. */
  ghost predicate Queued(dist: Dist, heap: Heap, done: set<string>) {
    forall v :: v in dist && dist[v].Some? && v !in done ==> (dist[v].value, v) in heap
  }

  /** The settled nodes are no farther than any entry still on the heap. */
  ghost predicate DoneBelow(dist: Dist, heap: Heap, done: set<string>) {
    forall x :: x in done ==> x in dist && dist[x].Some? && Below(dist[x].value, heap)
  }

  /** The invariant of `while heap`. `done` holds the nodes taken off the
      heap with their current distance and relaxed. */
  ghost predicate Frontier(adj: WAdj, source: string, target: string, dist: Dist, prev: map<string, string>,
                           b: Book, heap: Heap, done: set<string>) {
    && Consistent(adj, source, dist, prev, b) && source !in prev && target !in done
    && EntriesAbove(dist, heap) && Queued(dist, heap, done) && DoneBelow(dist, heap, done)
    && forall x :: x in done ==> Settled(adj, dist, x)
  }

  /** The heart of Dijkstra's argument: with non-negative weights, a route
      from the source either ends at a settled node and costs at least its
      distance, or costs at least the least key `m` on the heap. */
  lemma {:induction false} LowerBound(adj: WAdj, source: string, dist: Dist, heap: Heap, done: set<string>,
                                      m: int, p: seq<string>, ws: seq<int>)
    requires NonNegative(adj) && Route(adj, p, ws) && p[0] == source
    requires source in dist && dist[source] == Some(0)
    requires forall x :: x in done ==> Settled(adj, dist, x)
    requires Queued(dist, heap, done) && Below(m, heap)
    ensures var x := p[|p| - 1];
            (x in done && x in dist && dist[x].Some? && Sum(ws) >= dist[x].value) || Sum(ws) >= m
    decreases |p|
  {
    if ws == [] {
      if source !in done {
        assert (0, source) in heap;
      }
    } else {
      var q, wq, w := p[..|p| - 1], ws[..|ws| - 1], ws[|ws| - 1];
      assert Route(adj, q, wq);
      LowerBound(adj, source, dist, heap, done, m, q, wq);
      assert ws == wq + [w];
      SumAppend(wq, w);
      var y, x := q[|q| - 1], p[|p| - 1];
      assert y == p[|ws| - 1] && x == p[|ws|];
      assert (x, w) in adj[y];
      assert w >= 0;
      if y in done && y in dist && dist[y].Some? && Sum(wq) >= dist[y].value {
        assert Settled(adj, dist, y);
        assert !Improves(dist[y], w, dist[x]);
        if x !in done {
          assert (dist[x].value, x) in heap;
        }
      }
    }
  }

  /** A settled node is at least as close as every route to it costs. */
  lemma DoneOptimal(adj: WAdj, source: string, target: string, dist: Dist, prev: map<string, string>,
                    b: Book, heap: Heap, done: set<string>, x: string, p: seq<string>, ws: seq<int>)
    requires NonNegative(adj) && Frontier(adj, source, target, dist, prev, b, heap, done)
    requires x in done && RouteFrom(adj, p, ws, source, x)
    ensures Sum(ws) >= dist[x].value
  {
    if heap == multiset{} {
      LowerBound(adj, source, dist, heap, done, dist[x].value, p, ws);
    } else {
      MinExists(heap);
      var e :| e in heap && Below(e.0, heap);
      LowerBound(adj, source, dist, heap, done, e.0, p, ws);
    }
  }

  /** The target comes off the heap at a least key: no route to it is cheaper
      than its distance. */
  lemma TargetBound(adj: WAdj, source: string, target: string, dist: Dist, prev: map<string, string>,
                    b: Book, heap: Heap, done: set<string>, e: (int, string))
    requires NonNegative(adj) && Frontier(adj, source, target, dist, prev, b, heap, done)
    requires e in heap && e.1 == target && Below(e.0, heap)
    ensures target in dist && dist[target].Some?
    ensures forall p, ws :: RouteFrom(adj, p, ws, source, target) ==> dist[target].value <= Sum(ws)
  {
    assert (e.0, e.1) in heap;
    forall p, ws | RouteFrom(adj, p, ws, source, target) ensures dist[target].value <= Sum(ws) {
      LowerBound(adj, source, dist, heap, done, e.0, p, ws);
    }
  }

  /** An empty heap leaves every finite node settled: nothing relaxes, and
      the target, never settled, is unreached. */
  lemma ExhaustedFeasible(adj: WAdj, source: string, target: string, dist: Dist, prev: map<string, string>,
                          b: Book, done: set<string>)
    requires WClosed(adj) && Frontier(adj, source, target, dist, prev, b, multiset{}, done)
    ensures Feasible(adj, dist) && (target in dist ==> dist[target].None?)
  {
    forall u, p: (string, int) | u in adj && p in adj[u]
      ensures u in dist && p.0 in dist && !Improves(dist[u], p.1, dist[p.0])
    {
      if dist[u].Some? {
        assert u in done;
        assert Settled(adj, dist, u);
        assert (p.0, p.1) in adj[u];
      }
    }
  }

  /** Dropping an entry above its node's distance keeps the invariant. */
  lemma StalePop(adj: WAdj, source: string, target: string, dist: Dist, prev: map<string, string>,
                 b: Book, heap: Heap, done: set<string>, e: (int, string))
    requires Frontier(adj, source, target, dist, prev, b, heap, done)
    requires e in heap && e.1 in dist && dist[e.1].Some? && e.0 > dist[e.1].value
    ensures Frontier(adj, source, target, dist, prev, b, heap - multiset{e}, done)
  {
    var h := heap - multiset{e};
    forall v | v in dist && dist[v].Some? && v !in done ensures (dist[v].value, v) in h {
      assert (dist[v].value, v) in heap && (dist[v].value, v) != e;
    }
  }

  /** What the scan of `adj[u]` keeps beside `Consistent`: `u` taken off the
      heap at the least key `d`, its own distance, the source at 0, the
      settled nodes untouched below `d`, every entry at least `d`, and the
      termination measure below its value at the top of the loop. */
  ghost predicate Scanning(keys: seq<string>, source: string, u: string, d: int, dist0: Dist, done: set<string>,
                           dist: Dist, heap: Heap, u0: nat, s0: nat, n0: nat) {
    && ScanDist(source, u, d, dist0, done, dist) && ScanHeap(u, d, done, dist, heap)
    && Progress(u0, s0, n0, |Unreached(dist)|, FiniteSum(dist, keys), |heap|)
  }

  /** The distance half of `Scanning`. */
  ghost predicate ScanDist(source: string, u: string, d: int, dist0: Dist, done: set<string>, dist: Dist) {
    && u in dist && dist[u] == Some(d) && d >= 0
    && source in dist && dist[source] == Some(0)
    && dist.Keys == dist0.Keys
    && (forall y :: y in dist0 ==> AtMost(dist[y], dist0[y]))
    && (forall x :: x in done ==> x in dist0 && dist[x] == dist0[x] && dist[x].Some? && dist[x].value <= d)
  }

  /** The heap half of `Scanning`. */
  ghost predicate ScanHeap(u: string, d: int, done: set<string>, dist: Dist, heap: Heap) {
    EntriesAbove(dist, heap) && Queued(dist, heap, done + {u}) && Below(d, heap)
  }


  /** Lowering `dist[v]` to `x` and pushing `(x, v)` keeps every entry above its node's distance ... */
  lemma EntriesPush(dist: Dist, heap: Heap, v: string, x: int)
    requires v in dist && EntriesAbove(dist, heap) && AtMost(Some(x), dist[v])
    ensures EntriesAbove(dist[v := Some(x)], heap + multiset{(x, v)})
  {
  }

  /** ... and every unsettled finite node queued. */
  lemma QueuedPush(dist: Dist, heap: Heap, done: set<string>, v: string, x: int)
    requires Queued(dist, heap, done)
    ensures Queued(dist[v := Some(x)], heap + multiset{(x, v)}, done)
  {
    var dist', heap' := dist[v := Some(x)], heap + multiset{(x, v)};
    forall y | y in dist' && dist'[y].Some? && y !in done ensures (dist'[y].value, y) in heap' {
      if y != v {
        assert (dist[y].value, y) in heap;
      }
    }
  }

  /** A distance lowered below `dist[v]` stays at most the one at the top of
      the loop, and the settled nodes other than `v` keep theirs. */
  lemma AtMostPush(dist0: Dist, dist: Dist, done: set<string>, d: int, v: string, x: int)
    requires dist.Keys == dist0.Keys && forall y :: y in dist0 ==> AtMost(dist[y], dist0[y])
    requires forall y :: y in done ==> y in dist0 && dist[y] == dist0[y] && dist[y].Some? && dist[y].value <= d
    requires v in dist && v !in done && AtMost(Some(x), dist[v])
    ensures dist[v := Some(x)].Keys == dist0.Keys
    ensures forall y :: y in dist0 ==> AtMost(dist[v := Some(x)][y], dist0[y])
    ensures forall y :: y in done ==> y in dist0 && dist[v := Some(x)][y] == dist0[y]
                                       && dist[v := Some(x)][y].Some? && dist[v := Some(x)][y].value <= d
  {
  }

  /** An entry at least `d` keeps every entry at least `d`. */
  lemma BelowPush(d: int, heap: Heap, x: int, v: string)
    requires Below(d, heap) && d <= x
    ensures Below(d, heap + multiset{(x, v)})
  {
  }

  /** Lowering `dist[v]` through an improving entry `(v, w)` of `u` keeps
      the distance half; `v` is neither `u`, the source, nor settled. */
  lemma DistRelax(source: string, u: string, d: int, dist0: Dist, done: set<string>, dist: Dist, v: string, w: int)
    requires ScanDist(source, u, d, dist0, done, dist)
    requires w >= 0 && v in dist && Improves(dist[u], w, dist[v])
    ensures v != u && v != source && v !in done
    ensures ScanDist(source, u, d, dist0, done, dist[v := Some(dist[u].value + w)])
  {
    assert v != u && v != source && v !in done;
    AtMostPush(dist0, dist, done, d, v, dist[u].value + w);
  }

  /** ... and pushing `v` keeps the heap half. */
  lemma HeapRelax(u: string, d: int, done: set<string>, dist: Dist, heap: Heap, v: string, w: int)
    requires ScanHeap(u, d, done, dist, heap) && u in dist && dist[u] == Some(d)
    requires w >= 0 && v in dist && Improves(dist[u], w, dist[v])
    ensures ScanHeap(u, d, done, dist[v := Some(dist[u].value + w)], heap + multiset{(dist[u].value + w, v)})
  {
    var x := dist[u].value + w;
    EntriesPush(dist, heap, v, x);
    QueuedPush(dist, heap, done + {u}, v, x);
    BelowPush(d, heap, x, v);
  }

  /** Relaxing `(v, w)` and pushing `v` keeps the scan's invariant. */
  lemma ScanRelax(keys: seq<string>, source: string, u: string, d: int, dist0: Dist, done: set<string>,
                  dist: Dist, heap: Heap, u0: nat, s0: nat, n0: nat, v: string, w: int)
    requires Scanning(keys, source, u, d, dist0, done, dist, heap, u0, s0, n0)
    requires w >= 0 && v in dist && v in keys && Improves(dist[u], w, dist[v])
    ensures v != u && v != source && v !in done
    ensures Scanning(keys, source, u, d, dist0, done, dist[v := Some(dist[u].value + w)],
                     heap + multiset{(dist[u].value + w, v)}, u0, s0, n0)
  {
    DistRelax(source, u, d, dist0, done, dist, v, w);
    HeapRelax(u, d, done, dist, heap, v, w);
    RelaxFalls(dist, keys, v, dist[u].value + w, u0, s0, n0, |heap|, |heap| + 1);
  }

  /** Taking `(d, u)` off the heap at the least key starts the scan of `u`. */
  lemma ScanStart(keys: seq<string>, source: string, u: string, d: int, dist: Dist, heap: Heap, done: set<string>,
                  u0: nat, s0: nat, n0: nat)
    requires u in dist && dist[u] == Some(d) && d >= 0 && source in dist && dist[source] == Some(0)
    requires EntriesAbove(dist, heap + multiset{(d, u)}) && Queued(dist, heap + multiset{(d, u)}, done)
    requires DoneBelow(dist, heap + multiset{(d, u)}, done) && Below(d, heap)
    requires Progress(u0, s0, n0, |Unreached(dist)|, FiniteSum(dist, keys), |heap|)
    ensures Scanning(keys, source, u, d, dist, done, dist, heap, u0, s0, n0)
  {
    var h0 := heap + multiset{(d, u)};
    forall y | y in dist && dist[y].Some? && y !in done + {u} ensures (dist[y].value, y) in heap {
      assert (dist[y].value, y) in h0 && (dist[y].value, y) != (d, u);
    }
    forall x | x in done ensures x in dist && dist[x].Some? && dist[x].value <= d {
      assert (d, u) in h0;
    }
  }

  /** At the end of the scan `u` joins the settled nodes. */
  lemma ScanEnd(adj: WAdj, keys: seq<string>, source: string, target: string, u: string, d: int,
                dist0: Dist, done: set<string>, dist: Dist, prev: map<string, string>, b: Book, heap: Heap,
                u0: nat, s0: nat, n0: nat)
    requires (forall x :: x in done ==> Settled(adj, dist0, x)) && u in adj && u != target && target !in done
    requires Consistent(adj, source, dist, prev, b) && source !in prev
    requires Scanning(keys, source, u, d, dist0, done, dist, heap, u0, s0, n0) && Relaxed(dist, u, adj[u])
    ensures Frontier(adj, source, target, dist, prev, b, heap, done + {u})
  {
    forall x | x in done + {u} ensures Settled(adj, dist, x) {
      if x in done {
        SettledKept(adj, dist0, dist, x);
      }
    }
  }

  /** One entry `(v, w)` of `u`'s list: relax it if it improves and push `v`. */
  method ScanEntry(adj: WAdj, ghost keys: seq<string>, source: string, u: string, ghost d: int, ghost dist0: Dist,
                   ghost done: set<string>, dist: Dist, prev: map<string, string>, ghost b: Book, heap: Heap,
                   ghost u0: nat, ghost s0: nat, ghost n0: nat, v: string, w: int, ghost ps: seq<(string, int)>)
    returns (dist': Dist, prev': map<string, string>, ghost b': Book, heap': Heap)
    requires WClosed(adj) && NonNegative(adj) && (forall k :: k in keys <==> k in adj) && u in adj && (v, w) in adj[u]
    requires Consistent(adj, source, dist, prev, b) && source !in prev
    requires Scanning(keys, source, u, d, dist0, done, dist, heap, u0, s0, n0) && Relaxed(dist, u, ps)
    ensures Consistent(adj, source, dist', prev', b') && source !in prev'
    ensures Scanning(keys, source, u, d, dist0, done, dist', heap', u0, s0, n0) && Relaxed(dist', u, ps + [(v, w)])
  {
    assert w >= 0 && v in adj;
    if Improves(dist[u], w, dist[v]) {
      Relax(adj, source, dist, prev, b, u, v, w);
      ScanRelax(keys, source, u, d, dist0, done, dist, heap, u0, s0, n0, v, w);
      RelaxedStep(dist, u, ps, v, w);
      b', dist', prev', heap' := NextBook(b, u, v, w), dist[v := Some(dist[u].value + w)], prev[v := u],
                                 heap + multiset{(dist[u].value + w, v)};
    } else {
      RelaxedNext(dist, u, ps, v, w);
      dist', prev', b', heap' := dist, prev, b, heap;
    }
  }

  /** `for v, w in adj[u]`: relax every improving entry and push its node. */
  method Scan(adj: WAdj, ghost keys: seq<string>, source: string, u: string,
              dist: Dist, prev: map<string, string>, ghost b: Book, heap: Heap, ghost done: set<string>,
              ghost d: int, ghost u0: nat, ghost s0: nat, ghost n0: nat)
    returns (dist': Dist, prev': map<string, string>, ghost b': Book, heap': Heap)
    requires WClosed(adj) && NonNegative(adj) && (forall k :: k in keys <==> k in adj) && u in adj
    requires Consistent(adj, source, dist, prev, b) && source !in prev
    requires Scanning(keys, source, u, d, dist, done, dist, heap, u0, s0, n0)
    ensures Consistent(adj, source, dist', prev', b') && source !in prev'
    ensures Scanning(keys, source, u, d, dist, done, dist', heap', u0, s0, n0) && Relaxed(dist', u, adj[u])
  {
    dist', prev', b', heap' := dist, prev, b, heap;
    var ns := adj[u];
    for j := 0 to |ns|
      invariant Consistent(adj, source, dist', prev', b') && source !in prev'
      invariant Scanning(keys, source, u, d, dist, done, dist', heap', u0, s0, n0)
      invariant Relaxed(dist', u, ns[..j])
    {
      var (v, w) := ns[j];
      dist', prev', b', heap' := ScanEntry(adj, keys, source, u, d, dist, done, dist', prev', b', heap', u0, s0, n0, v, w, ns[..j]);
      TakeNext(ns, j);
    }
    assert ns[..|ns|] == ns;
  }

  /** `heappop`: an entry of least distance. */
  method PopMin(heap: Heap) returns (e: (int, string))
    requires heap != multiset{}
    ensures e in heap && Below(e.0, heap)
  {
    MinExists(heap);
    e :| e in heap && forall f :: f in heap ==> e.0 <= f.0;
    forall k, v | (k, v) in heap ensures e.0 <= k {
      assert (k, v).0 == k;
    }
  }

  /** The entry `(d, u)` of least distance is `u`'s current one: take it
      off the heap, scan `u` and count it settled. */
  method Settle(adj: WAdj, ghost keys: seq<string>, source: string, target: string,
                dist: Dist, prev: map<string, string>, ghost b: Book, heap: Heap, ghost done: set<string>, d: int, u: string)
    returns (dist': Dist, prev': map<string, string>, ghost b': Book, heap': Heap)
    requires WClosed(adj) && NonNegative(adj) && (forall k :: k in keys <==> k in adj)
    requires Frontier(adj, source, target, dist, prev, b, heap, done)
    requires (d, u) in heap && Below(d, heap) && u != target && u in dist && dist[u] == Some(d)
    ensures Frontier(adj, source, target, dist', prev', b', heap', done + {u})
    ensures Progress(|Unreached(dist)|, FiniteSum(dist, keys), |heap|,
                     |Unreached(dist')|, FiniteSum(dist', keys), |heap'|)
  {
    var rest := heap - multiset{(d, u)};
    assert heap == rest + multiset{(d, u)};
    ghost var u0, s0, n0 := |Unreached(dist)|, FiniteSum(dist, keys), |heap|;
    DistNonNegative(adj, source, dist, prev, b, u);
    ScanStart(keys, source, u, d, dist, rest, done, u0, s0, n0);
    dist', prev', b', heap' := Scan(adj, keys, source, u, dist, prev, b, rest, done, d, u0, s0, n0);
    ScanEnd(adj, keys, source, target, u, d, dist, done, dist', prev', b', heap', u0, s0, n0);
  }

  /** One entry `e` of least distance off the heap, not the target's: skipped
      when stale, its node scanned otherwise. */
  method Visit(adj: WAdj, ghost keys: seq<string>, source: string, target: string,
               dist: Dist, prev: map<string, string>, ghost b: Book, heap: Heap, ghost done: set<string>, e: (int, string))
    returns (dist': Dist, prev': map<string, string>, ghost b': Book, heap': Heap, ghost done': set<string>)
    requires WClosed(adj) && NonNegative(adj) && (forall k :: k in keys <==> k in adj)
    requires Frontier(adj, source, target, dist, prev, b, heap, done)
    requires e in heap && Below(e.0, heap) && e.1 != target
    ensures Frontier(adj, source, target, dist', prev', b', heap', done')
    ensures Progress(|Unreached(dist)|, FiniteSum(dist, keys), |heap|,
                     |Unreached(dist')|, FiniteSum(dist', keys), |heap'|)
  {
    var d, u := e.0, e.1;
    assert (d, u) in heap;
    if d > dist[u].value {
      StalePop(adj, source, target, dist, prev, b, heap, done, e);
      dist', prev', b', heap', done' := dist, prev, b, heap - multiset{e}, done;
    } else {
      dist', prev', b', heap' := Settle(adj, keys, source, target, dist, prev, b, heap, done, d, u);
      done' := done + {u};
    }
  }

  /** The search part of `run`: `while heap`, popping an entry of least
      distance, stopping when it is the target's, skipping it when stale,
      otherwise scanning its node. `found` tells whether the loop stopped at
      the target; if not, the heap ran dry. */
  method Search(adj: WAdj, ghost keys: seq<string>, source: string, target: string)
    returns (dist: Dist, prev: map<string, string>, ghost b: Book, ghost found: bool)
    requires WClosed(adj) && NonNegative(adj) && (forall k :: k in keys <==> k in adj)
    requires source in adj
    ensures Consistent(adj, source, dist, prev, b) && source !in prev
    ensures found ==> && target in dist && dist[target].Some?
                      && forall p, ws :: RouteFrom(adj, p, ws, source, target) ==> dist[target].value <= Sum(ws)
    ensures !found ==> Feasible(adj, dist) && (target in dist ==> dist[target].None?)
  {
    dist, prev, b := Initial(adj, source), map[], InitialBook(source);
    InitialConsistent(adj, source);
    var heap: Heap := multiset{(0, source)};
    ghost var done: set<string> := {};
    found := false;
    while heap != multiset{}
      invariant Frontier(adj, source, target, dist, prev, b, heap, done)
      decreases |Unreached(dist)|, FiniteSum(dist, keys), |heap|
    {
      var e := PopMin(heap);
      if e.1 == target {
        TargetBound(adj, source, target, dist, prev, b, heap, done, e);
        found := true;
        break;
      }
      dist, prev, b, heap, done := Visit(adj, keys, source, target, dist, prev, b, heap, done, e);
    }
    if !found {
      ExhaustedFeasible(adj, source, target, dist, prev, b, done);
    }
  }

  /** The walk back from the target: `while path[-1] != source`, giving up at
      a node without a link. The nodes are collected in front of one another,
      so no reversal is needed. */
  method Chain(adj: WAdj, source: string, target: string, dist: Dist, prev: map<string, string>, ghost b: Book)
    returns (v: string, path: seq<string>, ghost ws: seq<int>)
    requires NonNegative(adj) && Consistent(adj, source, dist, prev, b)
    ensures (v == source || v !in prev) && ChainFrom(adj, dist, target, v, path, ws)
  {
    v, path, ws := target, [], [];
    RouteSelf(adj, target);
    while v != source && v in prev
      invariant ChainFrom(adj, dist, target, v, path, ws)
      decreases Level(dist, v), Rank(prev, b, v)
    {
      LinkOf(adj, source, dist, prev, b, v);
      ChainFalls(adj, source, dist, prev, b, v);
      ChainBack(adj, dist, prev, b, target, v, path, ws);
      path, ws, v := [v] + path, [b.pw[v]] + ws, prev[v];
    }
  }

  /** `DijkstraSolver.run` raises `KeyError`: no weight is negative, and the
      source is not a vertex name and not the target. `dist[source] = 0` then
      adds a key, the heap holds only `(0, source)`, and its first pop looks
      up `adj[source]`. */
  predicate RunRaises(vs: seq<Vertex>, es: seq<Edge>, source: string, target: string) {
    !NegativeEdge(es) && source !in NameSet(vs) && source != target
  }

  /** A route from a node to itself of no steps is a cheapest one. */
  lemma SelfCheapest(adj: WAdj, source: string)
    requires NonNegative(adj)
    ensures RouteFrom(adj, [source], [], source, source) && Cheapest(adj, source, source, [])
  {
    RouteSelf(adj, source);
    forall p, ws' | RouteFrom(adj, p, ws', source, source) ensures Sum([]) <= Sum(ws') {
      RouteCostNonNegative(adj, p, ws');
    }
  }

  /** `DijkstraSolver.run(source, target, directed)` over `get_adj(directed)`:
      with a negative edge anywhere it stops at once with empty results and
      `active` set; it raises when the source is no vertex but the target
      is another name; otherwise it answers with a cheapest route. Either end
      may be a name that is not, or no longer, a vertex. */
  method Run(vs: seq<Vertex>, es: seq<Edge>, source: string, target: string, directed: bool)
    returns (raised: bool, result: seq<string>, edges: seq<(string, string)>, active: bool, ghost ws: seq<int>)
    requires EndsKnown(vs, es)
    ensures raised == RunRaises(vs, es, source, target)
    ensures NegativeEdge(es) ==> result == [] && edges == [] && active
    ensures !NegativeEdge(es) && !raised ==>
              && Answers(WeightedAdj(vs, es, directed), source, target, result, edges, active, ws)
              && (result != [] ==> Cheapest(WeightedAdj(vs, es, directed), source, target, ws))
  {
    var negative := HasNegativeWeights(es);
    if negative {
      return false, [], [], true, [];
    }
    var adj := WeightedAdj(vs, es, directed);
    WeightedAdjClosed(vs, es, directed);
    NoNegativeEdge(vs, es, directed);
    NamesListed(vs);
    if source !in adj {
      // the first pop is the source's entry: the loop stops there when it is
      // the target, and otherwise `adj[source]` raises
      if source != target {
        return true, [], [], false, [];
      }
      SelfCheapest(adj, source);
      return false, [source], [], true, [];
    }
    raised := false;
    result, active, ws := Find(adj, Names(vs), source, target);
    edges := Pairs(result);
  }

  /** The search and the walk back of `run`, from a source that is a key:
      `[source]` when it is the target, otherwise a cheapest route with
      `active` set, or nothing and `active` cleared when the target is out of
      reach. */
  method Find(adj: WAdj, ghost keys: seq<string>, source: string, target: string)
    returns (result: seq<string>, active: bool, ghost ws: seq<int>)
    requires WClosed(adj) && NonNegative(adj) && (forall k :: k in keys <==> k in adj) && source in adj
    ensures Answers(adj, source, target, result, Pairs(result), active, ws)
    ensures result != [] ==> Cheapest(adj, source, target, ws)
  {
    var dist, prev;
    ghost var b, found;
    dist, prev, b, found := Search(adj, keys, source, target);
    if source == target {
      SelfCheapest(adj, source);
      return [source], true, [];
    }
    var v, path;
    v, path, ws := Chain(adj, source, target, dist, prev, b);
    if v != source {
      if Reachable(adj, source, target) {
        if !found {
          FeasibleReach(adj, source, dist, prev, b, target);
        }
        assert false;
      }
      return [], false, ws;
    }
    result := [source] + path;
    if !found {
      assert false;
    }
    return result, true, ws;
  }
}
