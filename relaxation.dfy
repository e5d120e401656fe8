/** The `dist`/`prev` dictionaries shared by Dijkstra, Bellman-Ford and A*:
    `float('inf')` is `None`, and an edge `(u, v, w)` relaxes when
    `dist[u] + w < dist[v]`, which sets `dist[v]` and `prev[v] = u`.

    The proofs keep ghost bookkeeping beside the two dictionaries: the weight
    of the entry each `prev` link was set through, a time stamp of each
    link's last assignment, and for every finite distance a route of exactly
    that cost. The invariant `Consistent` ties them together; from it the
    predecessor chains end (their time stamps or distances fall), and the
    weight of a chain is at most the distance of its end. */
module Relaxation {
  import opened Common
  import opened Weighted

  type Dist = map<string, Option<int>>

  /** `dist[u] + w < dist[v]` in Python's float arithmetic, where `inf + w` is
      `inf` and nothing is below `inf` but a finite number. */
  predicate Improves(du: Option<int>, w: int, dv: Option<int>) {
    du.Some? && (dv.None? || du.value + w < dv.value)
  }

  /** `dist = {v: inf for v in adj}` then `dist[source] = 0`. */
  function Initial(adj: WAdj, source: string): (dist: Dist)
    requires source in adj
    ensures dist.Keys == adj.Keys && dist[source] == Some(0)
    ensures forall v :: v in dist && v != source ==> dist[v].None?
  {
    (map v | v in adj :: None)[source := Some(0)]
  }

  /** The ghost record kept beside `prev`. */
  datatype Book = Book(pw: map<string, int>, stamp: map<string, nat>, clock: nat,
                       via: map<string, (seq<string>, seq<int>)>)

  function InitialBook(source: string): Book {
    Book(map[], map[], 0, map[source := ([source], [])])
  }

  /** `prev[v] = u` was set through the entry `(v, pw[v])` of `adj[u]`. Since
      then `dist[u]` has fallen only if `u`'s own link is at least as recent,
      and then strictly below its value at that moment. */
  ghost predicate Linked(adj: WAdj, dist: Dist, prev: map<string, string>, b: Book, v: string) {
    && v in prev && v in b.pw && v in b.stamp && v in dist
    && var u := prev[v];
       && u in adj && u in dist && (v, b.pw[v]) in adj[u]
       && dist[u].Some? && dist[v].Some?
       && if u in prev && u in b.stamp && b.stamp[u] >= b.stamp[v]
          then dist[u].value + b.pw[v] < dist[v].value
          else dist[u].value + b.pw[v] == dist[v].value
  }

  /** `w` is a route from `source` to `v` costing `d`. */
  ghost predicate Witness(adj: WAdj, source: string, v: string, d: int, w: (seq<string>, seq<int>)) {
    RouteFrom(adj, w.0, w.1, source, v) && Sum(w.1) == d
  }

  /** Key sets, the source's distance, and a link behind every finite
      distance but the source's. */
  ghost predicate Shape(adj: WAdj, source: string, dist: Dist, prev: map<string, string>, b: Book) {
    && source in adj && dist.Keys == adj.Keys
    && prev.Keys <= adj.Keys && b.pw.Keys == prev.Keys && b.stamp.Keys == prev.Keys
    && dist[source].Some? && dist[source].value <= 0
    && (source !in prev ==> dist[source] == Some(0))
    && (source in prev ==> dist[source].value < 0)
    && (forall v :: v in dist && dist[v].Some? && v != source ==> v in prev)
  }

  /** Every link holds. The trigger keeps the solver from following `prev`
      chains: a link mentions its predecessor's membership and stamp. */
  ghost predicate Links(adj: WAdj, dist: Dist, prev: map<string, string>, b: Book) {
    forall v {:trigger Linked(adj, dist, prev, b, v)} ::
      v in prev ==> v in b.stamp && b.stamp[v] < b.clock && Linked(adj, dist, prev, b, v)
  }

  ghost predicate Witnesses(adj: WAdj, source: string, dist: Dist, b: Book) {
    forall v :: v in dist && dist[v].Some? ==> v in b.via && Witness(adj, source, v, dist[v].value, b.via[v])
  }

  ghost predicate Consistent(adj: WAdj, source: string, dist: Dist, prev: map<string, string>, b: Book) {
    Shape(adj, source, dist, prev, b) && Links(adj, dist, prev, b) && Witnesses(adj, source, dist, b)
  }

  lemma InitialConsistent(adj: WAdj, source: string)
    requires source in adj
    ensures Consistent(adj, source, Initial(adj, source), map[], InitialBook(source))
  {
    RouteSelf(adj, source);
  }

  /** `a` is no greater than `b`, with `None` as infinity. */
  predicate AtMost(a: Option<int>, b: Option<int>) {
    b.None? || (a.Some? && a.value <= b.value)
  }

  /** The bookkeeping after relaxing `(u, v, w)`. */
  function NextBook(b: Book, u: string, v: string, w: int): Book
    requires u in b.via
  {
    Book(b.pw[v := w], b.stamp[v := b.clock], b.clock + 1,
         b.via[v := (b.via[u].0 + [v], b.via[u].1 + [w])])
  }

  /** The link just set by relaxing `(u, v, w)`. */
  lemma RelaxOwnLink(adj: WAdj, dist: Dist, prev: map<string, string>, b: Book, u: string, v: string, w: int)
    requires u in adj && u in dist && v in dist && (v, w) in adj[u] && Improves(dist[u], w, dist[v])
    requires prev.Keys == b.stamp.Keys && (u in prev ==> b.stamp[u] < b.clock)
    requires u in b.via
    ensures Linked(adj, dist[v := Some(dist[u].value + w)], prev[v := u], NextBook(b, u, v, w), v)
  {
  }

  /** A link into `v` now comes after `v`'s new stamp and is strict. */
  lemma RelaxChildLink(adj: WAdj, dist: Dist, prev: map<string, string>, b: Book, u: string, v: string, w: int, x: string)
    requires u in dist && v in dist && Improves(dist[u], w, dist[v]) && u in b.via
    requires x != v && Linked(adj, dist, prev, b, x) && b.stamp[x] < b.clock
    ensures Linked(adj, dist[v := Some(dist[u].value + w)], prev[v := u], NextBook(b, u, v, w), x)
  {
  }

  /** Relaxing keeps every link. */
  lemma RelaxLinks(adj: WAdj, dist: Dist, prev: map<string, string>, b: Book, u: string, v: string, w: int)
    requires u in adj && u in dist && v in dist && (v, w) in adj[u] && Improves(dist[u], w, dist[v])
    requires prev.Keys == b.stamp.Keys && u in b.via && Links(adj, dist, prev, b)
    ensures Links(adj, dist[v := Some(dist[u].value + w)], prev[v := u], NextBook(b, u, v, w))
  {
    var dist', prev', b' := dist[v := Some(dist[u].value + w)], prev[v := u], NextBook(b, u, v, w);
    forall x | x in prev' ensures x in b'.stamp && b'.stamp[x] < b'.clock && Linked(adj, dist', prev', b', x) {
      if x == v {
        if u in prev {
          assert Linked(adj, dist, prev, b, u);
        }
        RelaxOwnLink(adj, dist, prev, b, u, v, w);
      } else {
        RelaxChildLink(adj, dist, prev, b, u, v, w, x);
      }
    }
  }

  /** Relaxing keeps a costed route behind every finite distance. */
  lemma RelaxWitnesses(adj: WAdj, source: string, dist: Dist, b: Book, u: string, v: string, w: int)
    requires u in adj && u in dist && (v, w) in adj[u] && dist[u].Some? && Witnesses(adj, source, dist, b)
    ensures u in b.via
    ensures Witnesses(adj, source, dist[v := Some(dist[u].value + w)], NextBook(b, u, v, w))
  {
    var r := b.via[u];
    RouteExtend(adj, r.0, r.1, v, w);
  }

  /** Relaxing keeps the key sets and the source's distance. */
  lemma RelaxShape(adj: WAdj, source: string, dist: Dist, prev: map<string, string>, b: Book,
                   u: string, v: string, w: int)
    requires Shape(adj, source, dist, prev, b) && u in dist && v in adj && Improves(dist[u], w, dist[v]) && u in b.via
    ensures Shape(adj, source, dist[v := Some(dist[u].value + w)], prev[v := u], NextBook(b, u, v, w))
    ensures forall x :: x in dist ==> AtMost(dist[v := Some(dist[u].value + w)][x], dist[x])
  {
  }

  /** Relaxing an improving entry keeps the invariant, lowers `dist[v]` and
      changes no other distance. */
  lemma Relax(adj: WAdj, source: string, dist: Dist, prev: map<string, string>, b: Book,
              u: string, v: string, w: int)
    requires WClosed(adj) && Consistent(adj, source, dist, prev, b)
    requires u in adj && (v, w) in adj[u] && Improves(dist[u], w, dist[v])
    ensures u in b.via
    ensures Consistent(adj, source, dist[v := Some(dist[u].value + w)], prev[v := u], NextBook(b, u, v, w))
    ensures forall x :: x in dist ==> AtMost(dist[v := Some(dist[u].value + w)][x], dist[x])
  {
    assert v in adj;
    RelaxShape(adj, source, dist, prev, b, u, v, w);
    RelaxLinks(adj, dist, prev, b, u, v, w);
    RelaxWitnesses(adj, source, dist, b, u, v, w);
  }

  /** The link of a node of `prev`, out of the invariant. */
  lemma LinkOf(adj: WAdj, source: string, dist: Dist, prev: map<string, string>, b: Book, v: string)
    requires Consistent(adj, source, dist, prev, b) && v in prev
    ensures Linked(adj, dist, prev, b, v)
  {
  }

  /** The chain step of path reconstruction: one more `prev` link in front of
      a route lowers the start's distance by at least the link's weight. */
  lemma ChainStep(adj: WAdj, dist: Dist, prev: map<string, string>, b: Book,
                  path: seq<string>, ws: seq<int>)
    requires Route(adj, path, ws) && Linked(adj, dist, prev, b, path[0])
    ensures var u, w := prev[path[0]], b.pw[path[0]];
            && Route(adj, [u] + path, [w] + ws) && u in dist && dist[u].Some?
            && dist[u].value + w <= dist[path[0]].value
            && Sum([w] + ws) == w + Sum(ws)
  {
    var p', ws' := [prev[path[0]]] + path, [b.pw[path[0]]] + ws;
    assert p'[1..] == path && ws'[1..] == ws;
  }

  /** What the walk back knows at node `v` with `path` collected behind it. */
  ghost predicate ChainFrom(adj: WAdj, dist: Dist, target: string, v: string, path: seq<string>, ws: seq<int>) {
    && Route(adj, [v] + path, ws) && ([v] + path)[|path|] == target
    && (path == [] ==> v == target)
    && (path != [] ==> v in dist && dist[v].Some? && target in dist && dist[target].Some?
                       && dist[v].value + Sum(ws) <= dist[target].value)
  }

  /** One step of the walk back along a link. */
  lemma ChainBack(adj: WAdj, dist: Dist, prev: map<string, string>, b: Book, target: string, v: string, path: seq<string>, ws: seq<int>)
    requires Linked(adj, dist, prev, b, v) && ChainFrom(adj, dist, target, v, path, ws)
    ensures ChainFrom(adj, dist, target, prev[v], [v] + path, [b.pw[v]] + ws)
  {
    ChainStep(adj, dist, prev, b, [v] + path, ws);
    assert [prev[v]] + ([v] + path) == [prev[v]] + [v] + path;
  }

  /** The finite value of a distance, 0 otherwise. */
  function Level(dist: Dist, v: string): nat {
    if v in dist && dist[v].Some? && dist[v].value >= 0 then dist[v].value else 0
  }

  /** Time stamp plus one of a link, 0 without one. */
  ghost function Rank(prev: map<string, string>, b: Book, v: string): nat {
    if v in prev && v in b.stamp then b.stamp[v] + 1 else 0
  }

  /** With non-negative weights every finite distance is at least 0. */
  lemma DistNonNegative(adj: WAdj, source: string, dist: Dist, prev: map<string, string>, b: Book, v: string)
    requires NonNegative(adj) && Consistent(adj, source, dist, prev, b) && v in dist && dist[v].Some?
    ensures dist[v].value >= 0
  {
    RouteCostNonNegative(adj, b.via[v].0, b.via[v].1);
  }

  /** With non-negative weights a `prev` link never goes up in distance, and
      on a level step it goes back in time: the chain from any node ends. */
  lemma ChainFalls(adj: WAdj, source: string, dist: Dist, prev: map<string, string>, b: Book, v: string)
    requires NonNegative(adj) && Consistent(adj, source, dist, prev, b) && v in prev
    ensures var u := prev[v];
            || Level(dist, u) < Level(dist, v)
            || (Level(dist, u) == Level(dist, v) && Rank(prev, b, u) < Rank(prev, b, v))
  {
    var u := prev[v];
    assert Linked(adj, dist, prev, b, v);
    assert (v, b.pw[v]) in adj[u];
    DistNonNegative(adj, source, dist, prev, b, u);
    DistNonNegative(adj, source, dist, prev, b, v);
  }

  /** Nothing relaxes any more: every entry out of a finite node is already
      no shorter than the node's distance plus its weight. */
  ghost predicate Feasible(adj: WAdj, dist: Dist) {
    forall u, p {:trigger p in adj[u]} :: u in adj && p in adj[u] ==> u in dist && p.0 in dist && !Improves(dist[u], p.1, dist[p.0])
  }

  /** Under `Feasible`, a route from a finite node ends at a finite node, no
      farther than the route's cost. */
  lemma {:induction false} FeasibleBound(adj: WAdj, dist: Dist, p: seq<string>, ws: seq<int>)
    requires Feasible(adj, dist) && Route(adj, p, ws) && p[0] in dist && dist[p[0]].Some?
    ensures p[|p| - 1] in dist && dist[p[|p| - 1]].Some?
    ensures dist[p[|p| - 1]].value <= dist[p[0]].value + Sum(ws)
  {
    if ws != [] {
      assert (p[1], ws[0]) in adj[p[0]];
      assert Route(adj, p[1..], ws[1..]);
      FeasibleBound(adj, dist, p[1..], ws[1..]);
    }
  }

  /** Once nothing relaxes, no negative cycle is reachable from the source. */
  lemma FeasibleNoNegativeCycle(adj: WAdj, source: string, dist: Dist, prev: map<string, string>, b: Book)
    requires Feasible(adj, dist) && Consistent(adj, source, dist, prev, b)
    ensures !NegativeCycleFrom(adj, source)
  {
    if NegativeCycleFrom(adj, source) {
      var c, p, ws, q, qs :| RouteFrom(adj, p, ws, source, c) && RouteFrom(adj, q, qs, c, c) && Sum(qs) < 0;
      FeasibleBound(adj, dist, p, ws);
      FeasibleBound(adj, dist, q, qs);
    }
  }

  /** Once nothing relaxes, the source keeps distance 0 and has no link. */
  lemma FeasibleSource(adj: WAdj, source: string, dist: Dist, prev: map<string, string>, b: Book)
    requires Feasible(adj, dist) && Consistent(adj, source, dist, prev, b)
    ensures source !in prev && dist[source] == Some(0)
  {
    var r := b.via[source];
    FeasibleBound(adj, dist, r.0, r.1);
  }

  /** Once nothing relaxes, every link is tight, so a node's link is younger
      than its predecessor's: the chain from any node ends. */
  lemma FeasibleChainFalls(adj: WAdj, dist: Dist, prev: map<string, string>, b: Book, v: string)
    requires Feasible(adj, dist) && Linked(adj, dist, prev, b, v)
    ensures Rank(prev, b, prev[v]) < Rank(prev, b, v)
  {
    assert (v, b.pw[v]) in adj[prev[v]];
  }

  /** Once nothing relaxes, a route from the source bounds the distance of
      its end from above. */
  lemma FeasibleCheapest(adj: WAdj, source: string, dist: Dist, prev: map<string, string>, b: Book,
                         target: string, ws: seq<int>)
    requires Feasible(adj, dist) && Consistent(adj, source, dist, prev, b)
    requires target in dist && dist[target].Some? && Sum(ws) <= dist[target].value - dist[source].value
    ensures Cheapest(adj, source, target, ws)
  {
    forall p, ws' | RouteFrom(adj, p, ws', source, target) ensures Sum(ws) <= Sum(ws') {
      FeasibleBound(adj, dist, p, ws');
    }
  }

  /** Once nothing relaxes, every node a route from the source reaches has a
      finite distance. */
  lemma FeasibleReach(adj: WAdj, source: string, dist: Dist, prev: map<string, string>, b: Book, target: string)
    requires Feasible(adj, dist) && Consistent(adj, source, dist, prev, b) && Reachable(adj, source, target)
    ensures target in dist && dist[target].Some?
  {
    var p, ws :| RouteFrom(adj, p, ws, source, target);
    FeasibleBound(adj, dist, p, ws);
  }

  /** The nodes whose distance is still infinite. */
  function Unreached(dist: Dist): set<string> {
    set v | v in dist && dist[v].None?
  }

  /** The finite distances of `keys`, each counted at least 0. */
  function FiniteSum(dist: Dist, keys: seq<string>): nat {
    if keys == [] then 0 else Level(dist, keys[0]) + FiniteSum(dist, keys[1..])
  }

  /** Lowering one distance never raises the sum, and lowers it when the key
      is listed. */
  lemma {:induction false} SumFalls(dist: Dist, keys: seq<string>, v: string, x: int)
    requires v in dist && dist[v].Some? && 0 <= x < dist[v].value
    ensures FiniteSum(dist[v := Some(x)], keys) <= FiniteSum(dist, keys)
    ensures v in keys ==> FiniteSum(dist[v := Some(x)], keys) < FiniteSum(dist, keys)
  {
    if keys != [] {
      SumFalls(dist, keys[1..], v, x);
    }
  }

  /** The measure `(|Unreached|, FiniteSum)` falls, or stays and `n` falls. */
  predicate Progress(u0: nat, s0: nat, n0: nat, u: nat, s: nat, n: nat) {
    u < u0 || (u == u0 && (s < s0 || (s == s0 && n < n0)))
  }

  /** Relaxing a listed node to a value at least 0 lowers `(|Unreached|, FiniteSum)`. */
  lemma RelaxFalls(dist: Dist, keys: seq<string>, v: string, x: int, u0: nat, s0: nat, n0: nat, n: nat, n': nat)
    requires v in dist && v in keys && 0 <= x && (dist[v].None? || x < dist[v].value)
    requires Progress(u0, s0, n0, |Unreached(dist)|, FiniteSum(dist, keys), n)
    ensures Progress(u0, s0, n0, |Unreached(dist[v := Some(x)])|, FiniteSum(dist[v := Some(x)], keys), n')
  {
    var d' := dist[v := Some(x)];
    if dist[v].None? {
      assert Unreached(d') == Unreached(dist) - {v};
    } else {
      assert Unreached(d') == Unreached(dist);
      SumFalls(dist, keys, v, x);
    }
  }

  /** Every entry out of `x` is already relaxed. */
  ghost predicate Settled(adj: WAdj, dist: Dist, x: string) {
    && x in adj && x in dist && dist[x].Some?
    && forall v, w :: (v, w) in adj[x] ==> v in dist && !Improves(dist[x], w, dist[v])
  }

  /** Settled nodes stay settled while other distances only fall. */
  lemma SettledKept(adj: WAdj, dist: Dist, dist': Dist, x: string)
    requires Settled(adj, dist, x) && x in dist' && dist'[x] == dist[x]
    requires forall y :: y in dist ==> y in dist' && AtMost(dist'[y], dist[y])
    ensures Settled(adj, dist', x)
  {
    forall v, w | (v, w) in adj[x] ensures v in dist' && !Improves(dist'[x], w, dist'[v]) {
      assert !Improves(dist[x], w, dist[v]);
    }
  }

  /** The entries `ps` of `u`'s list no longer relax. */
  ghost predicate Relaxed(dist: Dist, u: string, ps: seq<(string, int)>) {
    forall v, w :: (v, w) in ps ==> u in dist && v in dist && !Improves(dist[u], w, dist[v])
  }

  /** One more entry that does not relax. */
  lemma RelaxedNext(dist: Dist, u: string, ps: seq<(string, int)>, v: string, w: int)
    requires Relaxed(dist, u, ps) && u in dist && v in dist && !Improves(dist[u], w, dist[v])
    ensures Relaxed(dist, u, ps + [(v, w)])
  {
  }

  /** Relaxing entry `(v, w)` of `u` keeps the earlier entries relaxed and
      relaxes this one. */
  lemma RelaxedStep(dist: Dist, u: string, ps: seq<(string, int)>, v: string, w: int)
    requires Relaxed(dist, u, ps) && v != u && u in dist && v in dist && Improves(dist[u], w, dist[v])
    ensures Relaxed(dist[v := Some(dist[u].value + w)], u, ps + [(v, w)])
  {
    var dist' := dist[v := Some(dist[u].value + w)];
    forall v', w' | (v', w') in ps + [(v, w)] ensures u in dist' && v' in dist' && !Improves(dist'[u], w', dist'[v']) {
      if (v', w') in ps {
        assert !Improves(dist[u], w', dist[v']);
      }
    }
  }
}
