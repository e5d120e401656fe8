/** `BellmanFordSolver.run`: |V| - 1 rounds relaxing every adjacency entry in
    key order, a final round that gives up when anything still relaxes, then
    the `prev` chain from the target walked back to the source. */
module BellmanFord {
  import opened Common
  import opened GraphModel
  import opened Weighted
  import opened Relaxation

  /** No distance rose from `dist` to `dist'`. */
  predicate NoneRose(dist: Dist, dist': Dist) {
    forall x :: x in dist ==> x in dist' && AtMost(dist'[x], dist[x])
  }

  /** After `u`'s entries `ns` were relaxed, starting from distances `dist`:
      each entry's node is no farther than `dist[u]` plus its weight. */
  predicate Tight(dist: Dist, dist': Dist, u: string, ns: seq<(string, int)>) {
    u in dist && forall q :: q in ns && dist[u].Some? ==> q.0 in dist' && AtMost(dist'[q.0], Some(dist[u].value + q.1))
  }

  /** Later relaxations keep an entry tight, measured from any earlier
      distances no lower than those it was relaxed from. */
  lemma TightKeep(d0: Dist, d1: Dist, d2: Dist, d3: Dist, u: string, ns: seq<(string, int)>)
    requires u in d0 && NoneRose(d0, d1) && Tight(d1, d2, u, ns) && NoneRose(d2, d3)
    ensures Tight(d0, d3, u, ns)
  {
  }

  /** `if dist[u] + w < dist[v]: dist[v] = dist[u] + w; prev[v] = u`. */
  method RelaxOne(adj: WAdj, source: string, u: string, v: string, w: int,
                  dist: Dist, prev: map<string, string>, ghost b: Book)
    returns (dist': Dist, prev': map<string, string>, ghost b': Book)
    requires WClosed(adj) && u in adj && (v, w) in adj[u] && Consistent(adj, source, dist, prev, b)
    ensures Consistent(adj, source, dist', prev', b')
    ensures dist' == if Improves(dist[u], w, dist[v]) then dist[v := Some(dist[u].value + w)] else dist
  {
    dist', prev', b' := dist, prev, b;
    if Improves(dist[u], w, dist[v]) {
      Relax(adj, source, dist, prev, b, u, v, w);
      b' := NextBook(b, u, v, w);
      dist' := dist[v := Some(dist[u].value + w)];
      prev' := prev[v := u];
    }
  }

  /** One entry `(v, w)` of `u`'s list is relaxed when it improves; then it
      is tight, and no distance rose. */
  lemma EntryTight(dist: Dist, d0: Dist, d1: Dist, u: string, ns: seq<(string, int)>, j: nat)
    requires j < |ns| && u in dist && u in d0 && ns[j].0 in d0
    requires NoneRose(dist, d0) && Tight(dist, d0, u, ns[..j])
    requires d1 == if Improves(d0[u], ns[j].1, d0[ns[j].0]) then d0[ns[j].0 := Some(d0[u].value + ns[j].1)] else d0
    ensures NoneRose(dist, d1) && Tight(dist, d1, u, ns[..j + 1])
  {
    assert NoneRose(d0, d1);
    assert ns[..j + 1] == ns[..j] + [ns[j]];
  }

  /** The `j`-th entry of `u`'s list, relaxed: the entries before it and
      this one are tight, and no distance rose. */
  method RelaxEntry(adj: WAdj, source: string, u: string, j: nat, dist: Dist,
                    d0: Dist, prev: map<string, string>, ghost b: Book)
    returns (d1: Dist, prev': map<string, string>, ghost b': Book)
    requires WClosed(adj) && u in adj && j < |adj[u]| && Consistent(adj, source, d0, prev, b)
    requires NoneRose(dist, d0) && Tight(dist, d0, u, adj[u][..j])
    ensures Consistent(adj, source, d1, prev', b')
    ensures NoneRose(dist, d1) && Tight(dist, d1, u, adj[u][..j + 1])
  {
    var (v, w) := adj[u][j];
    assert (v, w) in adj[u];
    d1, prev', b' := RelaxOne(adj, source, u, v, w, d0, prev, b);
    EntryTight(dist, d0, d1, u, adj[u], j);
  }

  /** `for v, w in adj[u]`: relax each improving entry of `u`'s list. No
      distance rises, and afterwards every entry is tight. */
  method RelaxEntries(adj: WAdj, source: string, u: string, dist: Dist, prev: map<string, string>, ghost b: Book)
    returns (dist': Dist, prev': map<string, string>, ghost b': Book)
    requires WClosed(adj) && u in adj && Consistent(adj, source, dist, prev, b)
    ensures Consistent(adj, source, dist', prev', b')
    ensures NoneRose(dist, dist') && Tight(dist, dist', u, adj[u])
  {
    dist', prev', b' := dist, prev, b;
    for j := 0 to |adj[u]|
      invariant Consistent(adj, source, dist', prev', b')
      invariant NoneRose(dist, dist') && Tight(dist, dist', u, adj[u][..j])
    {
      dist', prev', b' := RelaxEntry(adj, source, u, j, dist, dist', prev', b');
    }
    assert adj[u][..|adj[u]|] == adj[u];
  }

  /** The round's bookkeeping after the `i`-th key's list was relaxed. */
  lemma RoundStep(adj: WAdj, keys: seq<string>, i: nat, dist: Dist, d1: Dist, d2: Dist)
    requires i < |keys| && (forall k :: k in keys ==> k in adj) && dist.Keys == adj.Keys
    requires NoneRose(dist, d1) && forall k :: k in keys[..i] ==> Tight(dist, d1, k, adj[k])
    requires NoneRose(d1, d2) && Tight(d1, d2, keys[i], adj[keys[i]])
    ensures NoneRose(dist, d2) && forall k :: k in keys[..i + 1] ==> Tight(dist, d2, k, adj[k])
  {
    forall k | k in keys[..i + 1] ensures Tight(dist, d2, k, adj[k]) {
      if k in keys[..i] {
        TightKeep(dist, dist, d1, d2, k, adj[k]);
      } else {
        assert k == keys[i];
        TightKeep(dist, d1, d2, d2, k, adj[k]);
      }
    }
  }

  /** `for u in adj: ...`: one round over every key in order. No distance
      rises, and every entry of every key's list is tight. */
  method RelaxRound(adj: WAdj, keys: seq<string>, source: string, dist: Dist, prev: map<string, string>, ghost b: Book)
    returns (dist': Dist, prev': map<string, string>, ghost b': Book)
    requires WClosed(adj) && (forall k :: k in keys ==> k in adj) && Consistent(adj, source, dist, prev, b)
    ensures Consistent(adj, source, dist', prev', b')
    ensures NoneRose(dist, dist') && forall k :: k in keys ==> Tight(dist, dist', k, adj[k])
  {
    dist', prev', b' := dist, prev, b;
    for i := 0 to |keys|
      invariant Consistent(adj, source, dist', prev', b')
      invariant NoneRose(dist, dist') && forall k :: k in keys[..i] ==> Tight(dist, dist', k, adj[k])
    {
      ghost var d1 := dist';
      dist', prev', b' := RelaxEntries(adj, source, keys[i], dist', prev', b');
      RoundStep(adj, keys, i, dist, d1, dist');
    }
    assert keys[..|keys|] == keys;
  }

  /** Every route from `source` of at most `r` steps ends at a node whose
      distance is finite and no greater than the route's cost. */
  ghost predicate Bounded(adj: WAdj, source: string, dist: Dist, r: nat) {
    forall t, p, ws {:trigger RouteFrom(adj, p, ws, source, t)} ::
      RouteFrom(adj, p, ws, source, t) && |ws| <= r ==> t in dist && AtMost(dist[t], Some(Sum(ws)))
  }

  /** Before the first round only the empty route is bounded, by `dist[source] == 0`. */
  lemma InitialBounded(adj: WAdj, source: string)
    requires source in adj
    ensures Bounded(adj, source, Initial(adj, source), 0)
  {
  }

  /** A round that makes every entry tight bounds routes one step longer. */
  lemma RoundBounded(adj: WAdj, keys: seq<string>, source: string, dist: Dist, dist': Dist, r: nat)
    requires (forall k :: k in adj <==> k in keys) && Bounded(adj, source, dist, r)
    requires NoneRose(dist, dist') && forall k :: k in keys ==> Tight(dist, dist', k, adj[k])
    ensures Bounded(adj, source, dist', r + 1)
  {
    forall t, p, ws | RouteFrom(adj, p, ws, source, t) && |ws| <= r + 1
      ensures t in dist' && AtMost(dist'[t], Some(Sum(ws)))
    {
      if |ws| <= r {
        assert RouteFrom(adj, p, ws, source, t);
      } else {
        var n := |ws|;
        var u, w := p[n - 1], ws[n - 1];
        RouteSlice(adj, p, ws, 0, n - 1);
        assert p[0..n] == p[..n] && ws[0..n - 1] == ws[..n - 1];
        assert RouteFrom(adj, p[..n], ws[..n - 1], source, u);
        assert ws == ws[..n - 1] + [w];
        SumAppend(ws[..n - 1], w);
        assert (t, w) in adj[u] && u in keys;
        assert Tight(dist, dist', u, adj[u]);
      }
    }
  }

  /** The check after the rounds: is there an entry that still relaxes? */
  method StillRelaxes(adj: WAdj, keys: seq<string>, dist: Dist) returns (r: bool)
    requires WClosed(adj) && dist.Keys == adj.Keys && forall k :: k in keys <==> k in adj
    ensures r <==> !Feasible(adj, dist)
  {
    for i := 0 to |keys|
      invariant forall k, p :: k in keys[..i] && p in adj[k] ==> !Improves(dist[k], p.1, dist[p.0])
    {
      var u := keys[i];
      var ns := adj[u];
      for j := 0 to |ns|
        invariant forall p :: p in ns[..j] ==> p.0 in dist && !Improves(dist[u], p.1, dist[p.0])
      {
        var (v, w) := ns[j];
        assert (v, w) in adj[u];
        if Improves(dist[u], w, dist[v]) {
          return true;
        }
      }
      assert ns[..|ns|] == ns;
      assert keys[..i + 1] == keys[..i] + [u];
    }
    assert keys[..|keys|] == keys;
    return false;
  }

  /** The search part of `run`: distances and links after `rounds` rounds,
      which bound every route of at most `rounds` steps. */
  method Search(adj: WAdj, keys: seq<string>, source: string, rounds: nat)
    returns (dist: Dist, prev: map<string, string>, ghost b: Book)
    requires WClosed(adj) && source in adj && forall k :: k in keys <==> k in adj
    ensures Consistent(adj, source, dist, prev, b) && Bounded(adj, source, dist, rounds)
  {
    dist, prev, b := Initial(adj, source), map[], InitialBook(source);
    InitialConsistent(adj, source);
    InitialBounded(adj, source);
    var round := 0;
    while round < rounds
      invariant round <= rounds
      invariant Consistent(adj, source, dist, prev, b) && Bounded(adj, source, dist, round)
    {
      ghost var d0 := dist;
      dist, prev, b := RelaxRound(adj, keys, source, dist, prev, b);
      RoundBounded(adj, keys, source, d0, dist, round);
      round := round + 1;
    }
  }

  /** Without a negative cycle reachable from the source, `|adj| - 1`
      rounds leave nothing to relax: a relaxing entry would give a route,
      shortened to fewer steps than there are keys, cheaper than its end's
      distance. */
  lemma RoundsSettle(adj: WAdj, source: string, dist: Dist, prev: map<string, string>, b: Book, rounds: nat)
    requires WClosed(adj) && Consistent(adj, source, dist, prev, b) && !NegativeCycleFrom(adj, source)
    requires |adj.Keys| <= rounds + 1 && Bounded(adj, source, dist, rounds)
    ensures Feasible(adj, dist)
  {
    forall u, q {:trigger q in adj[u]} | u in adj && q in adj[u]
      ensures u in dist && q.0 in dist && !Improves(dist[u], q.1, dist[q.0])
    {
      if dist[u].Some? {
        var w := b.via[u];
        RouteExtend(adj, w.0, w.1, q.0, q.1);
        var p', ws' := Shortcut(adj, source, w.0 + [q.0], w.1 + [q.1], q.0);
        assert RouteFrom(adj, p', ws', source, q.0);
      }
    }
  }

  /** The walk back from the target: `v = target; while v in prev: ...`, the
      nodes collected in front of one another so that no reversal is needed. */
  method Chain(adj: WAdj, source: string, target: string, dist: Dist, prev: map<string, string>, ghost b: Book)
    returns (v: string, path: seq<string>, ghost ws: seq<int>)
    requires Feasible(adj, dist) && Consistent(adj, source, dist, prev, b)
    ensures v !in prev && ChainFrom(adj, dist, target, v, path, ws)
  {
    v, path, ws := target, [], [];
    RouteSelf(adj, target);
    while v in prev
      invariant ChainFrom(adj, dist, target, v, path, ws)
      decreases Rank(prev, b, v)
    {
      LinkOf(adj, source, dist, prev, b, v);
      FeasibleChainFalls(adj, dist, prev, b, v);
      ChainBack(adj, dist, prev, b, target, v, path, ws);
      path, ws, v := [v] + path, [b.pw[v]] + ws, prev[v];
    }
  }

  /** `BellmanFordSolver.run(source, target, directed)` over the adjacency
      `get_adj(directed)` of the vertices and edges, keys in vertex order:
      nothing exactly when a negative cycle is reachable from the source,
      otherwise a cheapest route when there is one. Either end may be a name
      that is not, or no longer, a vertex; the run never raises. */
  method Run(vs: seq<Vertex>, es: seq<Edge>, source: string, target: string, directed: bool)
    returns (result: seq<string>, edges: seq<(string, string)>, active: bool, ghost ws: seq<int>)
    requires EndsKnown(vs, es)
    ensures NegativeCycleFrom(WeightedAdj(vs, es, directed), source) ==> result == [] && edges == [] && !active
    ensures !NegativeCycleFrom(WeightedAdj(vs, es, directed), source) ==>
              && Answers(WeightedAdj(vs, es, directed), source, target, result, edges, active, ws)
              && (result != [] ==> Cheapest(WeightedAdj(vs, es, directed), source, target, ws))
  {
    var adj := WeightedAdj(vs, es, directed);
    WeightedAdjClosed(vs, es, directed);
    var keys := Names(vs);
    NamesListed(vs);
    if source !in adj {
      // `dist[source] = 0` adds a key that no loop visits: every distance
      // the loops read stays infinite, nothing relaxes and no link is set
      RouteFromOutside(adj, source);
      if source == target {
        return [source], [], true, [];
      }
      return [], [], false, [];
    }
    NameSetSize(vs);
    result, active, ws := Find(adj, keys, source, target, |vs| - 1);
    edges := Pairs(result);
  }

  /** The rounds, the final check and the walk back of `run`, from a source
      that is a key, with at least `|adj| - 1` rounds. */
  method Find(adj: WAdj, keys: seq<string>, source: string, target: string, rounds: nat)
    returns (result: seq<string>, active: bool, ghost ws: seq<int>)
    requires WClosed(adj) && source in adj && (forall k :: k in keys <==> k in adj) && |adj.Keys| - 1 <= rounds
    ensures NegativeCycleFrom(adj, source) ==> result == [] && !active
    ensures !NegativeCycleFrom(adj, source) ==>
              && Answers(adj, source, target, result, Pairs(result), active, ws)
              && (result != [] ==> Cheapest(adj, source, target, ws))
  {
    var dist, prev;
    ghost var b;
    dist, prev, b := Search(adj, keys, source, rounds);
    if !NegativeCycleFrom(adj, source) {
      RoundsSettle(adj, source, dist, prev, b, rounds);
    }
    var relaxes := StillRelaxes(adj, keys, dist);
    if relaxes {
      return [], false, [];
    }
    FeasibleNoNegativeCycle(adj, source, dist, prev, b);
    FeasibleSource(adj, source, dist, prev, b);
    if source == target {
      RouteSelf(adj, source);
      FeasibleCheapest(adj, source, dist, prev, b, target, []);
      return [source], true, [];
    }
    var v, path;
    v, path, ws := Chain(adj, source, target, dist, prev, b);
    if v != source {
      if Reachable(adj, source, target) {
        FeasibleReach(adj, source, dist, prev, b, target);
        assert false;
      }
      return [], false, ws;
    }
    result := [source] + path;
    FeasibleCheapest(adj, source, dist, prev, b, target, ws);
    return result, true, ws;
  }

  /** A vertex list has no more names than entries. */
  lemma {:induction false} NameSetSize(vs: seq<Vertex>)
    ensures |NameSet(vs)| <= |vs|
  {
    if vs != [] {
      NameSetSize(vs[1..]);
      assert NameSet(vs) == NameSet(vs[1..]) + {vs[0].name};
    }
  }
}
