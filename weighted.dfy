/** The weighted adjacency the path and tree solvers search, routes through it
    and their cost, and the negative-weight test of `GraphAlgorithm`. */
module Weighted {
  import opened Common
  import opened GraphModel

  /** Name to `(neighbour, weight)` list, the shape of `get_adj(directed)`. */
  type WAdj = map<string, seq<(string, int)>>

  /** Every neighbour named in a list is itself a key, so `dist[v]` never fails. */
  predicate WClosed(adj: WAdj) {
    forall u, p {:trigger p in adj[u]} :: u in adj && p in adj[u] ==> p.0 in adj
  }

  predicate NonNegative(adj: WAdj) {
    forall u, p {:trigger p in adj[u]} :: u in adj && p in adj[u] ==> p.1 >= 0
  }

  /** A route: the nodes `p` and the weight `ws[i]` of the adjacency entry taken
      from `p[i]` to `p[i + 1]`. */
  ghost predicate Route(adj: WAdj, p: seq<string>, ws: seq<int>) {
    |p| == |ws| + 1 && forall i :: 0 <= i < |ws| ==> p[i] in adj && (p[i + 1], ws[i]) in adj[p[i]]
  }

  /** A route from `a` to `b`. */
  ghost predicate RouteFrom(adj: WAdj, p: seq<string>, ws: seq<int>, a: string, b: string) {
    Route(adj, p, ws) && p[0] == a && p[|p| - 1] == b
  }

  function Sum(ws: seq<int>): int {
    if ws == [] then 0 else ws[0] + Sum(ws[1..])
  }

  lemma {:induction false} SumAppend(ws: seq<int>, w: int)
    ensures Sum(ws + [w]) == Sum(ws) + w
  {
    if ws != [] {
      assert (ws + [w])[1..] == ws[1..] + [w];
      SumAppend(ws[1..], w);
    }
  }

  lemma {:induction false} SumSplit(ws: seq<int>, j: nat)
    requires j <= |ws|
    ensures Sum(ws) == Sum(ws[..j]) + Sum(ws[j..])
  {
    if j > 0 {
      assert ws[1..][..j - 1] == ws[..j][1..];
      assert ws[1..][j - 1..] == ws[j..];
      SumSplit(ws[1..], j - 1);
    }
  }

  lemma {:induction false} SumNonNegative(ws: seq<int>)
    requires forall i :: 0 <= i < |ws| ==> ws[i] >= 0
    ensures Sum(ws) >= 0
  {
    if ws != [] {
      SumNonNegative(ws[1..]);
    }
  }

  /** The weights of a route in a non-negative adjacency add up to at least 0. */
  lemma RouteCostNonNegative(adj: WAdj, p: seq<string>, ws: seq<int>)
    requires NonNegative(adj) && Route(adj, p, ws)
    ensures Sum(ws) >= 0
  {
    forall i | 0 <= i < |ws| ensures ws[i] >= 0 {
      assert (p[i + 1], ws[i]) in adj[p[i]];
    }
    SumNonNegative(ws);
  }

  /** The one-node route. */
  lemma RouteSelf(adj: WAdj, a: string)
    ensures RouteFrom(adj, [a], [], a, a) && Sum([]) == 0
  {
  }

  /** A route extended by one more adjacency entry. */
  lemma RouteExtend(adj: WAdj, p: seq<string>, ws: seq<int>, v: string, w: int)
    requires Route(adj, p, ws) && p[|p| - 1] in adj && (v, w) in adj[p[|p| - 1]]
    ensures Route(adj, p + [v], ws + [w]) && Sum(ws + [w]) == Sum(ws) + w
  {
    SumAppend(ws, w);
  }

  /** Some route leads from `a` to `b`. */
  ghost predicate Reachable(adj: WAdj, a: string, b: string) {
    exists p, ws :: RouteFrom(adj, p, ws, a, b)
  }

  /** No route from `a` to `b` costs less than `ws`. */
  ghost predicate Cheapest(adj: WAdj, a: string, b: string, ws: seq<int>) {
    forall p, ws' :: RouteFrom(adj, p, ws', a, b) ==> Sum(ws) <= Sum(ws')
  }

  /** A closed route of negative cost that `source` can reach. */
  ghost predicate NegativeCycleFrom(adj: WAdj, source: string) {
    exists c, p, ws, q, qs :: RouteFrom(adj, p, ws, source, c) && RouteFrom(adj, q, qs, c, c) && Sum(qs) < 0
  }

  /** A route out of a name that is not a key takes no step: such a name
      reaches only itself and closes no cycle. */
  lemma RouteFromOutside(adj: WAdj, s: string)
    requires s !in adj
    ensures forall p, ws, t :: RouteFrom(adj, p, ws, s, t) ==> ws == [] && t == s
    ensures forall t :: t != s ==> !Reachable(adj, s, t)
    ensures !NegativeCycleFrom(adj, s)
  {
  }

  /** Every node of a route out of a key is a key, when the lists name only keys. */
  lemma {:induction false} RouteNodes(adj: WAdj, p: seq<string>, ws: seq<int>)
    requires WClosed(adj) && Route(adj, p, ws) && p[0] in adj
    ensures forall k :: 0 <= k < |p| ==> p[k] in adj
  {
    forall k | 0 <= k < |p| ensures p[k] in adj {
      if k > 0 {
        assert (p[k], ws[k - 1]) in adj[p[k - 1]];
      }
    }
  }

  /** More names than distinct values: some value is listed twice. */
  lemma {:induction false} Pigeon<T>(p: seq<T>, s: set<T>) returns (i: nat, j: nat)
    requires forall k :: 0 <= k < |p| ==> p[k] in s
    requires |p| > |s|
    ensures i < j < |p| && p[i] == p[j]
    decreases |p|
  {
    if k :| 1 <= k < |p| && p[k] == p[0] {
      return 0, k;
    }
    var s' := s - {p[0]};
    assert s == s' + {p[0]};
    assert forall k :: 0 <= k < |p[1..]| ==> p[1..][k] == p[k + 1];
    var i', j' := Pigeon(p[1..], s');
    return i' + 1, j' + 1;
  }

  /** The part of a route from its `i`-th to its `j`-th node. */
  lemma RouteSlice(adj: WAdj, p: seq<string>, ws: seq<int>, i: nat, j: nat)
    requires Route(adj, p, ws) && i <= j < |p|
    ensures Route(adj, p[i..j + 1], ws[i..j])
  {
    forall k | 0 <= k < j - i ensures p[i..j + 1][k] in adj && (p[i..j + 1][k + 1], ws[i..j][k]) in adj[p[i..j + 1][k]] {
      assert p[i..j + 1][k] == p[i + k] && p[i..j + 1][k + 1] == p[i + k + 1] && ws[i..j][k] == ws[i + k];
    }
  }

  /** Cutting out the closed part between two visits of one node leaves a
      route, cheaper by the cost of that closed part. */
  lemma RouteCut(adj: WAdj, p: seq<string>, ws: seq<int>, i: nat, j: nat)
    requires Route(adj, p, ws) && i < j < |p| && p[i] == p[j]
    ensures Route(adj, p[..i] + p[j..], ws[..i] + ws[j..])
    ensures Sum(ws[..i] + ws[j..]) == Sum(ws) - Sum(ws[i..j])
  {
    var p2, ws2 := p[..i] + p[j..], ws[..i] + ws[j..];
    forall k | 0 <= k < |ws2| ensures p2[k] in adj && (p2[k + 1], ws2[k]) in adj[p2[k]] {
      if k < i {
        assert p2[k] == p[k] && ws2[k] == ws[k];
        assert p2[k + 1] == p[k + 1];
      } else {
        assert p2[k] == p[k - i + j] && p2[k + 1] == p[k + 1 - i + j] && ws2[k] == ws[k - i + j];
      }
    }
    SumSplit(ws, i);
    SumSplit(ws[i..], j - i);
    assert ws[i..][..j - i] == ws[i..j] && ws[i..][j - i..] == ws[j..];
    SumSplit(ws2, i);
    assert ws2[..i] == ws[..i] && ws2[i..] == ws[j..];
  }

  /** Without a negative cycle reachable from `source`, every route from it
      can be shortened to one through fewer steps than there are keys, at no
      greater cost. */
  lemma {:induction false} Shortcut(adj: WAdj, source: string, p: seq<string>, ws: seq<int>, t: string)
    returns (p': seq<string>, ws': seq<int>)
    requires WClosed(adj) && source in adj && !NegativeCycleFrom(adj, source)
    requires RouteFrom(adj, p, ws, source, t)
    ensures RouteFrom(adj, p', ws', source, t) && |ws'| < |adj.Keys| && Sum(ws') <= Sum(ws)
    decreases |ws|
  {
    RouteNodes(adj, p, ws);
    if |p| <= |adj.Keys| {
      return p, ws;
    }
    var i, j := Pigeon(p, adj.Keys);
    RouteSlice(adj, p, ws, 0, i);
    RouteSlice(adj, p, ws, i, j);
    assert p[..i + 1] == p[0..i + 1] && ws[..i] == ws[0..i];
    assert RouteFrom(adj, p[..i + 1], ws[..i], source, p[i]);
    assert RouteFrom(adj, p[i..j + 1], ws[i..j], p[i], p[i]);
    assert Sum(ws[i..j]) >= 0;
    RouteCut(adj, p, ws, i, j);
    var p2, ws2 := p[..i] + p[j..], ws[..i] + ws[j..];
    assert p2[0] == source && p2[|p2| - 1] == t;
    p', ws' := Shortcut(adj, source, p2, ws2, t);
  }

  /** `(u, v)` for each step of a path: the `edge_result` of a path solver. */
  function Pairs(p: seq<string>): (r: seq<(string, string)>)
    ensures |p| > 0 ==> |r| == |p| - 1
    ensures forall i :: 0 <= i < |p| - 1 ==> r[i] == (p[i], p[i + 1])
  {
    if |p| < 2 then [] else [(p[0], p[1])] + Pairs(p[1..])
  }

  /** What a path solver leaves behind: `[source]` alone when source and
      target coincide; otherwise a route from source to target with its steps
      as `edge_result` and `active` set when there is one, and nothing with
      `active` cleared when there is none. `ws` are the weights of the steps. */
  ghost predicate Answers(adj: WAdj, source: string, target: string,
                          result: seq<string>, edges: seq<(string, string)>, active: bool, ws: seq<int>) {
    if source == target then result == [source] && edges == [] && active && ws == []
    else if Reachable(adj, source, target) then
      active && RouteFrom(adj, result, ws, source, target) && edges == Pairs(result)
    else result == [] && edges == [] && !active
  }

  /** Some edge's weight is below 0: the condition of `has_negative_weights`. */
  predicate NegativeEdge(es: seq<Edge>) {
    exists i :: 0 <= i < |es| && Weight(es[i].value) < 0
  }

  /** `has_negative_weights`: scan the edges, stop at the first negative one. */
  method HasNegativeWeights(es: seq<Edge>) returns (r: bool)
    ensures r <==> NegativeEdge(es)
  {
    for i := 0 to |es|
      invariant forall j :: 0 <= j < i ==> Weight(es[j].value) >= 0
    {
      if Weight(es[i].value) < 0 {
        return true;
      }
    }
    return false;
  }

  /** Without a negative edge every adjacency weight is at least 0. */
  lemma NoNegativeEdge(vs: seq<Vertex>, es: seq<Edge>, directed: bool)
    requires !NegativeEdge(es)
    ensures NonNegative(WeightedAdj(vs, es, directed))
  {
    var adj := WeightedAdj(vs, es, directed);
    forall u, p: (string, int) | u in adj && p in adj[u] ensures p.1 >= 0 {
      IncidentIff(es, u, p.0, p.1, directed);
    }
  }

  /** When every edge joins two vertices, the adjacency names only vertices. */
  lemma WeightedAdjClosed(vs: seq<Vertex>, es: seq<Edge>, directed: bool)
    requires EndsKnown(vs, es)
    ensures WClosed(WeightedAdj(vs, es, directed))
  {
    var adj := WeightedAdj(vs, es, directed);
    forall u, p: (string, int) | u in adj && p in adj[u] ensures p.0 in adj {
      IncidentNamesAreVertices(vs, es, u, directed);
    }
  }

  /** Adding one edge at the end adds its entries at the end of each list. */
  lemma {:induction false} IncidentSnoc(es: seq<Edge>, e: Edge, u: string, directed: bool)
    ensures Incident(es + [e], u, directed) == Incident(es, u, directed) + EdgeEntries(e, u, directed)
  {
    if es == [] {
      assert [e][1..] == [];
    } else {
      assert (es + [e])[0] == es[0] && (es + [e])[1..] == es[1..] + [e];
      IncidentSnoc(es[1..], e, u, directed);
      var head, rest, tail := EdgeEntries(es[0], u, directed), Incident(es[1..], u, directed), EdgeEntries(e, u, directed);
      assert head + (rest + tail) == (head + rest) + tail;
    }
  }

  lemma TakeNext<T>(s: seq<T>, i: nat)
    requires i < |s|
    ensures s[..i + 1] == s[..i] + [s[i]]
  {
  }

  /** Appending edge `e`'s two entries keeps each list equal to the incident
      list of the edges seen so far. */
  lemma AddEntries(adj: WAdj, es: seq<Edge>, e: Edge)
    requires e.start in adj && e.end in adj
    requires forall u :: u in adj ==> adj[u] == Incident(es, u, false)
    ensures var w := Weight(e.value);
            var a1 := adj[e.start := adj[e.start] + [(e.end, w)]];
            var a2 := a1[e.end := a1[e.end] + [(e.start, w)]];
            forall u :: u in a2 ==> a2[u] == Incident(es + [e], u, false)
  {
    forall u | u in adj {
      IncidentSnoc(es, e, u, false);
    }
  }

  /** `PrimSolver.get_weighted_undirected_adj`: an empty list per vertex, then
      each edge appended to both of its endpoints' lists. Python keeps
      `(weight, name)` pairs; they are stored here as `(name, weight)`, the
      order of `get_adj`. */
  method WeightedUndirectedAdj(vs: seq<Vertex>, es: seq<Edge>) returns (adj: WAdj)
    requires EndsKnown(vs, es)
    ensures adj == WeightedAdj(vs, es, false)
  {
    adj := map v | v in NameSet(vs) :: [];
    for i := 0 to |es|
      invariant adj.Keys == NameSet(vs)
      invariant forall u :: u in adj ==> adj[u] == Incident(es[..i], u, false)
    {
      var e := es[i];
      assert e in es;
      AddEntries(adj, es[..i], e);
      var w := Weight(e.value);
      adj := adj[e.start := adj[e.start] + [(e.end, w)]];
      adj := adj[e.end := adj[e.end] + [(e.start, w)]];
      TakeNext(es, i);
    }
    assert es[..|es|] == es;
  }
}
