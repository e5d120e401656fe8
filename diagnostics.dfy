/** diagnostics.py: the structural facts shown beside the canvas, computed
    by recursive searches over a name-keyed adjacency of neighbour sets. */
module Diagnostics {
  import opened Common
  import opened GraphModel

  /** `{name: set(...)}`: each vertex name and its set of neighbours. */
  type SetAdj = map<string, set<string>>

  /** Every neighbour is itself a key, so `self.adj[n]` never fails. */
  predicate SetClosed(adj: SetAdj) {
    forall u, n :: u in adj && n in adj[u] ==> n in adj
  }

  /** `adj` is what `_build_adj(directed)` builds: one key per vertex name, and
      `n` is a neighbour of `u` exactly when some edge joins `u` to `n` (either
      way round when the graph is undirected). */
  ghost predicate AdjOf(adj: SetAdj, vs: seq<Vertex>, es: seq<Edge>, directed: bool) {
    && adj.Keys == NameSet(vs)
    && forall u, n :: u in adj ==> (n in adj[u] <==> exists j :: 0 <= j < |es| && Joins(es[j], u, n, directed))
  }

  /** `rev` is what `_build_adj_reverse()` builds: `u` is listed under `v`
      exactly when some edge runs from `u` to `v`. */
  ghost predicate RevOf(rev: SetAdj, vs: seq<Vertex>, es: seq<Edge>) {
    && rev.Keys == NameSet(vs)
    && forall v, u :: v in rev ==> (u in rev[v] <==> exists j :: 0 <= j < |es| && es[j].start == u && es[j].end == v)
  }

  /** `_build_adj(directed)`. */
  method BuildAdj(vs: seq<Vertex>, es: seq<Edge>, directed: bool) returns (adj: SetAdj)
    requires forall e :: e in es ==> e.start in NameSet(vs) && e.end in NameSet(vs)
    ensures AdjOf(adj, vs, es, directed)
  {
    adj := map v | v in NameSet(vs) :: {};
    for i := 0 to |es|
      invariant adj.Keys == NameSet(vs)
      invariant forall u, n :: u in adj ==> (n in adj[u] <==> exists j :: 0 <= j < i && Joins(es[j], u, n, directed))
    {
      var e := es[i];
      assert e in es;
      adj := adj[e.start := adj[e.start] + {e.end}];
      if !directed {
        adj := adj[e.end := adj[e.end] + {e.start}];
      }
    }
  }

  /** `_build_adj_reverse()`. */
  method BuildAdjReverse(vs: seq<Vertex>, es: seq<Edge>) returns (rev: SetAdj)
    requires forall e :: e in es ==> e.start in NameSet(vs) && e.end in NameSet(vs)
    ensures RevOf(rev, vs, es)
  {
    rev := map v | v in NameSet(vs) :: {};
    for i := 0 to |es|
      invariant rev.Keys == NameSet(vs)
      invariant forall v, u :: v in rev ==> (u in rev[v] <==> exists j :: 0 <= j < i && es[j].start == u && es[j].end == v)
    {
      var e := es[i];
      assert e in es;
      rev := rev[e.end := rev[e.end] + {e.start}];
    }
  }

  /** Every neighbour of a well-formed graph's adjacency is a key. */
  lemma AdjOfClosed(adj: SetAdj, vs: seq<Vertex>, es: seq<Edge>, directed: bool)
    requires AdjOf(adj, vs, es, directed)
    requires forall e :: e in es ==> e.start in NameSet(vs) && e.end in NameSet(vs)
    ensures SetClosed(adj)
  {
    forall u, n | u in adj && n in adj[u] ensures n in adj {
      var j :| 0 <= j < |es| && Joins(es[j], u, n, directed);
      assert es[j] in es;
    }
  }

  /** Every neighbour lists its neighbour back: the symmetry of an undirected
      set adjacency (Prim states a weighted one of its own). */
  predicate Symmetric(adj: SetAdj) {
    forall u, n :: u in adj && n in adj[u] ==> n in adj && u in adj[n]
  }

  /** Read undirected, the adjacency lists every edge from both its ends. */
  lemma UndirectedAdjSymmetric(adj: SetAdj, vs: seq<Vertex>, es: seq<Edge>)
    requires AdjOf(adj, vs, es, false)
    requires forall e :: e in es ==> e.start in NameSet(vs) && e.end in NameSet(vs)
    ensures Symmetric(adj)
  {
    forall u, n | u in adj && n in adj[u] ensures n in adj && u in adj[n] {
      var j :| 0 <= j < |es| && Joins(es[j], u, n, false);
      assert es[j] in es;
      assert Joins(es[j], n, u, false);
    }
  }

  /** The reverse adjacency is the directed adjacency with every arrow turned round. */
  lemma RevOfClosed(rev: SetAdj, vs: seq<Vertex>, es: seq<Edge>)
    requires RevOf(rev, vs, es)
    requires forall e :: e in es ==> e.start in NameSet(vs) && e.end in NameSet(vs)
    ensures SetClosed(rev)
  {
    forall v, u | v in rev && u in rev[v] ensures u in rev {
      var j :| 0 <= j < |es| && es[j].start == u && es[j].end == v;
      assert es[j] in es;
    }
  }

  lemma ReverseIsTranspose(adj: SetAdj, rev: SetAdj, vs: seq<Vertex>, es: seq<Edge>)
    requires AdjOf(adj, vs, es, true) && RevOf(rev, vs, es)
    ensures Transposed(adj, rev)
  {
  }

  predicate Transposed(adj: SetAdj, rev: SetAdj) {
    adj.Keys == rev.Keys && forall u, v :: u in adj && v in adj ==> (u in rev[v] <==> v in adj[u])
  }

  /** `p` is a walk along the adjacency; the forest module walks along a list
      of unordered pairs instead. */
  ghost predicate Walk(adj: SetAdj, p: seq<string>) {
    |p| > 0 && forall i :: 0 <= i < |p| - 1 ==> p[i] in adj && p[i + 1] in adj[p[i]]
  }

  ghost predicate Outside(p: seq<string>, avoid: set<string>) {
    forall i :: 0 <= i < |p| ==> p[i] !in avoid
  }

  /** `b` can be reached from `a` by a walk (possibly of no steps) none of
      whose nodes is in `avoid`. */
  ghost predicate ReachAvoid(adj: SetAdj, avoid: set<string>, a: string, b: string) {
    exists p :: Walk(adj, p) && Outside(p, avoid) && p[0] == a && p[|p| - 1] == b
  }

  ghost predicate Reach(adj: SetAdj, a: string, b: string) {
    ReachAvoid(adj, {}, a, b)
  }

  lemma ReachSelf(adj: SetAdj, avoid: set<string>, a: string)
    requires a !in avoid
    ensures ReachAvoid(adj, avoid, a, a)
  {
    assert Walk(adj, [a]) && Outside([a], avoid);
  }

  /** A step from `v` into a walk's start, `v` outside the smaller avoided set. */
  lemma ReachPrepend(adj: SetAdj, avoid: set<string>, bigger: set<string>, v: string, n: string, u: string)
    requires avoid <= bigger && v !in avoid && v in adj && n in adj[v]
    requires ReachAvoid(adj, bigger, n, u)
    ensures ReachAvoid(adj, avoid, v, u)
  {
    var p :| Walk(adj, p) && Outside(p, bigger) && p[0] == n && p[|p| - 1] == u;
    var q := [v] + p;
    assert Walk(adj, q) && Outside(q, avoid);
  }

  lemma ReachAvoidWeaken(adj: SetAdj, avoid: set<string>, a: string, b: string)
    requires ReachAvoid(adj, avoid, a, b)
    ensures Reach(adj, a, b)
  {
    var p :| Walk(adj, p) && Outside(p, avoid) && p[0] == a && p[|p| - 1] == b;
    assert Outside(p, {});
  }

  /** No neighbour of a member of `s` lies outside `s`. */
  ghost predicate ClosedSet(adj: SetAdj, s: set<string>) {
    forall u, w :: u in s && u in adj && w in adj[u] ==> w in s
  }

  /** Whatever a member of a closed set reaches is in the set. */
  lemma {:induction false} ClosedHoldsWalk(adj: SetAdj, s: set<string>, p: seq<string>)
    requires ClosedSet(adj, s) && Walk(adj, p) && p[0] in s
    ensures p[|p| - 1] in s
    decreases |p|
  {
    if |p| > 1 {
      var q := p[..|p| - 1];
      assert Walk(adj, q);
      ClosedHoldsWalk(adj, s, q);
      assert p[|p| - 2] in s && p[|p| - 1] in adj[p[|p| - 2]];
    }
  }

  lemma ClosedHoldsReach(adj: SetAdj, s: set<string>, a: string, b: string)
    requires ClosedSet(adj, s) && a in s && Reach(adj, a, b)
    ensures b in s
  {
    var p :| Walk(adj, p) && Outside(p, {}) && p[0] == a && p[|p| - 1] == b;
    ClosedHoldsWalk(adj, s, p);
  }

  /** The inner `dfs(v)` of `_component_count`, and `dfs2` of
      `_strongly_connected_components` run on the reverse adjacency: mark `v`
      and search from every unmarked neighbour. The nodes it marks are
      reachable from `v` without passing a node marked before, and every
      neighbour of a node it marks is marked when it returns. */
  method Explore(adj: SetAdj, v: string, visited: set<string>) returns (visited': set<string>)
    requires SetClosed(adj) && v in adj && v !in visited && visited <= adj.Keys
    ensures visited + {v} <= visited' <= adj.Keys
    ensures forall u :: u in visited' - visited ==> ReachAvoid(adj, visited, v, u)
    ensures forall u, w :: u in visited' - visited && w in adj[u] ==> w in visited'
    decreases adj.Keys - visited
  {
    visited' := visited + {v};
    ReachSelf(adj, visited, v);
    var ns := adj[v];
    while ns != {}
      invariant visited + {v} <= visited' <= adj.Keys
      invariant ns <= adj[v]
      invariant forall u :: u in visited' - visited ==> ReachAvoid(adj, visited, v, u)
      invariant forall u, w :: u in visited' - visited - {v} && w in adj[u] ==> w in visited'
      invariant forall w :: w in adj[v] - ns ==> w in visited'
      decreases ns
    {
      var n :| n in ns;
      ns := ns - {n};
      if n !in visited' {
        ghost var before := visited';
        visited' := Explore(adj, n, visited');
        forall u | u in visited' - before ensures ReachAvoid(adj, visited, v, u) {
          ReachPrepend(adj, visited, before, v, n, u);
        }
      }
    }
  }

  /** Searching from an unmarked `v` over a closed marked set marks exactly
      what `v` reaches, and leaves the marked set closed. */
  lemma ExploreExact(adj: SetAdj, v: string, visited: set<string>, visited': set<string>)
    requires ClosedSet(adj, visited) && v in adj && v !in visited
    requires visited + {v} <= visited' <= adj.Keys
    requires forall u :: u in visited' - visited ==> ReachAvoid(adj, visited, v, u)
    requires forall u, w :: u in visited' - visited && w in adj[u] ==> w in visited'
    ensures ClosedSet(adj, visited')
    ensures forall w :: w in visited' <==> w in visited || Reach(adj, v, w)
  {
    forall w | Reach(adj, v, w) ensures w in visited' {
      ClosedHoldsReach(adj, visited', v, w);
    }
    forall w | w in visited' - visited ensures Reach(adj, v, w) {
      ReachAvoidWeaken(adj, visited, v, w);
    }
  }

  /** The number of keys, in iteration order, that no earlier key reaches:
      the nodes from which `_component_count` starts a new search. */
  ghost function CountRoots(adj: SetAdj, keys: seq<string>): nat {
    if keys == [] then 0
    else
      var init := keys[..|keys| - 1];
      CountRoots(adj, init) + if ReachedBefore(adj, init, keys[|keys| - 1]) then 0 else 1
  }

  /** Some key of `keys` reaches `w`. */
  ghost predicate ReachedBefore(adj: SetAdj, keys: seq<string>, w: string) {
    exists j :: 0 <= j < |keys| && Reach(adj, keys[j], w)
  }

  /** `visited` holds exactly what the first `i` keys reach. */
  ghost predicate Covered(adj: SetAdj, keys: seq<string>, i: nat, visited: set<string>) {
    i <= |keys| && forall w :: w in visited <==> ReachedBefore(adj, keys[..i], w)
  }

  /** One turn of the root loop of `_component_count`. */
  lemma CoveredStep(adj: SetAdj, keys: seq<string>, i: nat, visited: set<string>, visited': set<string>)
    requires i < |keys| && Covered(adj, keys, i, visited)
    requires forall w :: w in visited' <==> w in visited || Reach(adj, keys[i], w)
    ensures Covered(adj, keys, i + 1, visited')
    ensures CountRoots(adj, keys[..i + 1]) == CountRoots(adj, keys[..i]) + if keys[i] in visited then 0 else 1
  {
    var pre, pre' := keys[..i], keys[..i + 1];
    assert pre'[..i] == pre && pre'[i] == keys[i];
    forall w ensures w in visited' <==> ReachedBefore(adj, pre', w) {
      if ReachedBefore(adj, pre', w) {
        var j :| 0 <= j < |pre'| && Reach(adj, pre'[j], w);
        if j < i {
          assert pre[j] == pre'[j];
        }
      }
      if ReachedBefore(adj, pre, w) {
        var j :| 0 <= j < |pre| && Reach(adj, pre[j], w);
        assert pre'[j] == pre[j];
      }
      if Reach(adj, keys[i], w) {
        assert Reach(adj, pre'[i], w);
      }
    }
  }

  /** `_component_count(visited)` from an empty `visited`: one search per key
      not yet marked, in the adjacency's key order. */
  method ComponentCount(adj: SetAdj, keys: seq<string>) returns (count: nat)
    requires SetClosed(adj) && forall k :: k in keys <==> k in adj
    ensures count == CountRoots(adj, keys)
  {
    count := 0;
    var visited: set<string> := {};
    for i := 0 to |keys|
      invariant visited <= adj.Keys
      invariant ClosedSet(adj, visited)
      invariant Covered(adj, keys, i, visited)
      invariant count == CountRoots(adj, keys[..i])
    {
      var v := keys[i];
      ghost var before := visited;
      if v !in visited {
        count := count + 1;
        visited := Explore(adj, v, visited);
        ExploreExact(adj, v, before, visited);
      } else {
        assert forall w :: w in before || Reach(adj, v, w) ==> w in before by {
          forall w | Reach(adj, v, w) ensures w in before {
            ClosedHoldsReach(adj, before, v, w);
          }
        }
      }
      CoveredStep(adj, keys, i, before, visited);
    }
    assert keys[..|keys|] == keys;
  }

  /** A directed cycle: a walk whose last node has its first node as a
      neighbour (a self-loop is a cycle of one node). */
  ghost predicate HasDirectedCycle(adj: SetAdj) {
    exists p :: Walk(adj, p) && p[|p| - 1] in adj && p[0] in adj[p[|p| - 1]]
  }

  lemma ReachAppend(adj: SetAdj, s: string, v: string, n: string)
    requires Reach(adj, s, v) && v in adj && n in adj[v]
    ensures Reach(adj, s, n)
  {
    var p :| Walk(adj, p) && Outside(p, {}) && p[0] == s && p[|p| - 1] == v;
    var q := p + [n];
    assert Walk(adj, q) && Outside(q, {});
  }

  /** An arrow from `v` back to a node that reaches `v` closes a cycle. */
  lemma CycleFromReach(adj: SetAdj, n: string, v: string)
    requires Reach(adj, n, v) && v in adj && n in adj[v]
    ensures HasDirectedCycle(adj)
  {
    var p :| Walk(adj, p) && Outside(p, {}) && p[0] == n && p[|p| - 1] == v;
  }

  /** The finished nodes `done` carry ranks that fall strictly along every
      arrow, and every arrow out of a finished node ends at a finished node:
      the order in which the directed search finishes its nodes. */
  ghost predicate Ranked(adj: SetAdj, done: set<string>, rank: map<string, nat>) {
    && rank.Keys == done && done <= adj.Keys
    && forall u, w :: u in done && w in adj[u] ==> w in done && rank[w] < rank[u]
  }

  lemma {:induction false} WalkRanks(adj: SetAdj, done: set<string>, rank: map<string, nat>, p: seq<string>)
    requires Ranked(adj, done, rank) && Walk(adj, p) && p[0] in done
    ensures p[|p| - 1] in done && rank[p[|p| - 1]] + |p| - 1 <= rank[p[0]]
    decreases |p|
  {
    if |p| > 1 {
      var q := p[..|p| - 1];
      assert Walk(adj, q);
      WalkRanks(adj, done, rank, q);
      assert p[|p| - 1] in adj[p[|p| - 2]];
    }
  }

  /** Ranks on every node rule out a cycle. */
  lemma RankedAcyclic(adj: SetAdj, rank: map<string, nat>)
    requires Ranked(adj, adj.Keys, rank)
    ensures !HasDirectedCycle(adj)
  {
    if HasDirectedCycle(adj) {
      var p :| Walk(adj, p) && p[|p| - 1] in adj && p[0] in adj[p[|p| - 1]];
      WalkRanks(adj, adj.Keys, rank, p);
    }
  }

  /** The directed `dfs(v)` of `_has_cycle`: mark `v`, push it on `rec_stack`,
      search the unmarked neighbours and report a cycle on meeting a neighbour
      still on the stack; pop `v` on a normal return. The ghost `rank` numbers
      the finished nodes in the order they finish. */
  method DirectedVisit(adj: SetAdj, v: string, visited: set<string>, recStack: set<string>,
                       ghost rank: map<string, nat>, ghost clock: nat)
    returns (found: bool, visited': set<string>, recStack': set<string>, ghost rank': map<string, nat>, ghost clock': nat)
    requires SetClosed(adj) && v in adj && v !in visited && visited <= adj.Keys && recStack <= visited
    requires Ranked(adj, visited - recStack, rank) && forall x :: x in rank ==> rank[x] < clock
    requires forall s :: s in recStack ==> Reach(adj, s, v)
    ensures visited <= visited' <= adj.Keys
    ensures !found ==> && v in visited' && recStack' == recStack
                       && Ranked(adj, visited' - recStack', rank') && forall x :: x in rank' ==> rank'[x] < clock'
    ensures found ==> HasDirectedCycle(adj)
    decreases adj.Keys - visited
  {
    visited', recStack', rank', clock' := visited + {v}, recStack + {v}, rank, clock;
    var ns := adj[v];
    while ns != {}
      invariant visited + {v} <= visited' <= adj.Keys && ns <= adj[v]
      invariant recStack' == recStack + {v} && recStack' <= visited'
      invariant Ranked(adj, visited' - recStack', rank') && forall x :: x in rank' ==> rank'[x] < clock'
      invariant forall w :: w in adj[v] - ns ==> w in rank'
      decreases ns
    {
      var n :| n in ns;
      ns := ns - {n};
      if n !in visited' {
        forall s | s in recStack' ensures Reach(adj, s, n) {
          if s == v {
            ReachSelf(adj, {}, v);
          }
          ReachAppend(adj, s, v, n);
        }
        ghost var before := visited';
        found, visited', recStack', rank', clock' := DirectedVisit(adj, n, visited', recStack', rank', clock');
        if found {
          return;
        }
        assert before - recStack' <= visited' - recStack' && n in visited' - recStack';
      } else if n in recStack' {
        if n == v {
          ReachSelf(adj, {}, v);
        }
        CycleFromReach(adj, n, v);
        found := true;
        return;
      }
    }
    recStack' := recStack' - {v};
    rank' := rank'[v := clock'];
    clock' := clock' + 1;
    found := false;
  }

  /** `_has_cycle(True, visited)` from an empty `visited`: true exactly when
      the directed graph has a cycle, self-loops included. */
  method DirectedHasCycle(adj: SetAdj, keys: seq<string>) returns (cyclic: bool)
    requires SetClosed(adj) && forall k :: k in keys <==> k in adj
    ensures cyclic <==> HasDirectedCycle(adj)
  {
    var visited: set<string> := {};
    var recStack: set<string> := {};
    ghost var rank: map<string, nat> := map[];
    ghost var clock: nat := 0;
    for i := 0 to |keys|
      invariant visited <= adj.Keys && recStack == {}
      invariant Ranked(adj, visited, rank) && forall x :: x in rank ==> rank[x] < clock
      invariant forall j :: 0 <= j < i ==> keys[j] in visited
    {
      if keys[i] !in visited {
        var found;
        found, visited, recStack, rank, clock := DirectedVisit(adj, keys[i], visited, recStack, rank, clock);
        if found {
          return true;
        }
      }
    }
    assert visited == adj.Keys;
    RankedAcyclic(adj, rank);
    return false;
  }

  predicate Distinct(p: seq<string>) {
    forall i, j :: 0 <= i < j < |p| ==> p[i] != p[j]
  }

  /** An undirected cycle: a self-loop, or a closed walk through at least
      three distinct nodes. A single edge, seen from both ends, is not one. */
  ghost predicate HasUndirectedCycle(adj: SetAdj) {
    || (exists u :: u in adj && u in adj[u])
    || exists p :: Walk(adj, p) && |p| >= 3 && Distinct(p) && p[|p| - 1] in adj && p[0] in adj[p[|p| - 1]]
  }

  /** `x` and `y` are joined in the search tree: one is the other's parent. */
  ghost predicate Linked(par: map<string, string>, x: string, y: string) {
    (x in par && par[x] == y) || (y in par && par[y] == x)
  }

  /** The search tree of the undirected `dfs(v, parent)`: `par` maps each
      node reached from a parent to that parent, `depth` counts the steps
      from its root, and every arrow out of a finished node is a tree edge,
      to its parent or to one of its children. */
  ghost predicate Tree(adj: SetAdj, visited: set<string>, finished: set<string>,
                       par: map<string, string>, depth: map<string, nat>) {
    && visited <= adj.Keys && finished <= visited
    && depth.Keys == visited && par.Keys <= visited
    && (forall x :: x in par ==> par[x] in visited && depth[x] == depth[par[x]] + 1)
    && forall x, y :: x in finished && y in adj[x] ==> Linked(par, x, y)
  }

  /** The tree only grows. */
  ghost predicate Grows(par: map<string, string>, par': map<string, string>,
                        depth: map<string, nat>, depth': map<string, nat>) {
    && (forall x :: x in par ==> x in par' && par'[x] == par[x])
    && (forall x :: x in depth ==> x in depth' && depth'[x] == depth[x])
  }

  /** The parent links added by the call at `v` hang below `v`. */
  ghost predicate NewUnder(v: string, visited: set<string>, visited': set<string>,
                           par: map<string, string>, par': map<string, string>) {
    forall x :: x in par' && x !in par ==> x in visited' - visited && (x == v || par'[x] in visited' - visited)
  }

  /** `v`'s parent link is its `parent` argument. */
  ghost predicate ParentOf(v: string, parent: Option<string>, par: map<string, string>) {
    (parent.Some? ==> v in par && par[v] == parent.value) && (parent.None? ==> v !in par)
  }

  lemma {:induction false} DeepestIndex(p: seq<string>, depth: map<string, nat>) returns (m: nat)
    requires |p| > 0 && forall i :: 0 <= i < |p| ==> p[i] in depth
    ensures m < |p| && forall i :: 0 <= i < |p| ==> depth[p[i]] <= depth[p[m]]
    decreases |p|
  {
    if |p| == 1 {
      m := 0;
    } else {
      m := DeepestIndex(p[..|p| - 1], depth);
      assert forall i :: 0 <= i < |p| - 1 ==> p[..|p| - 1][i] == p[i];
      if depth[p[m]] < depth[p[|p| - 1]] {
        m := |p| - 1;
      }
    }
  }

  /** In a finished tree an arrow runs to the parent exactly when it does
      not go deeper. */
  lemma TreeArrow(adj: SetAdj, par: map<string, string>, depth: map<string, nat>, x: string, y: string)
    requires Tree(adj, adj.Keys, adj.Keys, par, depth) && x in adj && y in adj[x]
    ensures y in depth && depth[y] != depth[x]
    ensures depth[y] < depth[x] ==> x in par && par[x] == y
  {
  }

  /** A closed walk through three or more nodes in a finished tree repeats a
      node: at its deepest node both neighbours on the walk are the parent. */
  lemma TreeWalkRepeats(adj: SetAdj, par: map<string, string>, depth: map<string, nat>, p: seq<string>)
    requires Tree(adj, adj.Keys, adj.Keys, par, depth)
    requires Walk(adj, p) && |p| >= 3 && p[|p| - 1] in adj && p[0] in adj[p[|p| - 1]]
    ensures !Distinct(p)
  {
    var L := |p|;
    assert forall i :: 0 <= i < L ==> p[i] in adj;
    var m := DeepestIndex(p, depth);
    var next := if m == L - 1 then 0 else m + 1;
    var prev := if m == 0 then L - 1 else m - 1;
    TreeArrow(adj, par, depth, p[m], p[next]);
    TreeArrow(adj, par, depth, p[prev], p[m]);
    assert prev != next && p[prev] == p[next];
  }

  /** Every arrow a tree edge: there is no undirected cycle. */
  lemma TreeAcyclic(adj: SetAdj, par: map<string, string>, depth: map<string, nat>)
    requires Tree(adj, adj.Keys, adj.Keys, par, depth)
    ensures !HasUndirectedCycle(adj)
  {
    assert forall u :: u in adj ==> u !in adj[u];
    forall p | Walk(adj, p) && |p| >= 3 && p[|p| - 1] in adj && p[0] in adj[p[|p| - 1]]
      ensures !Distinct(p)
    {
      TreeWalkRepeats(adj, par, depth, p);
    }
  }

  /** The state a call of the undirected `dfs(v, parent)` starts from:
      `v` unmarked, the open calls form a path ending at `parent`, and the
      tree so far covers the marked nodes. */
  ghost predicate VisitPre(adj: SetAdj, v: string, parent: Option<string>, visited: set<string>,
                           stack: seq<string>, par: map<string, string>, depth: map<string, nat>) {
    && Symmetric(adj) && v in adj && v !in visited
    && Walk(adj, stack + [v]) && Distinct(stack + [v]) && Elements(stack) <= visited
    && parent == (if stack == [] then None else Some(stack[|stack| - 1]))
    && Tree(adj, visited, visited - Elements(stack), par, depth)
  }

  /** The undirected `dfs(v, parent)` of `_has_cycle`: mark `v`, search the
      unmarked neighbours with `v` as their parent, and report a cycle on
      meeting a marked neighbour other than the parent. `stack` lists the
      calls still open above this one, the last being `parent`. */
  method UndirectedVisit(adj: SetAdj, v: string, parent: Option<string>, visited: set<string>,
                         ghost stack: seq<string>, ghost par: map<string, string>, ghost depth: map<string, nat>)
    returns (found: bool, visited': set<string>, ghost par': map<string, string>, ghost depth': map<string, nat>)
    requires VisitPre(adj, v, parent, visited, stack, par, depth)
    ensures visited <= visited' <= adj.Keys
    ensures !found ==> Done(adj, v, parent, stack, visited, visited', par, par', depth, depth')
    ensures found ==> HasUndirectedCycle(adj)
    decreases adj.Keys - visited, 0
  {
    visited' := visited + {v};
    par', depth' := ScanStart(adj, v, parent, visited, stack, par, depth);
    var ns := adj[v];
    while ns != {}
      invariant Scan(adj, v, parent, stack, visited, visited', par, par', depth, depth', ns)
      decreases ns
    {
      var n :| n in ns;
      found, visited', par', depth' := UndirectedNeighbor(adj, v, n, parent, stack, visited, visited', par, par', depth, depth', ns);
      if found {
        return;
      }
      ns := ns - {n};
    }
    ScanDone(adj, v, parent, stack, visited, visited', par, par', depth, depth');
    found := false;
  }

  /** The call at `v`, started from `visited0`, `par0` and `depth0`, has
      returned without finding a cycle: `v` and every node it reached are
      finished, and the tree below `v` is new. */
  ghost predicate Done(adj: SetAdj, v: string, parent: Option<string>, stack: seq<string>,
                       visited0: set<string>, visited: set<string>, par0: map<string, string>, par: map<string, string>,
                       depth0: map<string, nat>, depth: map<string, nat>) {
    && v in visited && visited0 <= visited <= adj.Keys
    && Tree(adj, visited, visited - Elements(stack), par, depth)
    && Grows(par0, par, depth0, depth) && NewUnder(v, visited0, visited, par0, par)
    && ParentOf(v, parent, par)
  }

  /** The neighbour loop of the call at `v`, which started from `visited0`,
      `par0` and `depth0`, with the neighbours `ns` still to go. */
  ghost predicate Scan(adj: SetAdj, v: string, parent: Option<string>, stack: seq<string>,
                       visited0: set<string>, visited: set<string>, par0: map<string, string>, par: map<string, string>,
                       depth0: map<string, nat>, depth: map<string, nat>, ns: set<string>) {
    && VisitPre(adj, v, parent, visited0, stack, par0, depth0)
    && visited0 + {v} <= visited <= adj.Keys && ns <= adj[v]
    && Tree(adj, visited, visited - (Elements(stack) + {v}), par, depth)
    && Grows(par0, par, depth0, depth) && NewUnder(v, visited0, visited, par0, par)
    && ParentOf(v, parent, par)
    && (forall x :: x in par && par[x] == v ==> x in adj[v] - ns)
    && (forall w :: w in adj[v] - ns ==> Linked(par, v, w))
  }

  /** One turn of the neighbour loop of the undirected `dfs(v, parent)`,
      taking the neighbour `n` out of `ns`. */
  method UndirectedNeighbor(adj: SetAdj, v: string, n: string, parent: Option<string>, ghost stack: seq<string>,
                            ghost visited0: set<string>, visited: set<string>,
                            ghost par0: map<string, string>, ghost par: map<string, string>,
                            ghost depth0: map<string, nat>, ghost depth: map<string, nat>, ghost ns: set<string>)
    returns (found: bool, visited': set<string>, ghost par': map<string, string>, ghost depth': map<string, nat>)
    requires Scan(adj, v, parent, stack, visited0, visited, par0, par, depth0, depth, ns) && n in ns
    ensures visited <= visited' <= adj.Keys
    ensures !found ==> Scan(adj, v, parent, stack, visited0, visited', par0, par', depth0, depth', ns - {n})
    ensures found ==> HasUndirectedCycle(adj)
    decreases adj.Keys - visited, 1
  {
    if n !in visited {
      ChildCall(adj, v, n, parent, stack, visited0, visited, par0, par, depth0, depth, ns);
      found, visited', par', depth' := UndirectedVisit(adj, n, Some(v), visited, stack + [v], par, depth);
      if !found {
        ChildStep(adj, v, n, parent, stack, visited0, visited, visited', par0, par, par', depth0, depth, depth', ns);
      }
    } else if Some(n) != parent {
      MarkedNeighbourCycle(adj, v, n, parent, stack, visited0, visited, par0, par, depth0, depth, ns);
      visited', par', depth' := visited, par, depth;
      found := true;
    } else {
      ParentSkip(adj, v, n, parent, stack, visited0, visited, par0, par, depth0, depth, ns);
      visited', par', depth' := visited, par, depth;
      found := false;
    }
  }

  /** The loop at `v` starts with `v` marked and entered in the tree. */
  lemma ScanStart(adj: SetAdj, v: string, parent: Option<string>, visited: set<string>,
                  stack: seq<string>, par: map<string, string>, depth: map<string, nat>)
    returns (par': map<string, string>, depth': map<string, nat>)
    requires VisitPre(adj, v, parent, visited, stack, par, depth)
    ensures Scan(adj, v, parent, stack, visited, visited + {v}, par, par', depth, depth', adj[v])
  {
    par', depth' := Enter(adj, v, parent, visited, stack, par, depth);
  }

  /** With no neighbour left the call at `v` is finished. */
  lemma ScanDone(adj: SetAdj, v: string, parent: Option<string>, stack: seq<string>,
                 visited0: set<string>, visited: set<string>, par0: map<string, string>, par: map<string, string>,
                 depth0: map<string, nat>, depth: map<string, nat>)
    requires Scan(adj, v, parent, stack, visited0, visited, par0, par, depth0, depth, {})
    ensures Done(adj, v, parent, stack, visited0, visited, par0, par, depth0, depth)
  {
  }

  /** The parent of `v` among its neighbours is already a tree edge. */
  lemma ParentSkip(adj: SetAdj, v: string, n: string, parent: Option<string>, stack: seq<string>,
                   visited0: set<string>, visited: set<string>, par0: map<string, string>, par: map<string, string>,
                   depth0: map<string, nat>, depth: map<string, nat>, ns: set<string>)
    requires Scan(adj, v, parent, stack, visited0, visited, par0, par, depth0, depth, ns) && n in ns
    requires Some(n) == parent
    ensures Scan(adj, v, parent, stack, visited0, visited, par0, par, depth0, depth, ns - {n})
  {
  }

  /** The entry of the undirected `dfs(v, parent)`: `v` joins the tree
      below its parent, or as a new root. */
  lemma Enter(adj: SetAdj, v: string, parent: Option<string>, visited: set<string>,
              stack: seq<string>, par: map<string, string>, depth: map<string, nat>)
    returns (par': map<string, string>, depth': map<string, nat>)
    requires Symmetric(adj) && v in adj && v !in visited && Elements(stack) <= visited
    requires parent == if stack == [] then None else Some(stack[|stack| - 1])
    requires Tree(adj, visited, visited - Elements(stack), par, depth)
    ensures Tree(adj, visited + {v}, visited + {v} - (Elements(stack) + {v}), par', depth')
    ensures Grows(par, par', depth, depth') && NewUnder(v, visited, visited + {v}, par, par')
    ensures ParentOf(v, parent, par')
    ensures forall x :: x in par' && par'[x] == v ==> false
  {
    var finished := visited - Elements(stack);
    if parent.Some? {
      assert stack[|stack| - 1] in Elements(stack);
      par', depth' := par[v := parent.value], depth[v := depth[parent.value] + 1];
    } else {
      par', depth' := par, depth[v := 0];
    }
    TreeAdd(adj, visited, finished, par, depth, v, par', depth');
    assert visited + {v} - (Elements(stack) + {v}) == finished;
  }

  /** A new node, a root or the child of a marked node, keeps the tree a tree. */
  lemma TreeAdd(adj: SetAdj, visited: set<string>, finished: set<string>,
                par: map<string, string>, depth: map<string, nat>,
                v: string, par': map<string, string>, depth': map<string, nat>)
    requires Tree(adj, visited, finished, par, depth) && v in adj && v !in visited
    requires || (par' == par && depth' == depth[v := 0])
             || exists p :: p in visited && par' == par[v := p] && depth' == depth[v := depth[p] + 1]
    ensures Tree(adj, visited + {v}, finished, par', depth')
  {
    forall x, y | x in finished && y in adj[x] ensures Linked(par', x, y) {
      assert Linked(par, x, y);
    }
  }

  /** What the search from the unmarked neighbour `n` of `v` needs. */
  lemma ChildCall(adj: SetAdj, v: string, n: string, parent: Option<string>, stack: seq<string>,
                  visited0: set<string>, visited: set<string>, par0: map<string, string>, par: map<string, string>,
                  depth0: map<string, nat>, depth: map<string, nat>, ns: set<string>)
    requires Scan(adj, v, parent, stack, visited0, visited, par0, par, depth0, depth, ns) && n in ns && n !in visited
    ensures VisitPre(adj, n, Some(v), visited, stack + [v], par, depth)
  {
    ChildPre(adj, v, n, stack, visited, par, depth);
  }

  lemma ChildPre(adj: SetAdj, v: string, n: string, stack: seq<string>, visited: set<string>,
                 par: map<string, string>, depth: map<string, nat>)
    requires Symmetric(adj) && v in adj && n in adj[v] && n !in visited && v in visited
    requires Walk(adj, stack + [v]) && Distinct(stack + [v]) && Elements(stack) <= visited
    requires Tree(adj, visited, visited - (Elements(stack) + {v}), par, depth)
    ensures VisitPre(adj, n, Some(v), visited, stack + [v], par, depth)
  {
    ElementsAppend(stack, [v]);
    PathExtend(adj, stack + [v], n, visited);
  }

  /** The open calls, extended by an unmarked neighbour of the last, are
      still a path. */
  lemma PathExtend(adj: SetAdj, s: seq<string>, n: string, visited: set<string>)
    requires Walk(adj, s) && Distinct(s) && Elements(s) <= visited
    requires s[|s| - 1] in adj && n in adj[s[|s| - 1]] && n !in visited
    ensures Walk(adj, s + [n]) && Distinct(s + [n])
  {
    assert forall i :: 0 <= i < |s| ==> s[i] in Elements(s);
  }

  /** After the search from the child `n` returns: the loop's bookkeeping at `v`. */
  lemma ChildStep(adj: SetAdj, v: string, n: string, parent: Option<string>, stack: seq<string>,
                  visited0: set<string>, visited: set<string>, visited': set<string>,
                  par0: map<string, string>, par: map<string, string>, par': map<string, string>,
                  depth0: map<string, nat>, depth: map<string, nat>, depth': map<string, nat>, ns: set<string>)
    requires Scan(adj, v, parent, stack, visited0, visited, par0, par, depth0, depth, ns) && n in ns && n !in visited
    requires Done(adj, n, Some(v), stack + [v], visited, visited', par, par', depth, depth')
    ensures Scan(adj, v, parent, stack, visited0, visited', par0, par', depth0, depth', ns - {n})
  {
    ElementsAppend(stack, [v]);
    ChildLinks(adj, v, n, parent, visited0, visited, visited', par0, par, par', depth0, depth, depth', ns);
  }

  /** The parent links after the child `n` of `v` is finished. */
  lemma ChildLinks(adj: SetAdj, v: string, n: string, parent: Option<string>,
                   visited0: set<string>, visited: set<string>, visited': set<string>,
                   par0: map<string, string>, par: map<string, string>, par': map<string, string>,
                   depth0: map<string, nat>, depth: map<string, nat>, depth': map<string, nat>, ns: set<string>)
    requires v in adj && n in ns && ns <= adj[v] && n !in visited && v in visited && v !in visited0
    requires visited0 <= visited <= visited'
    requires Grows(par0, par, depth0, depth) && NewUnder(v, visited0, visited, par0, par)
    requires ParentOf(v, parent, par)
    requires forall x :: x in par && par[x] == v ==> x in adj[v] - ns
    requires forall w :: w in adj[v] - ns ==> Linked(par, v, w)
    requires Grows(par, par', depth, depth') && NewUnder(n, visited, visited', par, par')
    requires ParentOf(n, Some(v), par')
    ensures Grows(par0, par', depth0, depth') && NewUnder(v, visited0, visited', par0, par')
    ensures ParentOf(v, parent, par')
    ensures forall x :: x in par' && par'[x] == v ==> x in adj[v] - (ns - {n})
    ensures forall w :: w in adj[v] - (ns - {n}) ==> Linked(par', v, w)
  {
    forall w | w in adj[v] - (ns - {n}) ensures Linked(par', v, w) {
      if w != n {
        assert Linked(par, v, w);
      }
    }
  }

  /** A marked neighbour `n` of `v` that is not its parent closes a cycle: a
      self-loop, or the open calls from `n` down to `v`; a finished `n` would
      be a child of `v` already searched. */
  lemma MarkedNeighbourCycle(adj: SetAdj, v: string, n: string, parent: Option<string>, stack: seq<string>,
                             visited0: set<string>, visited: set<string>, par0: map<string, string>, par: map<string, string>,
                             depth0: map<string, nat>, depth: map<string, nat>, ns: set<string>)
    requires Scan(adj, v, parent, stack, visited0, visited, par0, par, depth0, depth, ns) && n in ns
    requires n in visited && Some(n) != parent
    ensures HasUndirectedCycle(adj)
  {
    MarkedCycle(adj, v, n, parent, stack, visited, par, depth, ns);
  }

  lemma MarkedCycle(adj: SetAdj, v: string, n: string, parent: Option<string>, stack: seq<string>,
                    visited: set<string>, par: map<string, string>, depth: map<string, nat>, ns: set<string>)
    requires Symmetric(adj) && v in adj && n in adj[v] && n in visited && Some(n) != parent
    requires Walk(adj, stack + [v]) && Distinct(stack + [v])
    requires parent == if stack == [] then None else Some(stack[|stack| - 1])
    requires Tree(adj, visited, visited - (Elements(stack) + {v}), par, depth)
    requires ParentOf(v, parent, par)
    requires n in ns && forall x :: x in par && par[x] == v ==> x in adj[v] - ns
    ensures HasUndirectedCycle(adj)
  {
    ghost var open := Elements(stack) + {v};
    assert n in open by {
      assert v in adj[n];
    }
    if n == v {
      assert v in adj && v in adj[v];
    } else {
      var s := stack + [v];
      var i :| 0 <= i < |stack| && stack[i] == n;
      assert i < |stack| - 1;
      var c := s[i..];
      assert |c| >= 3 && c[0] == n && c[|c| - 1] == v;
      assert Walk(adj, c) && Distinct(c);
    }
  }

  /** `_has_cycle(False, visited)` from an empty `visited`, on a symmetric
      adjacency: true exactly when the graph has a self-loop or a cycle
      through three or more nodes. */
  method UndirectedHasCycle(adj: SetAdj, keys: seq<string>) returns (cyclic: bool)
    requires Symmetric(adj) && forall k :: k in keys <==> k in adj
    ensures cyclic <==> HasUndirectedCycle(adj)
  {
    var visited: set<string> := {};
    ghost var par: map<string, string> := map[];
    ghost var depth: map<string, nat> := map[];
    for i := 0 to |keys|
      invariant Tree(adj, visited, visited, par, depth)
      invariant forall j :: 0 <= j < i ==> keys[j] in visited
    {
      if keys[i] !in visited {
        var found;
        RootCall(adj, keys[i], visited, par, depth);
        found, visited, par, depth := UndirectedVisit(adj, keys[i], None, visited, [], par, depth);
        if found {
          return true;
        }
        assert Elements([]) == {};
      }
    }
    assert visited == adj.Keys;
    TreeAcyclic(adj, par, depth);
    return false;
  }

  /** A search started from the top level has no open calls above it. */
  lemma RootCall(adj: SetAdj, v: string, visited: set<string>, par: map<string, string>, depth: map<string, nat>)
    requires Symmetric(adj) && v in adj && v !in visited && Tree(adj, visited, visited, par, depth)
    ensures VisitPre(adj, v, None, visited, [], par, depth)
  {
    assert [] + [v] == [v] && Elements([]) == {};
  }
}
