/** utils.py: iterative reachability and simple-path enumeration over an
    adjacency that maps each vertex name to its neighbours in iteration order. */
module Dfs {

  /** A name-keyed adjacency; each list is the order in which Python iterates
      the neighbour collection. */
  type Adj = map<string, seq<string>>

  /** Every neighbour is itself a key, as for the adjacencies built from a
      well-formed graph; `adj[n]` never fails. */
  predicate Closed(adj: Adj) {
    forall u, n :: u in adj && n in adj[u] ==> n in adj
  }

  /** `p` is a walk along the adjacency. */
  ghost predicate IsPath(adj: Adj, p: seq<string>) {
    |p| > 0 && forall i :: 0 <= i < |p| - 1 ==> p[i] in adj && p[i + 1] in adj[p[i]]
  }

  ghost predicate Avoids(p: seq<string>, avoid: set<string>) {
    forall i :: 0 <= i < |p| ==> p[i] !in avoid
  }

  /** `n` can be reached from `s` by a walk none of whose nodes is in `avoid`. */
  ghost predicate ReachableAvoiding(adj: Adj, avoid: set<string>, s: string, n: string) {
    exists p :: IsPath(adj, p) && Avoids(p, avoid) && p[0] == s && p[|p| - 1] == n
  }

  lemma ReachStep(adj: Adj, avoid: set<string>, s: string, x: string, y: string)
    requires ReachableAvoiding(adj, avoid, s, x)
    requires x in adj && y in adj[x] && y !in avoid
    ensures ReachableAvoiding(adj, avoid, s, y)
  {
    var p :| IsPath(adj, p) && Avoids(p, avoid) && p[0] == s && p[|p| - 1] == x;
    var q := p + [y];
    assert IsPath(adj, q) && Avoids(q, avoid) && q[0] == s && q[|q| - 1] == y;
  }

  /** A set that holds the first node of a walk avoiding `avoid` and is closed
      under the neighbours of its members outside `avoid` holds the whole walk. */
  lemma {:induction false} ClosedSetHoldsWalk(adj: Adj, avoid: set<string>, vis: set<string>, p: seq<string>)
    requires IsPath(adj, p) && Avoids(p, avoid) && p[0] in vis
    requires forall x, y :: x in vis && x !in avoid && x in adj && y in adj[x] ==> y in vis
    ensures p[|p| - 1] in vis
    decreases |p|
  {
    if |p| > 1 {
      var q := p[..|p| - 1];
      assert IsPath(adj, q) && Avoids(q, avoid);
      ClosedSetHoldsWalk(adj, avoid, vis, q);
      assert p[|p| - 2] in vis && p[|p| - 1] in adj[p[|p| - 2]];
    }
  }

  /** The neighbours in `ns` that are not in `vis`, in order. */
  function Unvisited(ns: seq<string>, vis: set<string>): (r: seq<string>)
    ensures forall y :: y in r <==> y in ns && y !in vis
  {
    if ns == [] then []
    else (if ns[0] in vis then [] else [ns[0]]) + Unvisited(ns[1..], vis)
  }

  /** `dfs_stack(adj, start, visited)`: the visited set ends as the old one plus
      every node reachable from `start` along walks that avoid the nodes
      visited beforehand. */
  method DfsStack(adj: Adj, start: string, visited: set<string>) returns (result: set<string>)
    requires Closed(adj) && (start in adj || start in visited)
    ensures visited <= result
    ensures forall n :: n in result <==> n in visited || ReachableAvoiding(adj, visited, start, n)
  {
    var stack := [start];
    result := visited;
    while stack != []
      invariant visited <= result
      invariant forall x :: x in stack ==> x in adj || x in visited
      invariant forall x :: x in stack && x !in visited ==> ReachableAvoiding(adj, visited, start, x)
      invariant forall x :: x in result && x !in visited ==> ReachableAvoiding(adj, visited, start, x)
      invariant start in result || start in stack
      invariant forall x, y :: x in result && x !in visited && x in adj && y in adj[x] ==> y in result || y in stack
      decreases adj.Keys - result, |stack|
    {
      var node := stack[|stack| - 1];
      stack := stack[..|stack| - 1];
      if node in result {
        continue;
      }
      forall y | y in adj[node] && y !in visited
        ensures ReachableAvoiding(adj, visited, start, y)
      {
        ReachStep(adj, visited, start, node, y);
      }
      result := result + {node};
      stack := stack + Unvisited(adj[node], result);
    }
    forall n | ReachableAvoiding(adj, visited, start, n)
      ensures n in result
    {
      var p :| IsPath(adj, p) && Avoids(p, visited) && p[0] == start && p[|p| - 1] == n;
      ClosedSetHoldsWalk(adj, visited, result, p);
    }
  }

  /** `r` extends `path` by a simple walk through nodes outside `visited`: the
      new nodes are pairwise distinct and each follows its predecessor in the
      adjacency. */
  ghost predicate SimpleExtension(adj: Adj, path: seq<string>, visited: set<string>, r: seq<string>)
    requires |path| > 0
  {
    && |r| >= |path| && r[..|path|] == path
    && (forall i, j :: |path| <= i < j < |r| ==> r[i] != r[j])
    && (forall i :: |path| <= i < |r| ==> r[i] !in visited)
    && (forall i :: |path| - 1 <= i < |r| - 1 ==> r[i] in adj && r[i + 1] in adj[r[i]])
  }

  /** `dfs_paths_backtrack(adj, path, visited, on_path_found)`: the paths handed
      to `on_path_found`, in order: `path` itself, then for each unvisited
      neighbour of its last node, every path reported from the extended path. */
  function Backtrack(adj: Adj, path: seq<string>, visited: set<string>): seq<seq<string>>
    requires Closed(adj) && |path| > 0 && path[|path| - 1] in adj
    decreases adj.Keys - visited, 1, 0
  {
    [path] + BacktrackEach(adj, path, visited, adj[path[|path| - 1]])
  }

  /** The loop over the neighbours `ns` still to be tried. */
  function BacktrackEach(adj: Adj, path: seq<string>, visited: set<string>, ns: seq<string>): seq<seq<string>>
    requires Closed(adj) && |path| > 0 && forall n :: n in ns ==> n in adj
    decreases adj.Keys - visited, 0, |ns|
  {
    if ns == [] then []
    else
      var n := ns[0];
      (if n !in visited then Backtrack(adj, path + [n], visited + {n}) else [])
      + BacktrackEach(adj, path, visited, ns[1..])
  }

  /** Every reported path is a simple extension of the initial one. */
  lemma {:induction false} BacktrackSound(adj: Adj, path: seq<string>, visited: set<string>)
    requires Closed(adj) && |path| > 0 && path[|path| - 1] in adj
    ensures forall r :: r in Backtrack(adj, path, visited) ==> SimpleExtension(adj, path, visited, r)
    decreases adj.Keys - visited, 1, 0
  {
    BacktrackEachSound(adj, path, visited, adj[path[|path| - 1]]);
  }

  lemma {:induction false} BacktrackEachSound(adj: Adj, path: seq<string>, visited: set<string>, ns: seq<string>)
    requires Closed(adj) && |path| > 0 && path[|path| - 1] in adj
    requires forall n :: n in ns ==> n in adj && n in adj[path[|path| - 1]]
    ensures forall r :: r in BacktrackEach(adj, path, visited, ns) ==> SimpleExtension(adj, path, visited, r)
    decreases adj.Keys - visited, 0, |ns|
  {
    if ns != [] {
      var n := ns[0];
      BacktrackEachSound(adj, path, visited, ns[1..]);
      if n !in visited {
        var path' := path + [n];
        BacktrackSound(adj, path', visited + {n});
        forall r | r in Backtrack(adj, path', visited + {n})
          ensures SimpleExtension(adj, path, visited, r)
        {
          assert SimpleExtension(adj, path', visited + {n}, r);
          assert r[..|path|] == path'[..|path|] == path;
          assert r[|path|] == n;
        }
      }
    }
  }

  /** Every simple extension of the initial path is reported. */
  lemma {:induction false} BacktrackComplete(adj: Adj, path: seq<string>, visited: set<string>, r: seq<string>)
    requires Closed(adj) && |path| > 0 && path[|path| - 1] in adj
    requires SimpleExtension(adj, path, visited, r)
    ensures r in Backtrack(adj, path, visited)
    decreases |r| - |path|
  {
    if |r| == |path| {
      assert r == r[..|path|] == path;
    } else {
      var n := r[|path|];
      var path' := path + [n];
      assert path'[|path'| - 1] == n;
      assert n in adj[path[|path| - 1]] by {
        assert r[|path| - 1] == path[|path| - 1];
      }
      assert r[..|path'|] == path';
      assert SimpleExtension(adj, path', visited + {n}, r);
      BacktrackComplete(adj, path', visited + {n}, r);
      BacktrackEachHolds(adj, path, visited, adj[path[|path| - 1]], n, r);
    }
  }

  /** The neighbour loop reports whatever the call for any unvisited neighbour in `ns` reports. */
  lemma {:induction false} BacktrackEachHolds(adj: Adj, path: seq<string>, visited: set<string>, ns: seq<string>, n: string, r: seq<string>)
    requires Closed(adj) && |path| > 0 && forall m :: m in ns ==> m in adj
    requires n in ns && n !in visited
    requires r in Backtrack(adj, path + [n], visited + {n})
    ensures r in BacktrackEach(adj, path, visited, ns)
    decreases |ns|
  {
    if ns[0] != n {
      BacktrackEachHolds(adj, path, visited, ns[1..], n, r);
    }
  }

  predicate NoRepeats<T(==)>(ns: seq<T>) {
    forall i, j :: 0 <= i < j < |ns| ==> ns[i] != ns[j]
  }

  /** When no neighbour list repeats a name (as with the set-valued adjacency),
      no path is reported twice. */
  lemma {:induction false} BacktrackOnce(adj: Adj, path: seq<string>, visited: set<string>)
    requires Closed(adj) && |path| > 0 && path[|path| - 1] in adj
    requires forall u :: u in adj ==> NoRepeats(adj[u])
    ensures NoRepeats(Backtrack(adj, path, visited))
    decreases adj.Keys - visited, 1, 0
  {
    var ns := adj[path[|path| - 1]];
    BacktrackEachOnce(adj, path, visited, ns);
    BacktrackEachSound(adj, path, visited, ns);
    var out := Backtrack(adj, path, visited);
    forall i, j | 0 <= i < j < |out|
      ensures out[i] != out[j]
    {
      if i == 0 {
        assert SimpleExtension(adj, path, visited, out[j]) by {
          assert out[j] in BacktrackEach(adj, path, visited, ns);
        }
        assert |out[j]| > |path| by {
          BacktrackEachLonger(adj, path, visited, ns);
          assert out[j] in BacktrackEach(adj, path, visited, ns);
        }
      }
    }
  }

  /** Paths reported from the neighbour loop are longer than the initial path
      and their next node is one of the neighbours in `ns`. */
  lemma {:induction false} BacktrackEachLonger(adj: Adj, path: seq<string>, visited: set<string>, ns: seq<string>)
    requires Closed(adj) && |path| > 0 && forall m :: m in ns ==> m in adj
    ensures forall r :: r in BacktrackEach(adj, path, visited, ns) ==>
      |r| > |path| && r[..|path|] == path && r[|path|] in ns && r[|path|] !in visited
    decreases |ns|
  {
    if ns != [] {
      var n := ns[0];
      BacktrackEachLonger(adj, path, visited, ns[1..]);
      if n !in visited {
        var path' := path + [n];
        assert path'[|path'| - 1] == n;
        BacktrackPrefix(adj, path', visited + {n});
        forall r | r in Backtrack(adj, path', visited + {n})
          ensures |r| > |path| && r[..|path|] == path && r[|path|] in ns && r[|path|] !in visited
        {
          assert r[..|path'|] == path';
          assert r[..|path|] == path'[..|path|] == path;
          assert r[|path|] == path'[|path|] == n;
        }
      }
    }
  }

  /** Every reported path starts with the initial path. */
  lemma BacktrackPrefix(adj: Adj, path: seq<string>, visited: set<string>)
    requires Closed(adj) && |path| > 0 && path[|path| - 1] in adj
    ensures forall r :: r in Backtrack(adj, path, visited) ==> |r| >= |path| && r[..|path|] == path
  {
    BacktrackSound(adj, path, visited);
  }

  lemma {:induction false} BacktrackEachOnce(adj: Adj, path: seq<string>, visited: set<string>, ns: seq<string>)
    requires Closed(adj) && |path| > 0 && forall m :: m in ns ==> m in adj
    requires NoRepeats(ns)
    requires forall u :: u in adj ==> NoRepeats(adj[u])
    ensures NoRepeats(BacktrackEach(adj, path, visited, ns))
    decreases adj.Keys - visited, 0, |ns|
  {
    if ns != [] {
      var n := ns[0];
      var tail := ns[1..];
      assert NoRepeats(tail);
      BacktrackEachOnce(adj, path, visited, tail);
      if n !in visited {
        var path' := path + [n];
        assert path'[|path'| - 1] == n;
        BacktrackOnce(adj, path', visited + {n});
        BacktrackPrefix(adj, path', visited + {n});
        BacktrackEachLonger(adj, path, visited, tail);
        var head := Backtrack(adj, path', visited + {n});
        var rest := BacktrackEach(adj, path, visited, tail);
        forall i, j | 0 <= i < |head| && 0 <= j < |rest|
          ensures head[i] != rest[j]
        {
          assert head[i][..|path'|] == path';
          assert head[i][|path|] == n;
          assert rest[j][|path|] in tail;
        }
        NoRepeatsAppend(head, rest);
      }
    }
  }

  lemma NoRepeatsAppend(a: seq<seq<string>>, b: seq<seq<string>>)
    requires NoRepeats(a) && NoRepeats(b)
    requires forall i, j :: 0 <= i < |a| && 0 <= j < |b| ==> a[i] != b[j]
    ensures NoRepeats(a + b)
  {
    var out := a + b;
    forall i, j | 0 <= i < j < |out|
      ensures out[i] != out[j]
    {
      if j < |a| {
        assert out[i] == a[i] && out[j] == a[j];
      } else if i >= |a| {
        assert out[i] == b[i - |a|] && out[j] == b[j - |a|];
      } else {
        assert out[i] == a[i] && out[j] == b[j - |a|];
      }
    }
  }
}
