/** `_strongly_connected_components` of diagnostics.py: Kosaraju's two
    passes. The first search lists the nodes in the order their calls
    return; the second searches the reverse adjacency from the latest
    unmarked node and counts the searches. The count is the number of
    strongly connected components, whatever order the sets and the
    dictionary are walked in. */
module StrongComponents {
  import opened Common
  import opened Diagnostics

  /** `a` and `b` reach each other. */
  ghost predicate Mutual(adj: SetAdj, a: string, b: string) {
    Reach(adj, a, b) && Reach(adj, b, a)
  }

  /** The strongly connected component of `u`. */
  ghost function Scc(adj: SetAdj, u: string): set<string> {
    set w | w in adj && Mutual(adj, u, w)
  }

  /** The number of strongly connected components. */
  ghost function SccCount(adj: SetAdj): nat {
    |set u | u in adj :: Scc(adj, u)|
  }

  /** The walk `p` read backwards. */
  ghost function Reversed(p: seq<string>): seq<string> {
    seq(|p|, i requires 0 <= i < |p| => p[|p| - 1 - i])
  }

  lemma WalkSlice(adj: SetAdj, p: seq<string>, i: nat, j: nat)
    requires Walk(adj, p) && i <= j < |p|
    ensures Walk(adj, p[i..j + 1]) && Reach(adj, p[i], p[j])
  {
    var q := p[i..j + 1];
    assert forall k :: 0 <= k < |q| ==> q[k] == p[i + k];
    assert Walk(adj, q) && Outside(q, {}) && q[0] == p[i] && q[|q| - 1] == p[j];
  }

  lemma ReachTrans(adj: SetAdj, a: string, b: string, c: string)
    requires Reach(adj, a, b) && Reach(adj, b, c)
    ensures Reach(adj, a, c)
  {
    var p :| Walk(adj, p) && Outside(p, {}) && p[0] == a && p[|p| - 1] == b;
    var q :| Walk(adj, q) && Outside(q, {}) && q[0] == b && q[|q| - 1] == c;
    var r := p + q[1..];
    assert forall k :: 0 <= k < |r| - 1 ==> r[k] in adj && r[k + 1] in adj[r[k]] by {
      forall k | 0 <= k < |r| - 1 ensures r[k] in adj && r[k + 1] in adj[r[k]] {
        if k < |p| - 1 {
          assert r[k] == p[k] && r[k + 1] == p[k + 1];
        } else {
          assert r[k] == q[k - |p| + 1] && r[k + 1] == q[k - |p| + 2];
        }
      }
    }
    assert Walk(adj, r) && Outside(r, {}) && r[0] == a && r[|r| - 1] == c;
  }

  lemma MutualSelf(adj: SetAdj, a: string)
    ensures Mutual(adj, a, a)
  {
    ReachSelf(adj, {}, a);
  }

  lemma MutualTrans(adj: SetAdj, a: string, b: string, c: string)
    requires Mutual(adj, a, b) && Mutual(adj, b, c)
    ensures Mutual(adj, a, c)
  {
    ReachTrans(adj, a, b, c);
    ReachTrans(adj, c, b, a);
  }

  /** Nodes that reach each other have the same component. */
  lemma SccEqual(adj: SetAdj, a: string, b: string)
    requires Mutual(adj, a, b)
    ensures Scc(adj, a) == Scc(adj, b)
  {
    forall w | w in adj && Mutual(adj, a, w) ensures Mutual(adj, b, w) {
      MutualTrans(adj, b, a, w);
    }
    forall w | w in adj && Mutual(adj, b, w) ensures Mutual(adj, a, w) {
      MutualTrans(adj, a, b, w);
    }
  }

  /** A walk along `adj` is, read backwards, a walk along its transpose. */
  lemma ReverseWalk(adj: SetAdj, rev: SetAdj, p: seq<string>)
    requires SetClosed(adj) && Transposed(adj, rev) && Walk(adj, p) && p[0] in adj
    ensures Walk(rev, Reversed(p)) && Reversed(p)[0] == p[|p| - 1] && Reversed(p)[|p| - 1] == p[0]
    ensures forall k :: 0 <= k < |p| ==> Reversed(p)[k] in Elements(p)
  {
    var q := Reversed(p);
    var L := |p|;
    forall k | 0 <= k < L - 1 ensures q[k] in rev && q[k + 1] in rev[q[k]] {
      var m := L - 2 - k;
      assert q[k] == p[m + 1] && q[k + 1] == p[m];
      assert p[m] in adj && p[m + 1] in adj[p[m]];
    }
    forall k | 0 <= k < L ensures q[k] in Elements(p) {
      assert q[k] == p[L - 1 - k];
    }
  }

  lemma TransposedSym(adj: SetAdj, rev: SetAdj)
    requires Transposed(adj, rev)
    ensures Transposed(rev, adj)
  {
  }

  /** What the transpose reaches from `a`, reaches `a` along `adj`. */
  lemma RevReach(adj: SetAdj, rev: SetAdj, a: string, b: string)
    requires SetClosed(rev) && Transposed(adj, rev) && a in rev && Reach(rev, a, b)
    ensures Reach(adj, b, a)
  {
    var p :| Walk(rev, p) && Outside(p, {}) && p[0] == a && p[|p| - 1] == b;
    TransposedSym(adj, rev);
    ReverseWalk(rev, adj, p);
    var q := Reversed(p);
    assert Outside(q, {});
  }

  // ---------------------------------------------------------------------
  // The first pass, `dfs1`.

  /** Every arrow out of a node whose call has returned ends at a marked node. */
  ghost predicate FinishedClosed(adj: SetAdj, visited: set<string>, order: seq<string>) {
    forall x, w :: x in order && x in adj && w in adj[x] ==> w in visited
  }

  /** What the finished node `x` reaches, `y`, either finished no later than
      some node of `x`'s component, or shares `x`'s component with a call
      still open. */
  ghost predicate Late(adj: SetAdj, order: seq<string>, stack: seq<string>, x: string, y: string) {
    || (exists i, j :: 0 <= j <= i < |order| && order[j] == y && Mutual(adj, x, order[i]))
    || (exists k :: 0 <= k < |stack| && Mutual(adj, x, stack[k]))
  }

  /** The finish order so far, with the calls `stack` still open. */
  ghost predicate Ordered(adj: SetAdj, order: seq<string>, stack: seq<string>) {
    forall x, y :: x in order && Reach(adj, x, y) ==> Late(adj, order, stack, x, y)
  }

  /** The state of the first pass between calls: `order` lists the marked
      nodes whose calls have returned, each once. */
  ghost predicate PassOne(adj: SetAdj, visited: set<string>, order: seq<string>, stack: seq<string>) {
    && visited <= adj.Keys && Elements(stack) <= visited
    && Elements(order) == visited - Elements(stack) && Distinct(order)
    && FinishedClosed(adj, visited, order) && Ordered(adj, order, stack)
  }

  /** `dfs1(v)`: mark `v`, search every unmarked neighbour, then append `v`
      to `order`. `stack` lists the calls open above this one. */
  method FinishVisit(adj: SetAdj, v: string, visited: set<string>, order: seq<string>, ghost stack: seq<string>)
    returns (visited': set<string>, order': seq<string>)
    requires SetClosed(adj) && v in adj && v !in visited && Walk(adj, stack + [v])
    requires PassOne(adj, visited, order, stack)
    ensures visited + {v} <= visited' && order <= order'
    ensures PassOne(adj, visited', order', stack)
    decreases adj.Keys - visited
  {
    visited', order' := visited + {v}, order;
    PushCall(adj, visited, order, stack, v);
    var ns := adj[v];
    while ns != {}
      invariant visited + {v} <= visited' && order <= order' && ns <= adj[v]
      invariant PassOne(adj, visited', order', stack + [v])
      invariant forall w :: w in adj[v] - ns ==> w in visited'
      decreases ns
    {
      var n :| n in ns;
      ns := ns - {n};
      if n !in visited' {
        WalkExtend(adj, stack + [v], n);
        visited', order' := FinishVisit(adj, n, visited', order', stack + [v]);
      }
    }
    PopCall(adj, visited', order', stack, v);
    order' := order' + [v];
  }

  lemma WalkExtend(adj: SetAdj, s: seq<string>, n: string)
    requires Walk(adj, s) && s[|s| - 1] in adj && n in adj[s[|s| - 1]]
    ensures Walk(adj, s + [n])
  {
  }

  /** Opening the call at `v` keeps the first pass's state. */
  lemma PushCall(adj: SetAdj, visited: set<string>, order: seq<string>, stack: seq<string>, v: string)
    requires PassOne(adj, visited, order, stack) && v in adj && v !in visited
    ensures PassOne(adj, visited + {v}, order, stack + [v])
  {
    ElementsAppend(stack, [v]);
    forall x, y | x in order && Reach(adj, x, y) ensures Late(adj, order, stack + [v], x, y) {
      assert Late(adj, order, stack, x, y);
      if exists k :: 0 <= k < |stack| && Mutual(adj, x, stack[k]) {
        var k :| 0 <= k < |stack| && Mutual(adj, x, stack[k]);
        assert (stack + [v])[k] == stack[k];
      }
    }
  }

  /** A walk out of `done`, whose arrows lead only into `done` or `open`,
      ends in `done` or passes through `open`. */
  lemma {:induction false} Escape(adj: SetAdj, done: set<string>, open: set<string>, p: seq<string>)
    requires Walk(adj, p) && p[0] in done
    requires forall z, w :: z in done && z in adj && w in adj[z] ==> w in done + open
    ensures p[|p| - 1] in done || exists k :: 0 <= k < |p| && p[k] in open
    decreases |p|
  {
    if |p| > 1 {
      var q := p[..|p| - 1];
      assert Walk(adj, q);
      Escape(adj, done, open, q);
      if q[|q| - 1] in done {
        assert q[|q| - 1] == p[|p| - 2] && p[|p| - 2] in adj && p[|p| - 1] in adj[p[|p| - 2]];
        var z, w := p[|p| - 2], p[|p| - 1];
        assert z in done && z in adj && w in adj[z];
        assert w in done + open;
      } else {
        var k :| 0 <= k < |q| && q[k] in open;
        assert p[k] == q[k];
      }
    }
  }

  /** When the call at `v` returns, whatever `v` reaches has finished or is
      reached through a call still open. */
  lemma ReachOnReturn(adj: SetAdj, order: seq<string>, stack: seq<string>, v: string, y: string)
    requires SetClosed(adj) && v in order && Reach(adj, v, y)
    requires forall z, w :: z in order && z in adj && w in adj[z] ==> w in Elements(order) + Elements(stack)
    ensures y in order || exists k :: 0 <= k < |stack| && Reach(adj, v, stack[k])
  {
    var p :| Walk(adj, p) && Outside(p, {}) && p[0] == v && p[|p| - 1] == y;
    Escape(adj, Elements(order), Elements(stack), p);
    if p[|p| - 1] !in Elements(order) {
      var k :| 0 <= k < |p| && p[k] in Elements(stack);
      WalkSlice(adj, p, 0, k);
      var m :| 0 <= m < |stack| && stack[m] == p[k];
      assert Reach(adj, v, stack[m]);
    }
  }

  /** Closing the call at `v`: `v` joins the finish order. */
  lemma PopCall(adj: SetAdj, visited: set<string>, order: seq<string>, stack: seq<string>, v: string)
    requires SetClosed(adj) && v in adj && v !in Elements(stack) && Walk(adj, stack + [v])
    requires PassOne(adj, visited, order, stack + [v])
    requires forall w :: w in adj[v] ==> w in visited
    ensures PassOne(adj, visited, order + [v], stack)
  {
    ElementsAppend(stack, [v]);
    ElementsAppend(order, [v]);
    var order' := order + [v];
    var last := |order|;
    assert order'[last] == v;
    forall z, w | z in order' && z in adj && w in adj[z] ensures w in Elements(order') + Elements(stack) {
      if z != v {
        assert z in order;
      }
    }
    forall x, y | x in order' && Reach(adj, x, y) ensures Late(adj, order', stack, x, y) {
      // Whatever `v` reaches has finished, or lies on a path back into
      // the open calls, which all reach `v`.
      assert (Reach(adj, x, v) && Reach(adj, v, x)) ==> Late(adj, order', stack, x, y) by {
        if Reach(adj, x, v) && Reach(adj, v, x) {
          ReachTrans(adj, v, x, y);
          ReachOnReturn(adj, order', stack, v, y);
          if y in order' {
            var j :| 0 <= j < |order'| && order'[j] == y;
            assert Mutual(adj, x, order'[last]);
          } else {
            var k :| 0 <= k < |stack| && Reach(adj, v, stack[k]);
            WalkSlice(adj, stack + [v], k, |stack|);
            assert (stack + [v])[k] == stack[k] && (stack + [v])[|stack|] == v;
            ReachTrans(adj, x, v, stack[k]);
            ReachTrans(adj, stack[k], v, x);
          }
        }
      }
      if x == v {
        MutualSelf(adj, v);
      } else {
        assert x in order;
        OldLate(adj, order, stack, v, x, y);
      }
    }
  }

  /** A finished node other than `v` keeps its witness, unless the witness
      was the call at `v` itself. */
  lemma OldLate(adj: SetAdj, order: seq<string>, stack: seq<string>, v: string, x: string, y: string)
    requires Late(adj, order, stack + [v], x, y)
    ensures Late(adj, order + [v], stack, x, y) || Mutual(adj, x, v)
  {
    var order' := order + [v];
    if exists i, j :: 0 <= j <= i < |order| && order[j] == y && Mutual(adj, x, order[i]) {
      var i, j :| 0 <= j <= i < |order| && order[j] == y && Mutual(adj, x, order[i]);
      assert order'[j] == order[j] && order'[i] == order[i];
    } else {
      var k :| 0 <= k < |stack| + 1 && Mutual(adj, x, (stack + [v])[k]);
      if k < |stack| {
        assert (stack + [v])[k] == stack[k];
      }
    }
  }

  /** The first loop of `_strongly_connected_components`: `dfs1` from every
      key not yet marked, in key order. */
  method FinishOrder(adj: SetAdj, keys: seq<string>) returns (order: seq<string>)
    requires SetClosed(adj) && forall k :: k in keys <==> k in adj
    ensures Elements(order) == adj.Keys && Distinct(order) && Ordered(adj, order, [])
  {
    var visited: set<string> := {};
    order := [];
    for i := 0 to |keys|
      invariant PassOne(adj, visited, order, [])
      invariant forall j :: 0 <= j < i ==> keys[j] in visited
    {
      if keys[i] !in visited {
        assert [] + [keys[i]] == [keys[i]];
        visited, order := FinishVisit(adj, keys[i], visited, order, []);
      }
    }
    assert visited == adj.Keys && Elements([]) == {};
  }

  // ---------------------------------------------------------------------
  // The second pass, `dfs2` over `reversed(order)`.

  /** The marked nodes are the components of `order[lo..]`. */
  ghost predicate SccCovered(adj: SetAdj, order: seq<string>, lo: nat, visited: set<string>) {
    && lo <= |order|
    && (forall w {:trigger w in visited} :: w in visited ==> w in adj && exists j :: lo <= j < |order| && Mutual(adj, order[j], w))
    && (forall j, w {:trigger Mutual(adj, order[j], w)} :: lo <= j < |order| && w in adj && Mutual(adj, order[j], w) ==> w in visited)
  }

  /** The components of `order[lo..]`. */
  ghost function Classes(adj: SetAdj, order: seq<string>, lo: nat): set<set<string>> {
    set j | lo <= j < |order| :: Scc(adj, order[j])
  }

  /** The second loop of `_strongly_connected_components`: from the node that
      finished last among those not yet marked, `dfs2` along the reverse
      adjacency, one count per search. */
  method CountFromLatest(adj: SetAdj, rev: SetAdj, order: seq<string>) returns (count: nat)
    requires SetClosed(adj) && SetClosed(rev) && Transposed(adj, rev)
    requires Elements(order) == adj.Keys && Distinct(order) && Ordered(adj, order, [])
    ensures count == NumClasses(adj, order, 0)
  {
    count := 0;
    var visited: set<string> := {};
    var i: nat := |order|;
    while i > 0
      invariant i <= |order| && visited <= adj.Keys
      invariant SccCovered(adj, order, i, visited)
      invariant count == NumClasses(adj, order, i)
      decreases i
    {
      i := i - 1;
      var v := order[i];
      assert v in Elements(order);
      MarkedIffSeen(adj, order, i, visited);
      if v !in visited {
        ghost var before := visited;
        visited := Explore(rev, v, visited);
        ExploreScc(adj, rev, order, i, before, visited);
        count := count + 1;
      } else {
        CoveredKeep(adj, order, i, visited);
      }
    }
  }

  /** `_strongly_connected_components()`: the number of strongly connected
      components of the graph whose adjacency is `adj` and whose reverse
      adjacency is `rev`. */
  method StronglyConnectedComponents(adj: SetAdj, rev: SetAdj, keys: seq<string>) returns (count: nat)
    requires SetClosed(adj) && SetClosed(rev) && Transposed(adj, rev)
    requires forall k :: k in keys <==> k in adj
    ensures count == SccCount(adj)
  {
    var order := FinishOrder(adj, keys);
    count := CountFromLatest(adj, rev, order);
    ClassesAll(adj, order);
  }

  /** The marks are closed under sharing a component. */
  lemma CoveredMutual(adj: SetAdj, order: seq<string>, lo: nat, visited: set<string>, a: string, b: string)
    requires SccCovered(adj, order, lo, visited) && b in adj && Mutual(adj, a, b)
    ensures a in visited ==> b in visited
  {
    if a in visited {
      var j :| lo <= j < |order| && Mutual(adj, order[j], a);
      MutualTrans(adj, order[j], a, b);
    }
  }

  /** A marked `order[i]` brings no new node into the components. */
  lemma CoveredKeep(adj: SetAdj, order: seq<string>, i: nat, visited: set<string>)
    requires i < |order| && SccCovered(adj, order, i + 1, visited) && order[i] in visited
    ensures SccCovered(adj, order, i, visited)
  {
    forall w | w in adj && Mutual(adj, order[i], w) ensures w in visited {
      CoveredMutual(adj, order, i + 1, visited, order[i], w);
    }
  }

  /** `order[lo]` shares its component with a node listed after it. */
  ghost predicate SeenLater(adj: SetAdj, order: seq<string>, lo: nat)
    requires lo < |order|
  {
    exists k :: lo < k < |order| && Mutual(adj, order[k], order[lo])
  }

  /** The number of nodes of `order[lo..]` that share their component with
      no node listed after them: one per component of `order[lo..]`. */
  ghost function NumClasses(adj: SetAdj, order: seq<string>, lo: nat): nat
    decreases |order| - lo
  {
    if lo >= |order| then 0
    else NumClasses(adj, order, lo + 1) + if SeenLater(adj, order, lo) then 0 else 1
  }

  /** `NumClasses` counts the components of `order[lo..]`. */
  lemma {:induction false} NumClassesCounts(adj: SetAdj, order: seq<string>, lo: nat)
    requires lo <= |order| && forall j :: lo <= j < |order| ==> order[j] in adj
    ensures NumClasses(adj, order, lo) == |Classes(adj, order, lo)|
    decreases |order| - lo
  {
    if lo == |order| {
      assert Classes(adj, order, lo) == {};
    } else {
      NumClassesCounts(adj, order, lo + 1);
      ClassesStep(adj, order, lo);
      var old_ := Classes(adj, order, lo + 1);
      if SeenLater(adj, order, lo) {
        var k :| lo < k < |order| && Mutual(adj, order[k], order[lo]);
        SccEqual(adj, order[k], order[lo]);
        assert Scc(adj, order[lo]) in old_;
        assert Classes(adj, order, lo) == old_;
      } else {
        forall c | c in old_ ensures c != Scc(adj, order[lo]) {
          var k :| lo + 1 <= k < |order| && c == Scc(adj, order[k]);
          NotSameClass(adj, order, lo, k);
        }
        assert Scc(adj, order[lo]) !in old_;
      }
    }
  }

  lemma ClassesStep(adj: SetAdj, order: seq<string>, i: nat)
    requires i < |order|
    ensures Classes(adj, order, i) == Classes(adj, order, i + 1) + {Scc(adj, order[i])}
  {
    var old_, new_ := Classes(adj, order, i + 1), Classes(adj, order, i);
    forall c | c in new_ ensures c in old_ + {Scc(adj, order[i])} {
      var j :| i <= j < |order| && c == Scc(adj, order[j]);
      if j > i {
        assert c in old_;
      }
    }
  }

  /** A node sharing its component with no later node has a component of
      its own among `order[i..]`. */
  lemma NotSameClass(adj: SetAdj, order: seq<string>, i: nat, j: nat)
    requires i < j < |order| && order[i] in adj && !SeenLater(adj, order, i)
    ensures Scc(adj, order[j]) != Scc(adj, order[i])
  {
    var r := order[i];
    MutualSelf(adj, r);
    assert r in Scc(adj, r);
    assert !Mutual(adj, order[j], r);
  }

  /** In the second loop, `order[i]` is marked exactly when a later node
      shares its component. */
  lemma MarkedIffSeen(adj: SetAdj, order: seq<string>, i: nat, visited: set<string>)
    requires i < |order| && order[i] in adj && SccCovered(adj, order, i + 1, visited)
    ensures order[i] in visited <==> SeenLater(adj, order, i)
  {
  }

  /** With every node listed, the components of the list are all of them. */
  lemma ClassesAll(adj: SetAdj, order: seq<string>)
    requires Elements(order) == adj.Keys
    ensures NumClasses(adj, order, 0) == SccCount(adj)
  {
    forall j | 0 <= j < |order| ensures order[j] in adj {
      assert order[j] in Elements(order);
    }
    NumClassesCounts(adj, order, 0);
    var all := set u | u in adj :: Scc(adj, u);
    forall c | c in all ensures c in Classes(adj, order, 0) {
      var u :| u in adj && c == Scc(adj, u);
      assert u in Elements(order);
      var j :| 0 <= j < |order| && order[j] == u;
    }
    forall c | c in Classes(adj, order, 0) ensures c in all {
      var j :| 0 <= j < |order| && c == Scc(adj, order[j]);
      assert order[j] in Elements(order);
    }
    assert all == Classes(adj, order, 0);
  }

  /** The facts the second loop has about the finish order and the marks. */
  ghost predicate PassTwo(adj: SetAdj, rev: SetAdj, order: seq<string>, i: nat, visited: set<string>) {
    && SetClosed(adj) && SetClosed(rev) && Transposed(adj, rev)
    && Elements(order) == adj.Keys && Distinct(order) && Ordered(adj, order, [])
    && i < |order| && SccCovered(adj, order, i + 1, visited) && order[i] !in visited
  }

  /** What `dfs2(order[i])` marks lies in the component of `order[i]`: a node
      reaching `order[i]` from outside it would have a node of its own
      component finishing later, and that node is marked already. */
  lemma MarkedInScc(adj: SetAdj, rev: SetAdj, order: seq<string>, i: nat, visited: set<string>, u: string)
    requires PassTwo(adj, rev, order, i, visited)
    requires u in adj && ReachAvoid(rev, visited, order[i], u)
    ensures Mutual(adj, order[i], u)
  {
    var r := order[i];
    assert r in Elements(order) && u in Elements(order);
    RevReachAvoid(adj, rev, visited, r, u);
    var i' := LaterInComponent(adj, order, i, u);
    CoveredMutual(adj, order, i + 1, visited, order[i'], u);
    assert i' == i;
  }

  /** What the reverse adjacency reaches from `a` outside `avoid` is
      outside `avoid` and reaches `a` along `adj`. */
  lemma RevReachAvoid(adj: SetAdj, rev: SetAdj, avoid: set<string>, a: string, b: string)
    requires SetClosed(rev) && Transposed(adj, rev) && a in rev && ReachAvoid(rev, avoid, a, b)
    ensures b !in avoid && Reach(adj, b, a)
  {
    var p :| Walk(rev, p) && Outside(p, avoid) && p[0] == a && p[|p| - 1] == b;
    ReachAvoidWeaken(rev, avoid, a, b);
    RevReach(adj, rev, a, b);
  }

  /** The finish order, read at a node `u` that reaches `order[i]`: some node
      of `u`'s component finishes no earlier than `order[i]`. */
  lemma LaterInComponent(adj: SetAdj, order: seq<string>, i: nat, u: string) returns (i': nat)
    requires Distinct(order) && Ordered(adj, order, []) && u in order
    requires i < |order| && Reach(adj, u, order[i])
    ensures i <= i' < |order| && Mutual(adj, order[i'], u)
  {
    assert Late(adj, order, [], u, order[i]);
    var k, j :| 0 <= j <= k < |order| && order[j] == order[i] && Mutual(adj, u, order[k]);
    assert j == i;
    i' := k;
  }

  /** A walk outside the old marks, from a node `dfs2` marked, stays
      among the marks: every arrow out of a newly marked node is marked. */
  lemma {:induction false} StaysMarked(adj: SetAdj, visited: set<string>, visited': set<string>, p: seq<string>)
    requires Walk(adj, p) && Outside(p, visited) && p[0] in visited'
    requires forall u, w :: u in visited' - visited && u in adj && w in adj[u] ==> w in visited'
    ensures p[|p| - 1] in visited'
    decreases |p|
  {
    if |p| > 1 {
      var q := p[..|p| - 1];
      assert Walk(adj, q) && Outside(q, visited);
      StaysMarked(adj, visited, visited', q);
      assert q[|q| - 1] == p[|p| - 2] && p[|p| - 1] in adj[p[|p| - 2]];
    }
  }

  /** A walk from `w` to `r`, `w` in the component of `r`, stays inside that
      component; with the component unmarked, the walk is unmarked. */
  lemma WalkUnmarked(adj: SetAdj, order: seq<string>, lo: nat, visited: set<string>, p: seq<string>, w: string, r: string)
    requires SccCovered(adj, order, lo, visited) && r in adj && r !in visited
    requires Walk(adj, p) && p[0] == w && p[|p| - 1] == r && Reach(adj, r, w)
    ensures Outside(p, visited)
  {
    forall k | 0 <= k < |p| ensures p[k] !in visited {
      WalkSlice(adj, p, k, |p| - 1);
      WalkSlice(adj, p, 0, k);
      ReachTrans(adj, r, w, p[k]);
      CoveredMutual(adj, order, lo, visited, p[k], r);
    }
  }

  /** Reversing a walk keeps it clear of the marks. */
  lemma ReversedOutside(p: seq<string>, visited: set<string>)
    requires Outside(p, visited)
    ensures Outside(Reversed(p), visited)
  {
    var q := Reversed(p);
    forall k | 0 <= k < |q| ensures q[k] !in visited {
      assert q[k] == p[|p| - 1 - k];
    }
  }

  /** `dfs2(order[i])` marks the whole component of `order[i]`: the
      component is unmarked, and the reverse of a walk inside it is a walk
      of the reverse adjacency. */
  lemma SccMarked(adj: SetAdj, rev: SetAdj, order: seq<string>, i: nat, visited: set<string>, visited': set<string>, w: string)
    requires SetClosed(adj) && Transposed(adj, rev)
    requires i < |order| && order[i] in adj && SccCovered(adj, order, i + 1, visited) && order[i] !in visited
    requires order[i] in visited' && visited' <= adj.Keys
    requires forall u, x :: u in visited' - visited && x in rev[u] ==> x in visited'
    requires w in adj && Mutual(adj, order[i], w)
    ensures w in visited'
  {
    var r := order[i];
    var p :| Walk(adj, p) && Outside(p, {}) && p[0] == w && p[|p| - 1] == r;
    WalkUnmarked(adj, order, i + 1, visited, p, w, r);
    ReverseWalk(adj, rev, p);
    ReversedOutside(p, visited);
    StaysMarked(rev, visited, visited', Reversed(p));
  }

  /** One search of the second loop marks exactly the component of `order[i]`. */
  lemma ExploreScc(adj: SetAdj, rev: SetAdj, order: seq<string>, i: nat, visited: set<string>, visited': set<string>)
    requires SetClosed(adj) && SetClosed(rev) && Transposed(adj, rev)
    requires Elements(order) == adj.Keys && Distinct(order) && Ordered(adj, order, [])
    requires i < |order| && SccCovered(adj, order, i + 1, visited) && order[i] !in visited
    requires visited + {order[i]} <= visited' <= adj.Keys
    requires forall u :: u in visited' - visited ==> ReachAvoid(rev, visited, order[i], u)
    requires forall u, w :: u in visited' - visited && w in rev[u] ==> w in visited'
    ensures SccCovered(adj, order, i, visited')
  {
    assert PassTwo(adj, rev, order, i, visited);
    forall w ensures w in visited' <==> w in adj && exists j :: i <= j < |order| && Mutual(adj, order[j], w) {
      if w in visited' - visited {
        MarkedInScc(adj, rev, order, i, visited, w);
      }
      if w in adj && exists j :: i <= j < |order| && Mutual(adj, order[j], w) {
        var j :| i <= j < |order| && Mutual(adj, order[j], w);
        if j == i {
          assert order[i] in Elements(order);
          SccMarked(adj, rev, order, i, visited, visited', w);
        }
      }
    }
  }

  // ---------------------------------------------------------------------
  // Undirected graphs.

  /** On a symmetric adjacency reaching is mutual. */
  lemma SymmetricReach(adj: SetAdj, a: string, b: string)
    requires Symmetric(adj) && a in adj && Reach(adj, a, b)
    ensures Mutual(adj, a, b)
  {
    RevReach(adj, adj, a, b);
  }

  /** The components of the first `n` keys. */
  ghost function PrefixClasses(adj: SetAdj, keys: seq<string>, n: nat): set<set<string>>
    requires n <= |keys|
  {
    set j | 0 <= j < n :: Scc(adj, keys[j])
  }

  /** On a symmetric adjacency a key starts a new search of
      `_component_count` exactly when it opens a new component. */
  lemma {:induction false} RootsCountClasses(adj: SetAdj, keys: seq<string>, n: nat)
    requires Symmetric(adj) && n <= |keys| && forall j :: 0 <= j < |keys| ==> keys[j] in adj
    ensures CountRoots(adj, keys[..n]) == |PrefixClasses(adj, keys, n)|
    decreases n
  {
    if n == 0 {
      assert keys[..0] == [] && PrefixClasses(adj, keys, 0) == {};
    } else {
      RootsCountClasses(adj, keys, n - 1);
      CountRootsNext(adj, keys, n);
      PrefixClassesNext(adj, keys, n);
      KnownClass(adj, keys, n);
      CardAdd(PrefixClasses(adj, keys, n - 1), Scc(adj, keys[n - 1]));
    }
  }

  /** The count over the first `n` keys from the count over the first `n - 1`. */
  lemma CountRootsNext(adj: SetAdj, keys: seq<string>, n: nat)
    requires 0 < n <= |keys|
    ensures CountRoots(adj, keys[..n]) ==
            CountRoots(adj, keys[..n - 1]) + if ReachedBefore(adj, keys[..n - 1], keys[n - 1]) then 0 else 1
  {
    assert keys[..n][..n - 1] == keys[..n - 1] && keys[..n][n - 1] == keys[n - 1];
  }

  lemma CardAdd<T>(a: set<T>, x: T)
    ensures |a + {x}| == |a| + if x in a then 0 else 1
  {
  }

  /** One key more adds its component to the components seen. */
  lemma PrefixClassesNext(adj: SetAdj, keys: seq<string>, n: nat)
    requires 0 < n <= |keys|
    ensures PrefixClasses(adj, keys, n) == PrefixClasses(adj, keys, n - 1) + {Scc(adj, keys[n - 1])}
  {
    forall c | c in PrefixClasses(adj, keys, n) ensures c in PrefixClasses(adj, keys, n - 1) + {Scc(adj, keys[n - 1])} {
      var j :| 0 <= j < n && c == Scc(adj, keys[j]);
      if j < n - 1 {
        assert c in PrefixClasses(adj, keys, n - 1);
      }
    }
  }

  /** On a symmetric adjacency, an earlier key reaches the next one exactly
      when the next one's component has been seen. */
  lemma KnownClass(adj: SetAdj, keys: seq<string>, n: nat)
    requires Symmetric(adj) && 0 < n <= |keys| && forall j :: 0 <= j < |keys| ==> keys[j] in adj
    ensures ReachedBefore(adj, keys[..n - 1], keys[n - 1]) <==> Scc(adj, keys[n - 1]) in PrefixClasses(adj, keys, n - 1)
  {
    var init, v := keys[..n - 1], keys[n - 1];
    if ReachedBefore(adj, init, v) {
      var j :| 0 <= j < |init| && Reach(adj, init[j], v);
      SymmetricReach(adj, keys[j], v);
      SccEqual(adj, keys[j], v);
      assert Scc(adj, v) in PrefixClasses(adj, keys, n - 1);
    } else {
      var seen := PrefixClasses(adj, keys, n - 1);
      forall c | c in seen ensures c != Scc(adj, v) {
        var j :| 0 <= j < n - 1 && c == Scc(adj, keys[j]);
        MutualSelf(adj, v);
        assert v in Scc(adj, v);
        assert !Reach(adj, init[j], v);
      }
    }
  }

  /** For an undirected graph, `_component_count` counts the connected
      components, whatever order the keys are walked in. */
  lemma UndirectedComponents(adj: SetAdj, keys: seq<string>)
    requires Symmetric(adj) && forall k :: k in keys <==> k in adj
    ensures CountRoots(adj, keys) == SccCount(adj)
  {
    RootsCountClasses(adj, keys, |keys|);
    assert keys[..|keys|] == keys;
    var all := set u | u in adj :: Scc(adj, u);
    forall c | c in all ensures c in PrefixClasses(adj, keys, |keys|) {
      var u :| u in adj && c == Scc(adj, u);
      var j :| 0 <= j < |keys| && keys[j] == u;
    }
    assert all == PrefixClasses(adj, keys, |keys|);
  }
}
