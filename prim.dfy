/** `PrimSolver.run`: for every vertex not yet visited, a heap seeded with
    `(0, name, None)`; entries of least weight are popped, an entry whose
    node is already visited is dropped, otherwise the node is visited, the
    pair `(parent, node)` appended, and an entry pushed for every unvisited
    neighbour. The heap is a multiset from which an entry of least weight is
    taken; Python breaks ties by name, then by parent. The ghost map `comp`
    sends every visited node to the vertex its round started from. */
module Prim {
  import opened Common
  import opened GraphModel
  import opened Forests
  import opened Weighted

  /** A heap entry `(weight, node, parent)`. */
  type Entry = (int, string, Option<string>)
  type Heap = multiset<Entry>

  /** Every list entry has its reverse, as in an undirected adjacency. The
      weight must match too, which the unweighted symmetry of diagnostics
      does not ask. */
  ghost predicate Symmetric(adj: WAdj) {
    forall x, n, w :: x in adj && (n, w) in adj[x] ==> n in adj && (x, w) in adj[n]
  }

  lemma SymmetricAt(adj: WAdj, x: string, n: string, w: int)
    requires Symmetric(adj) && x in adj && (n, w) in adj[x]
    ensures n in adj && (x, w) in adj[n]
  {
  }

  /** `b` is in `a`'s neighbour list. */
  ghost predicate Listed(adj: WAdj, a: string, b: string) {
    a in adj && exists w :: (b, w) in adj[a]
  }

  /** The visited nodes and the pairs appended so far: a forest of adjacency
      pairs, each pair inside one round, every node joined to the start of
      its round, and one pair fewer than nodes per round. */
  ghost predicate Shape(adj: WAdj, comp: map<string, string>, mst: EdgeList) {
    && comp.Keys <= adj.Keys
    && Tagged(mst, comp) && Reaches(mst, comp) && Forest(mst)
    && (forall x {:trigger comp[x]} :: x in comp ==> comp[x] in Roots(comp))
    && |mst| + |Roots(comp)| == |comp|
    && (forall a, b {:trigger (a, b) in mst} :: (a, b) in mst ==> Listed(adj, a, b))
  }

  /** An entry of the round started at `start`: the seed, or an entry of the
      list of a node visited in this round, pushed with that node as parent. */
  ghost predicate EntryOk(adj: WAdj, start: string, comp: map<string, string>, w: int, n: string, p: Option<string>) {
    && n in adj
    && (p.None? ==> n == start)
    && (p.Some? ==> p.value in comp && comp[p.value] == start && p.value in adj && (n, w) in adj[p.value])
  }

  ghost predicate Entries(adj: WAdj, start: string, comp: map<string, string>, heap: Heap) {
    forall w, n, p :: (w, n, p) in heap ==> EntryOk(adj, start, comp, w, n, p)
  }

  /** Each entry `(n, w)` of the list `ns` of the visited node `x`: `n` is
      visited in `x`'s round, or not visited and pending on the heap. */
  ghost predicate ClauseFor(comp: map<string, string>, heap: Heap, x: string, ns: seq<(string, int)>) {
    x in comp && forall n, w {:trigger (n, w) in ns} :: (n, w) in ns ==>
      if n in comp then comp[n] == comp[x] else (w, n, Some(x)) in heap
  }

  /** `ClauseFor` holds for the whole list of every visited node outside `open`. */
  ghost predicate Closure(adj: WAdj, comp: map<string, string>, heap: Heap, open: set<string>) {
    forall x {:trigger ClauseFor(comp, heap, x, adj[x])} :: x in comp && x in adj && x !in open ==>
      ClauseFor(comp, heap, x, adj[x])
  }

  /** The invariant of `while heap` in the round started at `start`. */
  ghost predicate Round(adj: WAdj, start: string, comp: map<string, string>, mst: EdgeList, heap: Heap) {
    && start in adj && Shape(adj, comp, mst) && Entries(adj, start, comp, heap) && Closure(adj, comp, heap, {})
    && (start !in comp ==> (0, start, None) in heap)
  }

  /** The invariant of `for w, neighbor in adj[current]` after `j` entries of
      the list of the node `c` just visited. */
  ghost predicate Pushing(adj: WAdj, start: string, comp: map<string, string>, mst: EdgeList, heap: Heap,
                          c: string, j: nat) {
    && start in adj && start in comp && Shape(adj, comp, mst) && Entries(adj, start, comp, heap)
    && Closure(adj, comp, heap, {c})
    && c in adj && c in comp && comp[c] == start && j <= |adj[c]| && ClauseFor(comp, heap, c, adj[c][..j])
    && (forall n, w {:trigger (n, w) in adj[c]} :: (n, w) in adj[c] && n in comp ==> comp[n] == start)
  }

  /** `ClauseFor` survives adding an entry to the heap. */
  lemma ClauseGrow(comp: map<string, string>, heap: Heap, x: string, ns: seq<(string, int)>, e: Entry)
    requires ClauseFor(comp, heap, x, ns)
    ensures ClauseFor(comp, heap + multiset{e}, x, ns)
  {
    forall n, w {:trigger (n, w) in ns} | (n, w) in ns && n !in comp ensures (w, n, Some(x)) in heap + multiset{e} {
      assert (w, n, Some(x)) in heap;
    }
  }

  /** ... and dropping an entry whose node is visited. */
  lemma ClauseDrop(comp: map<string, string>, heap: Heap, x: string, ns: seq<(string, int)>, e: Entry)
    requires ClauseFor(comp, heap, x, ns) && e.1 in comp
    ensures ClauseFor(comp, heap - multiset{e}, x, ns)
  {
    forall n, w {:trigger (n, w) in ns} | (n, w) in ns && n !in comp ensures (w, n, Some(x)) in heap - multiset{e} {
      assert (w, n, Some(x)) in heap && (w, n, Some(x)) != e;
    }
  }

  /** Popping an entry whose node is already visited keeps the round's invariant. */
  lemma Skip(adj: WAdj, start: string, comp: map<string, string>, mst: EdgeList, heap: Heap, e: Entry)
    requires Round(adj, start, comp, mst, heap) && e in heap && e.1 in comp
    ensures Round(adj, start, comp, mst, heap - multiset{e})
  {
    var heap' := heap - multiset{e};
    forall x {:trigger ClauseFor(comp, heap', x, adj[x])} | x in comp && x in adj
      ensures ClauseFor(comp, heap', x, adj[x])
    {
      assert ClauseFor(comp, heap, x, adj[x]);
      ClauseDrop(comp, heap, x, adj[x], e);
    }
    if start !in comp {
      assert (0, start, None) != e;
    }
  }

  /** Visiting `c` from the entry `(w, c, p)`: `c` joins the round, and the
      pair `(p, c)` is appended when there is a parent. */
  lemma VisitShape(adj: WAdj, start: string, comp: map<string, string>, mst: EdgeList, w: int, c: string, p: Option<string>)
    requires Shape(adj, comp, mst) && start in adj && c in adj && c !in comp
    requires EntryOk(adj, start, comp, w, c, p)
    requires p.None? ==> start !in comp
    ensures Shape(adj, comp[c := start], if p.Some? then mst + [(p.value, c)] else mst)
    ensures start in comp[c := start] && comp[c := start][start] == start
  {
    if p.None? {
      VisitSeed(adj, comp, mst, c);
    } else {
      assert comp[p.value] in Roots(comp);
      VisitFrom(adj, comp, mst, w, c, p.value);
    }
  }

  /** The seed `(0, start, None)`: `start` starts a tree of its own. */
  lemma VisitSeed(adj: WAdj, comp: map<string, string>, mst: EdgeList, c: string)
    requires Shape(adj, comp, mst) && c in adj && c !in comp
    ensures Shape(adj, comp[c := c], mst)
  {
    TaggedKeep(mst, comp, c, c);
    SeedReaches(mst, comp, c);
    SeedRoots(comp, c);
  }

  /** An entry `(w, c, Some(q))` with `q` visited: `(q, c)` hangs `c` below
      `q` in `q`'s tree. */
  lemma VisitFrom(adj: WAdj, comp: map<string, string>, mst: EdgeList, w: int, c: string, q: string)
    requires Shape(adj, comp, mst) && c in adj && c !in comp
    requires q in comp && q in adj && (c, w) in adj[q] && comp[q] in Roots(comp)
    ensures Shape(adj, comp[c := comp[q]], mst + [(q, c)])
  {
    LabelsApart(mst, Tag(comp), q, c);
    ForestSnoc(mst, q, c);
    FromReaches(mst, comp, q, c);
    FromTagged(mst, comp, q, c);
    FromListed(adj, mst, w, q, c);
    FromRoots(comp, c, comp[q]);
  }

  /** A new name leaves the pairs inside their trees ... */
  lemma TaggedKeep(mst: EdgeList, comp: map<string, string>, c: string, r: string)
    requires Tagged(mst, comp) && c !in comp
    ensures Tagged(mst, comp[c := r])
  {
    forall a, b {:trigger (a, b) in mst} | (a, b) in mst ensures a in comp[c := r] && b in comp[c := r] && comp[c := r][a] == comp[c := r][b] {
      assert a in comp && b in comp;
    }
  }

  /** ... and joined to their representatives. */
  lemma SeedReaches(mst: EdgeList, comp: map<string, string>, c: string)
    requires Reaches(mst, comp) && c !in comp
    ensures Reaches(mst, comp[c := c])
  {
    var comp' := comp[c := c];
    JoinedSelf(mst, c);
    forall x {:trigger comp'[x]} | x in comp' ensures Joined(mst, x, comp'[x]) {
      if x != c {
        assert Joined(mst, x, comp[x]);
      }
    }
  }

  /** A new name that represents itself adds one tree. */
  lemma SeedRoots(comp: map<string, string>, c: string)
    requires c !in comp && (forall x {:trigger comp[x]} :: x in comp ==> comp[x] in Roots(comp))
    ensures forall x {:trigger comp[c := c][x]} :: x in comp[c := c] ==> comp[c := c][x] in Roots(comp[c := c])
    ensures |Roots(comp[c := c])| == |Roots(comp)| + 1 && |comp[c := c]| == |comp| + 1
  {
    var comp' := comp[c := c];
    SeedRootSet(comp, c);
    forall x {:trigger comp'[x]} | x in comp' ensures comp'[x] in Roots(comp') {
      if x != c {
        assert comp[x] in Roots(comp);
      }
    }
    assert c !in Roots(comp);
  }

  lemma SeedRootSet(comp: map<string, string>, c: string)
    requires c !in comp
    ensures Roots(comp[c := c]) == Roots(comp) + {c}
  {
    forall y ensures y in Roots(comp[c := c]) <==> y in Roots(comp) || y == c {
    }
  }

  /** A new name hung below an existing tree adds no tree. */
  lemma FromRoots(comp: map<string, string>, c: string, r: string)
    requires c !in comp && r in Roots(comp) && (forall x {:trigger comp[x]} :: x in comp ==> comp[x] in Roots(comp))
    ensures forall x {:trigger comp[c := r][x]} :: x in comp[c := r] ==> comp[c := r][x] in Roots(comp[c := r])
    ensures Roots(comp[c := r]) == Roots(comp) && |comp[c := r]| == |comp| + 1
  {
    var comp' := comp[c := r];
    forall x {:trigger comp'[x]} | x in comp' ensures comp'[x] in Roots(comp') {
      if x != c {
        assert comp[x] in Roots(comp);
      }
    }
    forall y ensures y in Roots(comp') <==> y in Roots(comp) {
      assert y == c ==> y !in Roots(comp') by {
        if y == c {
          assert r != c;
        }
      }
    }
    assert Roots(comp') == Roots(comp);
    assert comp'.Keys == comp.Keys + {c};
  }

  /** The new pair `(q, c)` lies inside `q`'s tree. */
  lemma FromTagged(mst: EdgeList, comp: map<string, string>, q: string, c: string)
    requires Tagged(mst, comp) && q in comp && c !in comp
    ensures Tagged(mst + [(q, c)], comp[c := comp[q]])
  {
    var comp', mst' := comp[c := comp[q]], mst + [(q, c)];
    forall a, b {:trigger (a, b) in mst'} | (a, b) in mst' ensures a in comp' && b in comp' && comp'[a] == comp'[b] {
      if (a, b) in mst {
        assert a in comp && b in comp;
      } else {
        assert (a, b) == (q, c);
      }
    }
  }

  /** The new pair `(q, c)` comes from `q`'s list. */
  lemma FromListed(adj: WAdj, mst: EdgeList, w: int, q: string, c: string)
    requires (forall a, b {:trigger (a, b) in mst} :: (a, b) in mst ==> Listed(adj, a, b))
    requires q in adj && (c, w) in adj[q]
    ensures forall a, b {:trigger (a, b) in mst + [(q, c)]} :: (a, b) in mst + [(q, c)] ==> Listed(adj, a, b)
  {
    forall a, b {:trigger (a, b) in mst + [(q, c)]} | (a, b) in mst + [(q, c)] ensures Listed(adj, a, b) {
      if (a, b) !in mst {
        assert (a, b) == (q, c);
      }
    }
  }

  /** ... every node stays joined to its round's start. */
  lemma FromReaches(mst: EdgeList, comp: map<string, string>, q: string, c: string)
    requires Reaches(mst, comp) && q in comp && c !in comp
    ensures Reaches(mst + [(q, c)], comp[c := comp[q]])
  {
    var comp', mst' := comp[c := comp[q]], mst + [(q, c)];
    JoinedPair(mst', q, c);
    assert Joined(mst, q, comp[q]);
    JoinedGrow(mst, (q, c), q, comp[q]);
    JoinedTrans(mst', c, q, comp[q]);
    forall x {:trigger comp'[x]} | x in comp' ensures Joined(mst', x, comp'[x]) {
      if x != c {
        assert Joined(mst, x, comp[x]);
        JoinedGrow(mst, (q, c), x, comp[x]);
      }
    }
  }

  /** ... the entries left on the heap stay entries of the round ... */
  lemma VisitEntries(adj: WAdj, start: string, comp: map<string, string>, heap: Heap, c: string)
    requires Entries(adj, start, comp, heap) && c !in comp
    ensures Entries(adj, start, comp[c := start], heap)
  {
    forall w, n, p | (w, n, p) in heap ensures EntryOk(adj, start, comp[c := start], w, n, p) {
      assert EntryOk(adj, start, comp, w, n, p);
    }
  }

  /** ... the lists of the nodes visited before stay closed ... */
  lemma VisitClause(adj: WAdj, start: string, comp: map<string, string>, heap: Heap, e: Entry, x: string)
    requires Entries(adj, start, comp, heap) && e in heap && e.1 !in comp
    requires x in adj && ClauseFor(comp, heap, x, adj[x])
    ensures ClauseFor(comp[e.1 := start], heap - multiset{e}, x, adj[x])
  {
    var c, comp', heap' := e.1, comp[e.1 := start], heap - multiset{e};
    forall n, w {:trigger (n, w) in adj[x]} | (n, w) in adj[x]
      ensures if n in comp' then comp'[n] == comp'[x] else (w, n, Some(x)) in heap'
    {
      if n == c {
        assert (w, n, Some(x)) in heap;
        assert EntryOk(adj, start, comp, w, n, Some(x));
      } else if n !in comp {
        assert (w, n, Some(x)) in heap && (w, n, Some(x)) != e;
      }
    }
  }

  /** ... and every visited neighbour of `c` is in this round. */
  lemma VisitNear(adj: WAdj, start: string, comp: map<string, string>, heap: Heap, c: string)
    requires Symmetric(adj) && c in adj && c !in comp && comp.Keys <= adj.Keys
    requires Entries(adj, start, comp, heap) && Closure(adj, comp, heap, {})
    ensures forall n, w {:trigger (n, w) in adj[c]} :: (n, w) in adj[c] && n in comp[c := start] ==> comp[c := start][n] == start
  {
    forall n, w {:trigger (n, w) in adj[c]} | (n, w) in adj[c] && n in comp ensures comp[n] == start {
      assert (c, w) in adj[n];
      assert ClauseFor(comp, heap, n, adj[n]);
      assert (w, c, Some(n)) in heap;
      assert EntryOk(adj, start, comp, w, c, Some(n));
    }
  }

  /** The pairs after visiting the node of `e`: `(parent, node)` appended
      when the entry has a parent. */
  function Appended(mst: EdgeList, e: Entry): EdgeList {
    if e.2.Some? then mst + [(e.2.value, e.1)] else mst
  }

  /** Visiting a node not yet visited from an entry of the heap starts the
      scan of its list. */
  lemma Visit(adj: WAdj, start: string, comp: map<string, string>, mst: EdgeList, heap: Heap, e: Entry)
    requires Symmetric(adj) && Round(adj, start, comp, mst, heap) && e in heap && e.1 !in comp
    ensures Pushing(adj, start, comp[e.1 := start], Appended(mst, e), heap - multiset{e}, e.1, 0)
  {
    var (w, c, p) := e;
    assert (w, c, p) in heap;
    assert EntryOk(adj, start, comp, w, c, p);
    var comp', heap' := comp[c := start], heap - multiset{e};
    VisitShape(adj, start, comp, mst, w, c, p);
    VisitEntries(adj, start, comp, heap, c);
    assert Entries(adj, start, comp', heap') by {
      forall w', n, p' | (w', n, p') in heap' ensures EntryOk(adj, start, comp', w', n, p') {
        assert (w', n, p') in heap;
      }
    }
    forall x {:trigger ClauseFor(comp', heap', x, adj[x])} | x in comp' && x in adj && x !in {c}
      ensures ClauseFor(comp', heap', x, adj[x])
    {
      assert ClauseFor(comp, heap, x, adj[x]);
      VisitClause(adj, start, comp, heap, e, x);
    }
    VisitNear(adj, start, comp, heap, c);
    assert adj[c][..0] == [];
  }

  /** One entry `(n, w)` of the list of `c`: pushed when `n` is not visited. */
  lemma Push(adj: WAdj, start: string, comp: map<string, string>, mst: EdgeList, heap: Heap, c: string, j: nat)
    requires Pushing(adj, start, comp, mst, heap, c, j) && j < |adj[c]| && Symmetric(adj)
    ensures var (n, w) := adj[c][j];
            Pushing(adj, start, comp, mst, if n in comp then heap else heap + multiset{(w, n, Some(c))}, c, j + 1)
  {
    var (n, w) := adj[c][j];
    assert (n, w) in adj[c];
    if n !in comp {
      var e: Entry := (w, n, Some(c));
      SymmetricAt(adj, c, n, w);
      assert EntryOk(adj, start, comp, w, n, Some(c));
      GrowEntries(adj, start, comp, heap, e);
      GrowClosure(adj, comp, heap, {c}, e);
      ClauseGrow(comp, heap, c, adj[c][..j], e);
      ClauseNext(comp, heap + multiset{e}, c, adj[c], j);
    } else {
      ClauseNext(comp, heap, c, adj[c], j);
    }
  }

  /** An entry of the round may be added to the heap. */
  lemma GrowEntries(adj: WAdj, start: string, comp: map<string, string>, heap: Heap, e: Entry)
    requires Entries(adj, start, comp, heap) && EntryOk(adj, start, comp, e.0, e.1, e.2)
    ensures Entries(adj, start, comp, heap + multiset{e})
  {
    forall w, n, p | (w, n, p) in heap + multiset{e} ensures EntryOk(adj, start, comp, w, n, p) {
      if (w, n, p) != e {
        assert (w, n, p) in heap;
      }
    }
  }

  /** `Closure` survives adding an entry to the heap. */
  lemma GrowClosure(adj: WAdj, comp: map<string, string>, heap: Heap, open: set<string>, e: Entry)
    requires Closure(adj, comp, heap, open)
    ensures Closure(adj, comp, heap + multiset{e}, open)
  {
    forall x {:trigger ClauseFor(comp, heap + multiset{e}, x, adj[x])} | x in comp && x in adj && x !in open
      ensures ClauseFor(comp, heap + multiset{e}, x, adj[x])
    {
      assert ClauseFor(comp, heap, x, adj[x]);
      ClauseGrow(comp, heap, x, adj[x], e);
    }
  }

  /** The clause for one more entry of the list. */
  lemma ClauseNext(comp: map<string, string>, heap: Heap, c: string, ns: seq<(string, int)>, j: nat)
    requires j < |ns| && ClauseFor(comp, heap, c, ns[..j])
    requires ns[j].0 in comp ==> comp[ns[j].0] == comp[c]
    requires ns[j].0 !in comp ==> (ns[j].1, ns[j].0, Some(c)) in heap
    ensures ClauseFor(comp, heap, c, ns[..j + 1])
  {
    TakeNext(ns, j);
    forall n, w {:trigger (n, w) in ns[..j + 1]} | (n, w) in ns[..j + 1]
      ensures if n in comp then comp[n] == comp[c] else (w, n, Some(c)) in heap
    {
      if (n, w) != ns[j] {
        assert (n, w) in ns[..j];
      }
    }
  }

  /** At the end of the list, the round's invariant is back. */
  lemma PushEnd(adj: WAdj, start: string, comp: map<string, string>, mst: EdgeList, heap: Heap, c: string)
    requires c in adj && Pushing(adj, start, comp, mst, heap, c, |adj[c]|)
    ensures Round(adj, start, comp, mst, heap)
  {
    assert adj[c][..|adj[c]|] == adj[c];
    forall x {:trigger ClauseFor(comp, heap, x, adj[x])} | x in comp && x in adj
      ensures ClauseFor(comp, heap, x, adj[x])
    {
    }
  }

  /** `for w, neighbor in adj[current]: if neighbor not in visited: heappush(...)`. */
  method PushAll(adj: WAdj, ghost start: string, visited: set<string>, ghost comp: map<string, string>,
                 ghost mst: EdgeList, heap: Heap, c: string)
    returns (heap': Heap)
    requires Symmetric(adj) && Pushing(adj, start, comp, mst, heap, c, 0) && visited == comp.Keys
    ensures Round(adj, start, comp, mst, heap')
    ensures |heap'| <= |heap| + |adj[c]|
  {
    heap' := heap;
    var ns := adj[c];
    for j := 0 to |ns|
      invariant Pushing(adj, start, comp, mst, heap', c, j) && |heap'| <= |heap| + j
    {
      Push(adj, start, comp, mst, heap', c, j);
      var (n, w) := ns[j];
      if n !in visited {
        heap' := heap' + multiset{(w, n, Some(c))};
      }
    }
    PushEnd(adj, start, comp, mst, heap', c);
  }

  /** No entry of the heap weighs less than `k`. */
  ghost predicate Below(k: int, heap: Heap) {
    forall w, n, p :: (w, n, p) in heap ==> k <= w
  }

  /** A non-empty heap has an entry of least weight; the entries here carry a
      parent, unlike Dijkstra's, so the lemma is stated for this heap. */
  lemma {:induction false} MinExists(h: Heap)
    requires h != multiset{}
    ensures exists e :: e in h && Below(e.0, h)
    decreases |h|
  {
    var x :| x in h;
    var rest := h - multiset{x};
    assert h == rest + multiset{x};
    if rest == multiset{} {
      forall w, n, p | (w, n, p) in h ensures x.0 <= w {
        assert (w, n, p) in multiset{x};
      }
    } else {
      MinExists(rest);
      var m :| m in rest && Below(m.0, rest);
      if x.0 < m.0 {
        forall w, n, p | (w, n, p) in h ensures x.0 <= w {
          assert (w, n, p) in rest || (w, n, p) in multiset{x};
        }
      } else {
        forall w, n, p | (w, n, p) in h ensures m.0 <= w {
          assert (w, n, p) in rest || (w, n, p) in multiset{x};
        }
        assert m in h;
      }
    }
  }

  /** `heappop`: an entry of least weight. */
  method PopMin(heap: Heap) returns (e: Entry)
    requires heap != multiset{}
    ensures e in heap && Below(e.0, heap)
  {
    MinExists(heap);
    e :| e in heap && forall f :: f in heap ==> e.0 <= f.0;
    forall w, n, p | (w, n, p) in heap ensures e.0 <= w {
      assert (w, n, p).0 == w;
    }
  }

  /** The body of `while heap`: pop an entry of least weight, drop it when its
      node is visited, otherwise visit the node, append `(parent, node)` when
      there is a parent and push the node's unvisited neighbours. Either the
      heap shrinks or one more node is visited. */
  method Step(adj: WAdj, start: string, visited: set<string>, ghost comp: map<string, string>, mst: EdgeList, heap: Heap)
    returns (visited': set<string>, ghost comp': map<string, string>, mst': EdgeList, heap': Heap)
    requires Symmetric(adj) && Round(adj, start, comp, mst, heap) && visited == comp.Keys && heap != multiset{}
    ensures Round(adj, start, comp', mst', heap') && visited' == comp'.Keys
    ensures comp.Keys <= comp'.Keys
    ensures (comp' == comp && |heap'| < |heap|) || |adj.Keys - comp'.Keys| < |adj.Keys - comp.Keys|
  {
    var e := PopMin(heap);
    var rest := heap - multiset{e};
    var (w, current, parent) := e;
    if current in visited {
      Skip(adj, start, comp, mst, heap, e);
      return visited, comp, mst, rest;
    }
    visited', comp', mst', heap' := VisitNode(adj, start, visited, comp, mst, heap, e);
  }

  /** `visited.add(current)`, the pair `(parent, current)` when there is a
      parent, and the pushes for `current`'s list. */
  method VisitNode(adj: WAdj, start: string, visited: set<string>, ghost comp: map<string, string>, mst: EdgeList,
                   heap: Heap, e: Entry)
    returns (visited': set<string>, ghost comp': map<string, string>, mst': EdgeList, heap': Heap)
    requires Symmetric(adj) && Round(adj, start, comp, mst, heap) && visited == comp.Keys
    requires e in heap && e.1 !in comp
    ensures Round(adj, start, comp', mst', heap') && visited' == comp'.Keys
    ensures comp.Keys <= comp'.Keys && |adj.Keys - comp'.Keys| < |adj.Keys - comp.Keys|
  {
    Visit(adj, start, comp, mst, heap, e);
    Fewer(adj.Keys, comp, e.1, start);
    visited', comp', mst' := visited + {e.1}, comp[e.1 := start], Appended(mst, e);
    heap' := PushAll(adj, start, visited', comp', mst', heap - multiset{e}, e.1);
  }

  /** Visiting one more node leaves fewer nodes to visit. */
  lemma Fewer(all: set<string>, comp: map<string, string>, x: string, r: string)
    requires x in all && x !in comp
    ensures comp[x := r].Keys == comp.Keys + {x}
    ensures |all - comp[x := r].Keys| < |all - comp.Keys|
  {
    assert all - comp.Keys == (all - comp[x := r].Keys) + {x};
  }

  /** One round of `run`'s loop over the vertices, from the unvisited `start`:
      `while heap: ...` until the heap runs dry. */
  method Grow(adj: WAdj, start: string, visited: set<string>, ghost comp: map<string, string>, mst: EdgeList)
    returns (visited': set<string>, ghost comp': map<string, string>, mst': EdgeList)
    requires Symmetric(adj) && start in adj && start !in comp && visited == comp.Keys
    requires Shape(adj, comp, mst) && Closure(adj, comp, multiset{}, {})
    ensures Shape(adj, comp', mst') && Closure(adj, comp', multiset{}, {}) && visited' == comp'.Keys
    ensures start in comp' && comp.Keys <= comp'.Keys
  {
    var heap: Heap := multiset{(0, start, None)};
    RoundStart(adj, start, comp, mst);
    visited', comp', mst' := visited, comp, mst;
    while heap != multiset{}
      invariant Round(adj, start, comp', mst', heap) && visited' == comp'.Keys && comp.Keys <= comp'.Keys
      decreases |adj.Keys - comp'.Keys|, |heap|
    {
      visited', comp', mst', heap := Step(adj, start, visited', comp', mst', heap);
    }
  }

  /** Seeding the heap with `(0, start, None)` starts a round. */
  lemma RoundStart(adj: WAdj, start: string, comp: map<string, string>, mst: EdgeList)
    requires start in adj && start !in comp && Shape(adj, comp, mst) && Closure(adj, comp, multiset{}, {})
    ensures Round(adj, start, comp, mst, multiset{(0, start, None)})
  {
    var heap: Heap := multiset{(0, start, None)};
    forall w, n, p | (w, n, p) in heap ensures EntryOk(adj, start, comp, w, n, p) {
      assert (w, n, p) == (0, start, None);
    }
    forall x {:trigger ClauseFor(comp, heap, x, adj[x])} | x in comp && x in adj
      ensures ClauseFor(comp, heap, x, adj[x])
    {
      assert ClauseFor(comp, multiset{}, x, adj[x]);
      ClauseGrow(comp, multiset{}, x, adj[x], (0, start, None));
    }
  }

  /** The undirected weighted adjacency lists every edge from both ends. */
  lemma UndirectedSymmetric(vs: seq<Vertex>, es: seq<Edge>)
    requires EndsKnown(vs, es)
    ensures Symmetric(WeightedAdj(vs, es, false))
  {
    var adj := WeightedAdj(vs, es, false);
    WeightedAdjClosed(vs, es, false);
    forall x, n, w | x in adj && (n, w) in adj[x] ensures n in adj && (x, w) in adj[n] {
      assert (n, w) in adj[x];
      IncidentIff(es, x, n, w, false);
      IncidentIff(es, n, x, w, false);
    }
  }

  /** `run`: nothing for a directed graph or an empty vertex list; otherwise
      a forest of graph edges spanning every component of the undirected
      graph, with `comp` sending each vertex to the vertex its round started
      from. */
  method Run(vs: seq<Vertex>, es: seq<Edge>, directed: bool)
    returns (mst: EdgeList, active: bool, ghost comp: map<string, string>)
    requires EndsKnown(vs, es)
    ensures active
    ensures directed || vs == [] ==> mst == []
    ensures !directed ==> SpanningForest(NameSet(vs), es, mst, comp) && FromGraph(es, mst)
  {
    if directed || vs == [] {
      comp := map[];
      if !directed {
        EmptyGraph(vs, es);
      }
      return [], true, comp;
    }
    var adj := WeightedUndirectedAdj(vs, es);
    UndirectedSymmetric(vs, es);
    comp, mst := Rounds(vs, adj);
    Spanned(vs, es, adj, comp, mst);
    active := true;
  }

  /** `for v in self.vertices: if v.name in visited: continue ...`: one
      round from every vertex not visited by an earlier round. */
  method Rounds(vs: seq<Vertex>, adj: WAdj) returns (ghost comp: map<string, string>, mst: EdgeList)
    requires Symmetric(adj) && adj.Keys == NameSet(vs)
    ensures Shape(adj, comp, mst) && Closure(adj, comp, multiset{}, {}) && comp.Keys == NameSet(vs)
  {
    var visited: set<string> := {};
    comp, mst := map[], [];
    var none: map<string, string> := map[];
    assert Roots(none) == {};
    for i := 0 to |vs|
      invariant Shape(adj, comp, mst) && Closure(adj, comp, multiset{}, {}) && visited == comp.Keys
      invariant Seen(vs, i, comp.Keys)
    {
      assert vs[i] in vs;
      ghost var before := comp.Keys;
      if vs[i].name !in visited {
        visited, comp, mst := Grow(adj, vs[i].name, visited, comp, mst);
      }
      SeenNext(vs, i, before, comp.Keys);
    }
    forall x | x in NameSet(vs) ensures x in comp {
      var v :| v in vs && v.name == x;
      var k :| 0 <= k < |vs| && vs[k] == v;
    }
  }

  /** The first `i` vertices are visited. */
  ghost predicate Seen(vs: seq<Vertex>, i: nat, keys: set<string>) {
    forall k :: 0 <= k < i && k < |vs| ==> vs[k].name in keys
  }

  lemma SeenNext(vs: seq<Vertex>, i: nat, keys: set<string>, keys': set<string>)
    requires i < |vs| && Seen(vs, i, keys) && keys <= keys' && vs[i].name in keys'
    ensures Seen(vs, i + 1, keys')
  {
  }

  /** Without vertices there are no edges, and the empty forest spans. */
  lemma EmptyGraph(vs: seq<Vertex>, es: seq<Edge>)
    requires EndsKnown(vs, es) && vs == []
    ensures SpanningForest(NameSet(vs), es, [], map[]) && FromGraph(es, [])
  {
    var none: map<string, string> := map[];
    assert Roots(none) == {};
  }

  /** Once every vertex is visited and every list closed, the pairs are a
      spanning forest of graph edges. */
  lemma Spanned(vs: seq<Vertex>, es: seq<Edge>, adj: WAdj, comp: map<string, string>, mst: EdgeList)
    requires EndsKnown(vs, es) && adj == WeightedAdj(vs, es, false)
    requires Shape(adj, comp, mst) && Closure(adj, comp, multiset{}, {}) && comp.Keys == NameSet(vs)
    ensures SpanningForest(NameSet(vs), es, mst, comp) && FromGraph(es, mst)
  {
    forall e | e in es ensures Joined(mst, e.start, e.end) {
      EdgeJoined(vs, es, adj, comp, mst, e);
    }
    forall x, y | x in Roots(comp) && y in Roots(comp) && x != y ensures !Joined(mst, x, y) {
      OtherRoot(mst, comp, x, y);
    }
    forall a, b {:trigger (a, b) in mst} | (a, b) in mst ensures EdgeOf(es, a, b) {
      PairIsEdge(vs, es, adj, mst, a, b);
    }
    assert |comp| == |comp.Keys|;
  }

  /** Both ends of an edge end in one tree, so they are joined. */
  lemma EdgeJoined(vs: seq<Vertex>, es: seq<Edge>, adj: WAdj, comp: map<string, string>, mst: EdgeList, e: Edge)
    requires EndsKnown(vs, es) && adj == WeightedAdj(vs, es, false) && e in es
    requires Shape(adj, comp, mst) && Closure(adj, comp, multiset{}, {}) && comp.Keys == NameSet(vs)
    ensures Joined(mst, e.start, e.end)
  {
    var i :| 0 <= i < |es| && es[i] == e;
    IncidentIff(es, e.start, e.end, Weight(e.value), false);
    assert (e.end, Weight(e.value)) in adj[e.start];
    assert ClauseFor(comp, multiset{}, e.start, adj[e.start]);
    SameRoot(mst, comp, e.start, e.end);
  }

  /** Every pair comes from an adjacency list, hence from an edge. */
  lemma PairIsEdge(vs: seq<Vertex>, es: seq<Edge>, adj: WAdj, mst: EdgeList, a: string, b: string)
    requires adj == WeightedAdj(vs, es, false) && Listed(adj, a, b)
    ensures EdgeOf(es, a, b)
  {
    var w :| (b, w) in adj[a];
    IncidentIff(es, a, b, w, false);
  }
}
