/** `KruskalSolver.run`: sort the edges by weight (stably, as Python's
    `sorted` does), then accept every edge whose ends `find` puts in
    different trees, joining the trees with `union`. */
module Kruskal {
  import opened Common
  import opened GraphModel
  import opened Forests
  import opened UnionFind

  /** The sort key `float(e.value) if e.value is not None else 1.0`, for an
      edge whose value parses. */
  function Key(e: Edge): int {
    Weight(e.value)
  }

  /** `float(e.value)` raises for a value that does not parse. */
  predicate Unparsable(es: seq<Edge>) {
    exists e :: e in es && e.value.Garbage?
  }

  predicate Ascending(s: seq<Edge>) {
    forall i, j :: 0 <= i < j < |s| ==> Key(s[i]) <= Key(s[j])
  }

  /** The edges of weight `w`, in their order in `s`. */
  function OfWeight(s: seq<Edge>, w: int): seq<Edge> {
    if s == [] then [] else (if Key(s[0]) == w then [s[0]] else []) + OfWeight(s[1..], w)
  }

  /** Insert `e` before the first edge that weighs at least as much. */
  function Insert(e: Edge, s: seq<Edge>): seq<Edge> {
    if s == [] || Key(e) <= Key(s[0]) then [e] + s else [s[0]] + Insert(e, s[1..])
  }

  /** `sorted(edges, key=...)` as an insertion sort: the first edge goes in
      front of every later edge of the same weight, which is what makes it
      stable. */
  function Sort(es: seq<Edge>): seq<Edge> {
    if es == [] then [] else Insert(es[0], Sort(es[1..]))
  }

  lemma {:induction false} InsertPerm(e: Edge, s: seq<Edge>)
    ensures multiset(Insert(e, s)) == multiset(s) + multiset{e}
  {
    if s != [] && Key(e) > Key(s[0]) {
      InsertPerm(e, s[1..]);
      assert s == [s[0]] + s[1..];
    }
  }

  lemma {:induction false} InsertAscending(e: Edge, s: seq<Edge>)
    requires Ascending(s)
    ensures Ascending(Insert(e, s))
  {
    if s != [] && Key(e) > Key(s[0]) {
      var t := Insert(e, s[1..]);
      InsertAscending(e, s[1..]);
      InsertPerm(e, s[1..]);
      forall j | 0 < j < |[s[0]] + t| ensures Key(s[0]) <= Key(([s[0]] + t)[j]) {
        var x := ([s[0]] + t)[j];
        assert x in multiset(t);
        if x != e {
          assert x in multiset(s[1..]);
        }
      }
    }
  }

  lemma {:induction false} InsertStable(e: Edge, s: seq<Edge>, w: int)
    ensures OfWeight(Insert(e, s), w) == (if Key(e) == w then [e] else []) + OfWeight(s, w)
  {
    if s == [] || Key(e) <= Key(s[0]) {
      assert ([e] + s)[1..] == s;
    } else {
      var t := Insert(e, s[1..]);
      InsertStable(e, s[1..], w);
      assert ([s[0]] + t)[1..] == t;
      var h0: seq<Edge> := if Key(s[0]) == w then [s[0]] else [];
      var he: seq<Edge> := if Key(e) == w then [e] else [];
      assert OfWeight([s[0]] + t, w) == h0 + (he + OfWeight(s[1..], w));
      assert h0 == [] || he == [];
    }
  }

  /** The sort puts the edges in non-decreasing weight order, keeps every
      edge, and keeps the order of the edges of each weight. */
  lemma {:induction false} SortFacts(es: seq<Edge>)
    ensures Ascending(Sort(es))
    ensures multiset(Sort(es)) == multiset(es)
    ensures forall w :: OfWeight(Sort(es), w) == OfWeight(es, w)
  {
    if es != [] {
      SortFacts(es[1..]);
      InsertAscending(es[0], Sort(es[1..]));
      InsertPerm(es[0], Sort(es[1..]));
      forall w ensures OfWeight(Sort(es), w) == OfWeight(es, w) {
        InsertStable(es[0], Sort(es[1..]), w);
      }
      assert es == [es[0]] + es[1..];
    }
  }

  /** The accepted pairs join the two ends of each of the first `i` edges. */
  ghost predicate Covers(mst: EdgeList, s: seq<Edge>, i: nat)
    requires i <= |s|
  {
    forall j {:trigger s[j]} :: 0 <= j < i ==> Joined(mst, s[j].start, s[j].end)
  }

  /** Accepting `(u, v)` from two different trees, and hanging `u`'s tree
      below `v`'s, keeps the trees and the accepted pairs in step. */
  lemma Accept(mst: EdgeList, root: map<string, string>, u: string, v: string)
    requires u in root && v in root && root[u] != root[v]
    requires root[u] in root && root[root[u]] == root[u]
    requires Tagged(mst, root) && Reaches(mst, root)
    ensures !Joined(mst, u, v)
    ensures Tagged(mst + [(u, v)], Merged(root, root[u], root[v]))
    ensures Reaches(mst + [(u, v)], Merged(root, root[u], root[v]))
  {
    LabelsApart(mst, Tag(root), u, v);
    var mst', root' := mst + [(u, v)], Merged(root, root[u], root[v]);
    forall a, b {:trigger (a, b) in mst'} | (a, b) in mst' ensures a in root' && b in root' && root'[a] == root'[b] {
      if (a, b) in mst {
      } else {
        assert (a, b) == (u, v);
      }
    }
    JoinedPair(mst', u, v);
    JoinedGrow(mst, (u, v), u, root[u]);
    JoinedGrow(mst, (u, v), v, root[v]);
    JoinedSym(mst', u, root[u]);
    forall x {:trigger root'[x]} | x in root' ensures Joined(mst', x, root'[x]) {
      JoinedGrow(mst, (u, v), x, root[x]);
      if root[x] == root[u] {
        JoinedTrans(mst', x, root[u], u);
        JoinedTrans(mst', x, u, v);
        JoinedTrans(mst', x, v, root[v]);
      }
    }
  }

  lemma CoversGrow(mst: EdgeList, p: (string, string), s: seq<Edge>, i: nat)
    requires i <= |s| && Covers(mst, s, i)
    ensures Covers(mst + [p], s, i)
  {
    forall j {:trigger s[j]} | 0 <= j < i ensures Joined(mst + [p], s[j].start, s[j].end) {
      JoinedGrow(mst, p, s[j].start, s[j].end);
    }
  }

  /** The invariant of `run`'s loop after the first `i` sorted edges: the
      dictionary keeps its shape over the names, the accepted pairs form a
      forest that joins each name to its representative and the ends of every
      edge considered, each pair lies inside one tree, and each pair accepted
      took one tree away. */
  ghost predicate Inv(names: set<string>, parent: map<string, string>, root: map<string, string>,
                      rank: map<string, nat>, top: nat, es: seq<Edge>, s: seq<Edge>, i: nat,
                      mst: EdgeList, chosen: seq<Edge>)
  {
    && i <= |s| && multiset(s) == multiset(es) && Ascending(s)
    && Valid(parent, root, rank, top) && parent.Keys == names && root.Keys == names
    && Tagged(mst, root) && Reaches(mst, root) && Covers(mst, s, i) && Forest(mst)
    && |mst| + |Roots(root)| == |names|
    && mst == Ends(chosen) && Ascending(chosen) && (forall k :: 0 <= k < |chosen| ==> chosen[k] in es)
    && (chosen != [] ==> 0 < i && Key(chosen[|chosen| - 1]) <= Key(s[i - 1]))
  }

  lemma Init(names: set<string>, es: seq<Edge>, s: seq<Edge>)
    requires Ascending(s) && multiset(s) == multiset(es)
    ensures Inv(names, Singletons(names), Singletons(names), map x | x in names :: 0, 0, es, s, 0, [], [])
  {
    SingletonsValid(names);
    forall x {:trigger Singletons(names)[x]} | x in names ensures Joined([], x, Singletons(names)[x]) {
      JoinedSelf([], x);
    }
  }

  /** One round of the loop over the sorted edges: `find(u) != find(v)`
      (both calls may halve paths), and if so the pair is appended and
      `union(u, v)` joins the trees. */
  method Consider(names: set<string>, parent: map<string, string>, ghost root: map<string, string>,
                  ghost rank: map<string, nat>, ghost top: nat, ghost es: seq<Edge>, s: seq<Edge>, i: nat,
                  mst: EdgeList, ghost chosen: seq<Edge>)
    returns (parent': map<string, string>, ghost root': map<string, string>, ghost rank': map<string, nat>,
             ghost top': nat, mst': EdgeList, ghost chosen': seq<Edge>)
    requires i < |s| && Inv(names, parent, root, rank, top, es, s, i, mst, chosen)
    requires forall e :: e in es ==> e.start in names && e.end in names
    ensures Inv(names, parent', root', rank', top', es, s, i + 1, mst', chosen')
    ensures mst' == mst || mst' == mst + [(s[i].start, s[i].end)]
  {
    var e := s[i];
    assert e in multiset(es);
    var ru, rv;
    parent', ru := Find(parent, root, rank, top, e.start);
    parent', rv := Find(parent', root, rank, top, e.end);
    if ru != rv {
      ghost var parent0 := parent';
      parent', root', rank', top' := Union(parent', root, rank, top, e.start, e.end);
      AcceptInv(names, parent0, root, rank, top, es, s, i, mst, chosen, parent', root', rank', top');
      mst', chosen' := mst + [(e.start, e.end)], chosen + [e];
    } else {
      root', rank', top' := root, rank, top;
      RejectInv(names, parent', root, rank, top, es, s, i, mst, chosen);
      mst', chosen' := mst, chosen;
    }
  }

  /** An edge across two trees is accepted and the trees are merged. */
  lemma AcceptInv(names: set<string>, parent: map<string, string>, root: map<string, string>,
                  rank: map<string, nat>, top: nat, es: seq<Edge>, s: seq<Edge>, i: nat,
                  mst: EdgeList, chosen: seq<Edge>,
                  parent': map<string, string>, root': map<string, string>, rank': map<string, nat>, top': nat)
    requires i < |s| && Inv(names, parent, root, rank, top, es, s, i, mst, chosen)
    requires s[i] in es && s[i].start in names && s[i].end in names && root[s[i].start] != root[s[i].end]
    requires Valid(parent', root', rank', top') && parent'.Keys == names
    requires root' == Merged(root, root[s[i].start], root[s[i].end])
    requires Roots(root') == Roots(root) - {root[s[i].start]}
    ensures Inv(names, parent', root', rank', top', es, s, i + 1, mst + [(s[i].start, s[i].end)], chosen + [s[i]])
  {
    var u, v := s[i].start, s[i].end;
    NameFacts(parent, root, rank, top, u);
    NameFacts(parent, root, rank, top, root[u]);
    Accept(mst, root, u, v);
    ForestSnoc(mst, u, v);
    CoversGrow(mst, (u, v), s, i);
    JoinedPair(mst + [(u, v)], u, v);
    ChosenSnoc(s, i, chosen);
    assert root[u] in Roots(root);
    CardRemove(Roots(root), root[u]);
    var chosen' := chosen + [s[i]];
    forall k | 0 <= k < |chosen'| ensures chosen'[k] in es {
      if k < |chosen| {
        assert chosen'[k] == chosen[k];
      }
    }
  }

  /** Appending the `i`-th sorted edge keeps the accepted edges in order. */
  lemma ChosenSnoc(s: seq<Edge>, i: nat, chosen: seq<Edge>)
    requires i < |s| && Ascending(s) && Ascending(chosen)
    requires chosen != [] ==> 0 < i && Key(chosen[|chosen| - 1]) <= Key(s[i - 1])
    ensures Ascending(chosen + [s[i]]) && Ends(chosen + [s[i]]) == Ends(chosen) + [(s[i].start, s[i].end)]
  {
  }

  /** An edge inside one tree is skipped. */
  lemma RejectInv(names: set<string>, parent: map<string, string>, root: map<string, string>,
                  rank: map<string, nat>, top: nat, es: seq<Edge>, s: seq<Edge>, i: nat,
                  mst: EdgeList, chosen: seq<Edge>)
    requires i < |s| && Inv(names, parent, root, rank, top, es, s, i, mst, chosen)
    requires s[i].start in names && s[i].end in names && root[s[i].start] == root[s[i].end]
    ensures Inv(names, parent, root, rank, top, es, s, i + 1, mst, chosen)
  {
    SameRoot(mst, root, s[i].start, s[i].end);
  }

  /** What `run` leaves for an undirected graph whose values all parse: a
      spanning forest of graph edges, which are the ends of the accepted
      edges `chosen`, taken from the graph in non-decreasing weight order. */
  ghost predicate Built(names: set<string>, es: seq<Edge>, mst: EdgeList, chosen: seq<Edge>, root: map<string, string>) {
    && SpanningForest(names, es, mst, root) && FromGraph(es, mst)
    && mst == Ends(chosen) && Ascending(chosen) && (forall k :: 0 <= k < |chosen| ==> chosen[k] in es)
  }

  /** `KruskalSolver.run`. A directed graph gives an empty result at once; a
      value that `float` cannot parse raises while sorting; otherwise the
      result is a spanning forest built in weight order. */
  method Run(vs: seq<Vertex>, es: seq<Edge>, directed: bool)
    returns (raised: bool, mst: EdgeList, active: bool, ghost chosen: seq<Edge>, ghost root: map<string, string>)
    requires EndsKnown(vs, es)
    ensures directed ==> !raised && mst == [] && active
    ensures !directed ==> raised == Unparsable(es)
    ensures !directed && !raised ==> active && Built(NameSet(vs), es, mst, chosen, root)
  {
    chosen, root := [], map[];
    if directed {
      return false, [], true, chosen, root;
    }
    raised := Unparsable(es);
    if raised {
      return true, [], false, chosen, root;
    }
    var names := NameSet(vs);
    var s := Sort(es);
    SortFacts(es);
    var parent := Singletons(names);
    ghost var rank: map<string, nat>, top: nat := map x | x in names :: 0, 0;
    root := parent;
    mst := [];
    Init(names, es, s);
    for i := 0 to |s|
      invariant Inv(names, parent, root, rank, top, es, s, i, mst, chosen)
    {
      parent, root, rank, top, mst, chosen := Consider(names, parent, root, rank, top, es, s, i, mst, chosen);
    }
    Finish(names, parent, root, rank, top, es, s, |s|, mst, chosen);
    active := true;
  }

  /** The loop's invariant, once every edge has been considered. */
  lemma Finish(names: set<string>, parent: map<string, string>, root: map<string, string>, rank: map<string, nat>,
               top: nat, es: seq<Edge>, s: seq<Edge>, i: nat, mst: EdgeList, chosen: seq<Edge>)
    requires i == |s| && Inv(names, parent, root, rank, top, es, s, i, mst, chosen)
    ensures Built(names, es, mst, chosen, root)
  {
    ChosenFromGraph(es, mst, chosen);
    forall e | e in es ensures Joined(mst, e.start, e.end) {
      assert e in multiset(s);
      var j :| 0 <= j < |s| && s[j] == e;
    }
    forall x {:trigger root[x]} | x in names ensures root[x] in Roots(root) && Joined(mst, x, root[x]) {
      NameFacts(parent, root, rank, top, x);
      NameFacts(parent, root, rank, top, root[x]);
    }
    forall x, y | x in Roots(root) && y in Roots(root) && x != y ensures !Joined(mst, x, y) {
      OtherRoot(mst, root, x, y);
    }
  }

  /** The accepted pairs are the ends of edges of the graph. */
  lemma ChosenFromGraph(es: seq<Edge>, mst: EdgeList, chosen: seq<Edge>)
    requires mst == Ends(chosen) && forall k :: 0 <= k < |chosen| ==> chosen[k] in es
    ensures FromGraph(es, mst)
  {
    forall a, b {:trigger (a, b) in mst} | (a, b) in mst ensures EdgeOf(es, a, b) {
      var k :| 0 <= k < |mst| && mst[k] == (a, b);
      var j :| 0 <= j < |es| && es[j] == chosen[k];
      assert Joins(es[j], a, b, false);
    }
  }
}
