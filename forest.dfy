/** Walks over a list of undirected name pairs, the connectivity they give,
    and the forest property of the spanning-tree solvers' `mst_edges`. */
module Forests {
  import opened GraphModel

  /** A list of `(u, v)` name pairs, read as undirected edges. */
  type EdgeList = seq<(string, string)>

  /** `a` and `b` are the two ends of one pair, in either order. */
  predicate Adjacent(es: EdgeList, a: string, b: string) {
    (a, b) in es || (b, a) in es
  }

  /** A walk: a non-empty list of names, each adjacent to the next pair of
      the edge list (not the adjacency map the diagnostics walk along). */
  ghost predicate Walk(es: EdgeList, p: seq<string>) {
    |p| > 0 && forall i :: 0 <= i < |p| - 1 ==> Adjacent(es, p[i], p[i + 1])
  }

  /** Some walk leads from `x` to `y`. */
  ghost predicate Joined(es: EdgeList, x: string, y: string) {
    exists p :: Walk(es, p) && p[0] == x && p[|p| - 1] == y
  }

  /** Each pair joins two names not yet joined by the pairs before it, so no
      pair closes a cycle. */
  ghost predicate Forest(es: EdgeList) {
    forall i :: 0 <= i < |es| ==> !Joined(es[..i], es[i].0, es[i].1)
  }

  /** The `(start, end)` names of a list of edges. */
  function Ends(es: seq<Edge>): (r: EdgeList)
    ensures |r| == |es|
    ensures forall i :: 0 <= i < |es| ==> r[i] == (es[i].start, es[i].end)
  {
    if es == [] then [] else [(es[0].start, es[0].end)] + Ends(es[1..])
  }

  lemma JoinedSelf(es: EdgeList, x: string)
    ensures Joined(es, x, x)
  {
    assert Walk(es, [x]);
  }

  lemma JoinedPair(es: EdgeList, a: string, b: string)
    requires Adjacent(es, a, b)
    ensures Joined(es, a, b) && Joined(es, b, a)
  {
    assert Walk(es, [a, b]);
    assert Walk(es, [b, a]);
  }

  function Reverse(p: seq<string>): (r: seq<string>)
    ensures |r| == |p| && forall i :: 0 <= i < |p| ==> r[i] == p[|p| - 1 - i]
  {
    if p == [] then [] else Reverse(p[1..]) + [p[0]]
  }

  /** Walks can be taken backwards. */
  lemma JoinedSym(es: EdgeList, x: string, y: string)
    requires Joined(es, x, y)
    ensures Joined(es, y, x)
  {
    var p :| Walk(es, p) && p[0] == x && p[|p| - 1] == y;
    var r := Reverse(p);
    forall i | 0 <= i < |r| - 1 ensures Adjacent(es, r[i], r[i + 1]) {
      assert Adjacent(es, p[|p| - 2 - i], p[|p| - 1 - i]);
    }
    assert Walk(es, r);
  }

  /** Walks can be chained. */
  lemma JoinedTrans(es: EdgeList, x: string, y: string, z: string)
    requires Joined(es, x, y) && Joined(es, y, z)
    ensures Joined(es, x, z)
  {
    var p :| Walk(es, p) && p[0] == x && p[|p| - 1] == y;
    var q :| Walk(es, q) && q[0] == y && q[|q| - 1] == z;
    var c := p + q[1..];
    forall i | 0 <= i < |c| - 1 ensures Adjacent(es, c[i], c[i + 1]) {
      if i < |p| - 1 {
        assert c[i] == p[i] && c[i + 1] == p[i + 1];
      } else {
        assert c[i] == q[i - |p| + 1] && c[i + 1] == q[i - |p| + 2];
      }
    }
    assert Walk(es, c);
  }

  /** More pairs join at least as much. */
  lemma JoinedGrow(es: EdgeList, e: (string, string), x: string, y: string)
    requires Joined(es, x, y)
    ensures Joined(es + [e], x, y)
  {
    var p :| Walk(es, p) && p[0] == x && p[|p| - 1] == y;
    forall i | 0 <= i < |p| - 1 ensures Adjacent(es + [e], p[i], p[i + 1]) {
      assert Adjacent(es, p[i], p[i + 1]);
    }
    assert Walk(es + [e], p);
  }

  /** A tag shared by the two ends of every pair is constant along a walk. */
  lemma {:induction false} WalkLabel<L>(es: EdgeList, tag: string -> L, p: seq<string>, i: nat)
    requires forall a, b {:trigger (a, b) in es} :: (a, b) in es ==> tag(a) == tag(b)
    requires Walk(es, p) && i < |p|
    ensures tag(p[i]) == tag(p[0])
  {
    if i > 0 {
      WalkLabel(es, tag, p, i - 1);
      assert Adjacent(es, p[i - 1], p[i]);
    }
  }

  /** ... so names with different tags are not joined. */
  lemma LabelsApart<L>(es: EdgeList, tag: string -> L, x: string, y: string)
    requires forall a, b {:trigger (a, b) in es} :: (a, b) in es ==> tag(a) == tag(b)
    requires tag(x) != tag(y)
    ensures !Joined(es, x, y)
  {
    if Joined(es, x, y) {
      var p :| Walk(es, p) && p[0] == x && p[|p| - 1] == y;
      WalkLabel(es, tag, p, |p| - 1);
    }
  }

  /** A pair joining two names not yet joined keeps the list a forest. */
  lemma ForestSnoc(es: EdgeList, a: string, b: string)
    requires Forest(es) && !Joined(es, a, b)
    ensures Forest(es + [(a, b)])
  {
    var es' := es + [(a, b)];
    forall i | 0 <= i < |es'| ensures !Joined(es'[..i], es'[i].0, es'[i].1) {
      if i < |es| {
        assert es'[..i] == es[..i];
      } else {
        assert es'[..i] == es;
      }
    }
  }

  /** A walk over `es` whose every pair is joined in `fs` gives a walk over `fs`. */
  lemma {:induction false} WalkSub(es: EdgeList, fs: EdgeList, p: seq<string>)
    requires forall a, b {:trigger (a, b) in es} :: (a, b) in es ==> Joined(fs, a, b)
    requires Walk(es, p)
    ensures Joined(fs, p[0], p[|p| - 1])
    decreases |p|
  {
    if |p| == 1 {
      JoinedSelf(fs, p[0]);
    } else {
      var q := p[..|p| - 1];
      forall i | 0 <= i < |q| - 1 ensures Adjacent(es, q[i], q[i + 1]) {
        assert q[i] == p[i] && q[i + 1] == p[i + 1];
      }
      WalkSub(es, fs, q);
      var a, b := p[|p| - 2], p[|p| - 1];
      assert Adjacent(es, a, b);
      if (a, b) !in es {
        JoinedSym(fs, b, a);
      }
      JoinedTrans(fs, p[0], a, b);
    }
  }

  /** Pairs each joined in `fs` join in `fs` whatever they join. */
  lemma JoinedSub(es: EdgeList, fs: EdgeList, x: string, y: string)
    requires forall a, b {:trigger (a, b) in es} :: (a, b) in es ==> Joined(fs, a, b)
    requires Joined(es, x, y)
    ensures Joined(fs, x, y)
  {
    var p :| Walk(es, p) && p[0] == x && p[|p| - 1] == y;
    WalkSub(es, fs, p);
  }

  /** The representatives of a map from names to representatives: the names
      that represent themselves. */
  ghost function Roots<K>(root: map<K, K>): set<K> {
    set x | x in root && root[x] == x
  }

  lemma CardRemove<T>(a: set<T>, x: T)
    requires x in a
    ensures |a - {x}| == |a| - 1
  {
  }

  /** Every pair has both ends in one tree. */
  ghost predicate Tagged(es: EdgeList, root: map<string, string>) {
    forall a, b {:trigger (a, b) in es} :: (a, b) in es ==> a in root && b in root && root[a] == root[b]
  }

  /** The pairs join every name to its representative. */
  ghost predicate Reaches(es: EdgeList, root: map<string, string>) {
    forall x {:trigger root[x]} :: x in root ==> Joined(es, x, root[x])
  }

  /** A name's representative, as a total function. */
  function Tag(root: map<string, string>): string -> string {
    x => if x in root then root[x] else x
  }

  /** Two names of one tree are joined. */
  lemma SameRoot(es: EdgeList, root: map<string, string>, u: string, v: string)
    requires u in root && v in root && root[u] == root[v] && Reaches(es, root)
    ensures Joined(es, u, v)
  {
    assert Joined(es, v, root[v]);
    JoinedSym(es, v, root[v]);
    JoinedTrans(es, u, root[u], v);
  }

  /** Two names of different trees are not joined. */
  lemma OtherRoot(es: EdgeList, root: map<string, string>, u: string, v: string)
    requires u in root && v in root && root[u] != root[v] && Tagged(es, root)
    ensures !Joined(es, u, v)
  {
    LabelsApart(es, Tag(root), u, v);
  }

  /** Some edge of the graph joins `a` and `b`, in either direction. */
  predicate EdgeOf(es: seq<Edge>, a: string, b: string) {
    exists i :: 0 <= i < |es| && Joins(es[i], a, b, false)
  }

  /** Every pair is an edge of the graph. */
  ghost predicate FromGraph(es: seq<Edge>, mst: EdgeList) {
    forall a, b {:trigger (a, b) in mst} :: (a, b) in mst ==> EdgeOf(es, a, b)
  }

  /** What both spanning-tree solvers leave for an undirected graph: the
      pairs `mst` form a forest that joins the two ends of every edge, and
      `root` maps every name to a representative it is joined to,
      representatives being pairwise not joined, so that there are
      `|names| - |mst|` trees. */
  ghost predicate SpanningForest(names: set<string>, es: seq<Edge>, mst: EdgeList, root: map<string, string>) {
    && Forest(mst)
    && (forall e :: e in es ==> Joined(mst, e.start, e.end))
    && root.Keys == names
    && (forall x {:trigger root[x]} :: x in names ==> root[x] in Roots(root) && Joined(mst, x, root[x]))
    && (forall x, y :: x in Roots(root) && y in Roots(root) && x != y ==> !Joined(mst, x, y))
    && |mst| + |Roots(root)| == |names|
  }

  /** A forest of graph edges spanning the graph connects exactly what the
      graph connects. */
  lemma SameComponents(names: set<string>, es: seq<Edge>, mst: EdgeList, root: map<string, string>,
                       x: string, y: string)
    requires SpanningForest(names, es, mst, root) && FromGraph(es, mst)
    ensures Joined(mst, x, y) <==> Joined(Ends(es), x, y)
  {
    if Joined(mst, x, y) {
      forall a, b {:trigger (a, b) in mst} | (a, b) in mst ensures Joined(Ends(es), a, b) {
        var i :| 0 <= i < |es| && Joins(es[i], a, b, false);
        assert Adjacent(Ends(es), a, b);
        JoinedPair(Ends(es), a, b);
      }
      JoinedSub(mst, Ends(es), x, y);
    }
    if Joined(Ends(es), x, y) {
      forall a, b {:trigger (a, b) in Ends(es)} | (a, b) in Ends(es) ensures Joined(mst, a, b) {
        var j :| 0 <= j < |es| && Ends(es)[j] == (a, b);
        assert es[j] in es;
      }
      JoinedSub(Ends(es), mst, x, y);
    }
  }

  /** A spanning forest over at least one name has fewer pairs than names. */
  lemma FewerEdges(names: set<string>, es: seq<Edge>, mst: EdgeList, root: map<string, string>)
    requires SpanningForest(names, es, mst, root) && names != {}
    ensures |mst| < |names|
  {
    var x :| x in names;
    assert root[x] in Roots(root);
  }
}
