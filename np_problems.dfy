/** The brute-force solvers of np_problems.py: Independent Set, Clique,
    Vertex Cover and Hamiltonian Path, each the first candidate of an
    `itertools` stream that passes its test, and the `NPProblem` objects
    that cache the answer until the graph or `k` changes. */
module NpProblems {
  import opened Common
  import opened GraphModel
  import opened Diagnostics
  import opened Enumeration

  /** What `compute` returns: `(found, names)`. */
  datatype Answer = Answer(found: bool, members: seq<string>)

  /** The ends of the edges that start at `u`. */
  function Outgoing(es: seq<Edge>, u: string): set<string> {
    set j | 0 <= j < |es| && es[j].start == u :: es[j].end
  }

  /** The starts of the edges that end at `u`. */
  function Incoming(es: seq<Edge>, u: string): set<string> {
    set j | 0 <= j < |es| && es[j].end == u :: es[j].start
  }

  /** The neighbours `compute` collects for `u`: the end of every edge that
      starts at `u`, and, undirected, the start of every edge that ends there. */
  function Neighbours(es: seq<Edge>, u: string, directed: bool): set<string> {
    if directed then Outgoing(es, u) else Outgoing(es, u) + Incoming(es, u)
  }

  /** The adjacency dictionary the solvers build, as a value. */
  function NameAdj(vs: seq<Vertex>, es: seq<Edge>, directed: bool): SetAdj {
    map u | u in NameSet(vs) :: Neighbours(es, u, directed)
  }

  /** Some edge joins `u` to `n`. */
  ghost predicate SomeEdge(es: seq<Edge>, u: string, n: string, directed: bool) {
    exists m :: 0 <= m < |es| && Joins(es[m], u, n, directed)
  }

  /** `n` is listed under `u` exactly when some edge joins them. */
  lemma NameAdjJoins(vs: seq<Vertex>, es: seq<Edge>, directed: bool, u: string, n: string)
    requires u in NameSet(vs)
    ensures u in NameAdj(vs, es, directed)
    ensures n in NameAdj(vs, es, directed)[u] <==> SomeEdge(es, u, n, directed)
  {
    if n in Neighbours(es, u, directed) {
      if n in Outgoing(es, u) {
        var j :| 0 <= j < |es| && es[j].start == u && es[j].end == n;
        assert Joins(es[j], u, n, directed);
      } else {
        var j :| 0 <= j < |es| && es[j].end == u && es[j].start == n;
        assert Joins(es[j], u, n, directed);
      }
    }
    if SomeEdge(es, u, n, directed) {
      var m :| 0 <= m < |es| && Joins(es[m], u, n, directed);
      if es[m].start == u && es[m].end == n {
        assert n in Outgoing(es, u);
      } else {
        assert n in Incoming(es, u);
      }
    }
  }

  /** The loop at the top of each `compute` builds the same dictionary as
      `_build_adj`, so the one method serves both. */
  lemma AdjOfIsNameAdj(adj: SetAdj, vs: seq<Vertex>, es: seq<Edge>, directed: bool)
    requires AdjOf(adj, vs, es, directed)
    ensures adj == NameAdj(vs, es, directed)
  {
    var b := NameAdj(vs, es, directed);
    forall u | u in adj ensures adj[u] == b[u] {
      forall n ensures n in adj[u] <==> n in b[u] {
        NameAdjJoins(vs, es, directed, u, n);
      }
    }
  }

  /** The test at np_problems.py:46: no later name is a neighbour of an
      earlier one. */
  predicate Independent(adj: SetAdj, ns: seq<string>) {
    forall i, j :: 0 <= i < j < |ns| ==> !(ns[i] in adj && ns[j] in adj[ns[i]])
  }

  /** The test at np_problems.py:60: every later name is a neighbour of every
      earlier one. */
  predicate Complete(adj: SetAdj, ns: seq<string>) {
    forall i, j :: 0 <= i < j < |ns| ==> ns[i] in adj && ns[j] in adj[ns[i]]
  }

  /** The test at np_problems.py:70: every edge has an endpoint in `cover`. */
  predicate Covers(es: seq<Edge>, cover: set<string>) {
    forall e :: e in es ==> e.start in cover || e.end in cover
  }

  /** The test at np_problems.py:84: each name is followed by a neighbour. */
  predicate IsPath(adj: SetAdj, p: seq<string>) {
    forall i :: 0 <= i < |p| - 1 ==> p[i] in adj && p[i + 1] in adj[p[i]]
  }

  /** No edge runs from an earlier name to a later one (either way round
      when undirected). */
  ghost predicate NoEdgeAmong(es: seq<Edge>, ns: seq<string>, directed: bool) {
    forall i, j :: 0 <= i < j < |ns| ==> !SomeEdge(es, ns[i], ns[j], directed)
  }

  /** Some edge runs from every earlier name to every later one. */
  ghost predicate AllJoined(es: seq<Edge>, ns: seq<string>, directed: bool) {
    forall i, j :: 0 <= i < j < |ns| ==> SomeEdge(es, ns[i], ns[j], directed)
  }

  /** Some edge runs from every name to the next. */
  ghost predicate ConsecutiveJoined(es: seq<Edge>, p: seq<string>, directed: bool) {
    forall i :: 0 <= i < |p| - 1 ==> SomeEdge(es, p[i], p[i + 1], directed)
  }

  predicate AllVertices(vs: seq<Vertex>, ns: seq<string>) {
    forall i :: 0 <= i < |ns| ==> ns[i] in NameSet(vs)
  }

  /** On vertex names, the independence test means that no edge joins two
      of them. */
  lemma IndependentMeans(vs: seq<Vertex>, es: seq<Edge>, ns: seq<string>, directed: bool)
    requires AllVertices(vs, ns)
    ensures Independent(NameAdj(vs, es, directed), ns) <==> NoEdgeAmong(es, ns, directed)
  {
    forall i, j | 0 <= i < j < |ns|
      ensures ns[j] in NameAdj(vs, es, directed)[ns[i]]
              <==> SomeEdge(es, ns[i], ns[j], directed)
    {
      NameAdjJoins(vs, es, directed, ns[i], ns[j]);
    }
  }

  /** On vertex names, the clique test means that an edge joins every
      earlier name to every later one. */
  lemma CliqueMeans(vs: seq<Vertex>, es: seq<Edge>, ns: seq<string>, directed: bool)
    requires AllVertices(vs, ns)
    ensures Complete(NameAdj(vs, es, directed), ns) <==> AllJoined(es, ns, directed)
  {
    forall i, j | 0 <= i < j < |ns|
      ensures ns[i] in NameAdj(vs, es, directed)
      ensures ns[j] in NameAdj(vs, es, directed)[ns[i]]
              <==> SomeEdge(es, ns[i], ns[j], directed)
    {
      NameAdjJoins(vs, es, directed, ns[i], ns[j]);
    }
  }

  /** On vertex names, the path test means that an edge joins each name to
      the next. */
  lemma IsPathMeans(vs: seq<Vertex>, es: seq<Edge>, p: seq<string>, directed: bool)
    requires AllVertices(vs, p)
    ensures IsPath(NameAdj(vs, es, directed), p) <==> ConsecutiveJoined(es, p, directed)
  {
    var adj := NameAdj(vs, es, directed);
    forall i | 0 <= i < |p| - 1
      ensures p[i] in adj
      ensures p[i + 1] in adj[p[i]] <==> SomeEdge(es, p[i], p[i + 1], directed)
    {
      var u, n := p[i], p[i + 1];
      NameAdjJoins(vs, es, directed, u, n);
    }
  }

  /** The complement graph: `n` is a neighbour of `u` exactly when it is
      another vertex that is not a neighbour in `adj`. */
  function Complement(adj: SetAdj): SetAdj {
    map u | u in adj :: set n | n in adj && n != u && n !in adj[u]
  }

  /** A sequence of distinct vertex names passes the independence test in a
      graph exactly when it passes the clique test in its complement. */
  lemma IndependentIsCliqueOfComplement(adj: SetAdj, ns: seq<string>)
    requires Distinct(ns) && forall i :: 0 <= i < |ns| ==> ns[i] in adj
    ensures Independent(adj, ns) <==> Complete(Complement(adj), ns)
  {
  }

  /** The positions of a k-combination of `n` elements. */
  predicate Chosen(idx: seq<int>, k: nat, n: nat) {
    Increasing(idx) && |idx| == k && Below(idx, n)
  }

  lemma PickedVertices(vs: seq<Vertex>, idx: seq<int>)
    requires Below(idx, |vs|)
    ensures AllVertices(vs, Names(Pick(vs, idx)))
  {
    var ns := Names(Pick(vs, idx));
    forall i | 0 <= i < |ns| ensures ns[i] in NameSet(vs) {
      assert vs[idx[i]] in vs;
    }
  }

  /** The loop of np_problems.py:44-48 and 58-62: the names of the first
      k-combination of the vertices whose names pass `good`. */
  function SubsetSearch(vs: seq<Vertex>, k: nat, good: seq<string> -> bool): Answer {
    var cs := Combinations(vs, k);
    match FirstFrom(cs, c => good(Names(c)), 0)
    case Some(i) => Answer(true, Names(cs[i]))
    case None => Answer(false, [])
  }

  /** The subset search answers yes with the names of a k-combination that
      passes, the first one in `itertools` order, and answers no only when
      no k-combination passes. */
  lemma SubsetSearchCorrect(vs: seq<Vertex>, k: nat, good: seq<string> -> bool)
    ensures var r := SubsetSearch(vs, k, good);
            && (r.found ==> good(r.members) && |r.members| == k
                            && exists idx :: Chosen(idx, k, |vs|) && r.members == Names(Pick(vs, idx)))
            && (r.found ==> exists i :: 0 <= i < |Combinations(vs, k)| && r.members == Names(Combinations(vs, k)[i])
                                        && forall j :: 0 <= j < i ==> !good(Names(Combinations(vs, k)[j])))
            && (!r.found ==> r.members == [] && forall idx :: Chosen(idx, k, |vs|) ==> !good(Names(Pick(vs, idx))))
  {
    var cs := Combinations(vs, k);
    var r := SubsetSearch(vs, k, good);
    var first := FirstFrom(cs, c => good(Names(c)), 0);
    if first.Some? {
      CombinationsSound(vs, k, cs[first.value]);
    } else {
      forall idx | Chosen(idx, k, |vs|) ensures !good(Names(Pick(vs, idx))) {
        CombinationsComplete(vs, k, idx);
      }
    }
  }

  /** For k = 0 the only combination is the empty one, which passes both
      tests. */
  lemma EmptyCombination(vs: seq<Vertex>, adj: SetAdj)
    ensures IndependentSearch(adj, vs, 0) == Answer(true, [])
    ensures CliqueSearch(adj, vs, 0) == Answer(true, [])
  {
    var cs := Combinations(vs, 0);
    assert cs == [[]];
    assert Names(cs[0]) == [];
    assert Independent(adj, []) && Complete(adj, []);
  }

  function IndependentSearch(adj: SetAdj, vs: seq<Vertex>, k: nat): Answer {
    SubsetSearch(vs, k, ns => Independent(adj, ns))
  }

  function CliqueSearch(adj: SetAdj, vs: seq<Vertex>, k: nat): Answer {
    SubsetSearch(vs, k, ns => Complete(adj, ns))
  }

  /** `IndependentSetSolver.compute(k, directed)`, as a value. */
  function IndependentSetAnswer(vs: seq<Vertex>, es: seq<Edge>, k: nat, directed: bool): Answer {
    IndependentSearch(NameAdj(vs, es, directed), vs, k)
  }

  /** `CliqueSolver.compute(k, directed)`, as a value. */
  function CliqueAnswer(vs: seq<Vertex>, es: seq<Edge>, k: nat, directed: bool): Answer {
    CliqueSearch(NameAdj(vs, es, directed), vs, k)
  }

  /** Independent Set: a witness is k vertex names, no two joined by an edge
      running from the earlier to the later (either way round when
      undirected); no is answered only when no k-combination qualifies;
      k = 0 finds the empty set and k > |V| finds nothing. */
  lemma IndependentSetCorrect(vs: seq<Vertex>, es: seq<Edge>, k: nat, directed: bool)
    ensures var r := IndependentSetAnswer(vs, es, k, directed);
            && (k == 0 ==> r == Answer(true, []))
            && (k > |vs| ==> r == Answer(false, []))
            && (r.found ==> |r.members| == k && NoEdgeAmong(es, r.members, directed)
                            && exists idx :: Chosen(idx, k, |vs|) && r.members == Names(Pick(vs, idx)))
            && (!r.found ==> r.members == []
                             && forall idx :: Chosen(idx, k, |vs|) ==> !NoEdgeAmong(es, Names(Pick(vs, idx)), directed))
  {
    var adj := NameAdj(vs, es, directed);
    var r := IndependentSetAnswer(vs, es, k, directed);
    SubsetSearchCorrect(vs, k, ns => Independent(adj, ns));
    if r.found {
      var idx :| Chosen(idx, k, |vs|) && r.members == Names(Pick(vs, idx));
      PickedVertices(vs, idx);
      IndependentMeans(vs, es, r.members, directed);
    } else {
      forall idx | Chosen(idx, k, |vs|) ensures !NoEdgeAmong(es, Names(Pick(vs, idx)), directed) {
        PickedVertices(vs, idx);
        IndependentMeans(vs, es, Names(Pick(vs, idx)), directed);
      }
    }
    if k == 0 {
      EmptyCombination(vs, adj);
    }
  }

  /** Clique: a witness is k vertex names with an edge from every earlier
      name to every later one; no is answered only when no k-combination
      qualifies. */
  lemma CliqueCorrect(vs: seq<Vertex>, es: seq<Edge>, k: nat, directed: bool)
    ensures var r := CliqueAnswer(vs, es, k, directed);
            && (k == 0 ==> r == Answer(true, []))
            && (k > |vs| ==> r == Answer(false, []))
            && (r.found ==> |r.members| == k && AllJoined(es, r.members, directed)
                            && exists idx :: Chosen(idx, k, |vs|) && r.members == Names(Pick(vs, idx)))
            && (!r.found ==> r.members == []
                             && forall idx :: Chosen(idx, k, |vs|) ==> !AllJoined(es, Names(Pick(vs, idx)), directed))
  {
    var adj := NameAdj(vs, es, directed);
    var r := CliqueAnswer(vs, es, k, directed);
    SubsetSearchCorrect(vs, k, ns => Complete(adj, ns));
    if r.found {
      var idx :| Chosen(idx, k, |vs|) && r.members == Names(Pick(vs, idx));
      PickedVertices(vs, idx);
      CliqueMeans(vs, es, r.members, directed);
    } else {
      forall idx | Chosen(idx, k, |vs|) ensures !AllJoined(es, Names(Pick(vs, idx)), directed) {
        PickedVertices(vs, idx);
        CliqueMeans(vs, es, Names(Pick(vs, idx)), directed);
      }
    }
    if k == 0 {
      EmptyCombination(vs, adj);
    }
  }

  /** Two vertices have exactly one 2-combination: both of them. */
  lemma PairCombinations(a: Vertex, b: Vertex)
    ensures Combinations([a, b], 2) == [[a, b]]
  {
    var vs := [a, b];
    assert vs[1..] == [b] && [b][1..] == [];
    assert Combinations([b], 1) == Prefixed(b, Combinations([], 0)) + Combinations([], 1);
    assert |Prefixed(b, [[]])| == 1 && Prefixed(b, [[]])[0] == [b] + [] == [b];
    assert Combinations(vs, 2) == Prefixed(a, Combinations([b], 1)) + Combinations([b], 2);
    assert |Prefixed(a, [[b]])| == 1 && Prefixed(a, [[b]])[0] == [a] + [b] == vs;
  }

  /** A subset search over a single candidate answers with that candidate
      exactly when it passes. */
  lemma SingleCandidate(vs: seq<Vertex>, k: nat, good: seq<string> -> bool)
    requires |Combinations(vs, k)| == 1
    ensures var c := Combinations(vs, k)[0];
            SubsetSearch(vs, k, good) == if good(Names(c)) then Answer(true, Names(c)) else Answer(false, [])
  {
  }

  /** In directed mode the independence test looks only from earlier to
      later names: for two vertices `a`, `b` and the single edge b -> a,
      the pair (a, b) is accepted although an edge joins them. */
  lemma DirectedIndependenceIgnoresBackEdges(a: Vertex, b: Vertex, e: Edge)
    requires a.name != b.name && e.start == b.name && e.end == a.name
    ensures IndependentSetAnswer([a, b], [e], 2, true) == Answer(true, [a.name, b.name])
    ensures SomeEdge([e], b.name, a.name, true)
  {
    var vs, es := [a, b], [e];
    var adj := NameAdj(vs, es, true);
    PairCombinations(a, b);
    assert Names(vs) == [a.name, b.name];
    assert a in vs;
    NameAdjJoins(vs, es, true, a.name, b.name);
    assert !Joins(es[0], a.name, b.name, true);
    assert Independent(adj, [a.name, b.name]);
    SingleCandidate(vs, 2, ns => Independent(adj, ns));
    assert Joins(es[0], b.name, a.name, true);
  }

  /** The undirected reading of the same graph rejects the pair. */
  lemma UndirectedIndependenceSeesBothWays(a: Vertex, b: Vertex, e: Edge)
    requires a.name != b.name && e.start == b.name && e.end == a.name
    ensures IndependentSetAnswer([a, b], [e], 2, false) == Answer(false, [])
  {
    var vs, es := [a, b], [e];
    var adj := NameAdj(vs, es, false);
    PairCombinations(a, b);
    assert Names(vs) == [a.name, b.name];
    assert a in vs;
    NameAdjJoins(vs, es, false, a.name, b.name);
    assert Joins(es[0], a.name, b.name, false);
    assert !Independent(adj, [a.name, b.name]);
    SingleCandidate(vs, 2, ns => Independent(adj, ns));
  }

  /** For any graph and distinct vertex names, an edge from a later name to
      an earlier one leaves the directed independence test as it was, while
      the undirected test rejects the names because of it. */
  lemma DirectedIndependenceIgnoresBackEdge(vs: seq<Vertex>, es: seq<Edge>, ns: seq<string>, e: Edge, i: nat, j: nat)
    requires AllVertices(vs, ns) && forall p, q :: 0 <= p < q < |ns| ==> ns[p] != ns[q]
    requires i < j < |ns| && e.start == ns[j] && e.end == ns[i]
    ensures Independent(NameAdj(vs, es + [e], true), ns) <==> Independent(NameAdj(vs, es, true), ns)
    ensures !Independent(NameAdj(vs, es + [e], false), ns)
  {
    var es' := es + [e];
    IndependentMeans(vs, es, ns, true);
    IndependentMeans(vs, es', ns, true);
    IndependentMeans(vs, es', ns, false);
    forall p, q | 0 <= p < q < |ns|
      ensures SomeEdge(es', ns[p], ns[q], true) <==> SomeEdge(es, ns[p], ns[q], true)
    {
      if SomeEdge(es', ns[p], ns[q], true) {
        var m :| 0 <= m < |es'| && Joins(es'[m], ns[p], ns[q], true);
        assert m < |es| && es[m] == es'[m];
      }
      if SomeEdge(es, ns[p], ns[q], true) {
        var m :| 0 <= m < |es| && Joins(es[m], ns[p], ns[q], true);
        assert es'[m] == es[m];
      }
    }
    assert Joins(es'[|es|], ns[i], ns[j], false);
  }

  /** The loop of np_problems.py:68-71: the first k-combination whose names
      cover every edge. */
  function CoverChoice(vs: seq<Vertex>, es: seq<Edge>, k: nat): Option<seq<Vertex>> {
    var cs := Combinations(vs, k);
    match FirstFrom(cs, c => Covers(es, NameSet(c)), 0)
    case Some(i) => Some(cs[i])
    case None => None
  }

  /** What `VertexCoverSolver.compute(k)` may return: the names of the first
      covering k-combination, listed once each in an order Python's set
      iteration leaves open, or `(False, [])`. */
  ghost predicate CoverAnswer(vs: seq<Vertex>, es: seq<Edge>, k: nat, r: Answer) {
    match CoverChoice(vs, es, k)
    case Some(c) => r.found && Elements(r.members) == NameSet(c) && Distinct(r.members)
    case None => r == Answer(false, [])
  }

  lemma {:induction false} DistinctSize(p: seq<string>)
    requires Distinct(p)
    ensures |Elements(p)| == |p|
  {
    if p != [] {
      DistinctSize(p[1..]);
      assert Elements(p) == Elements(p[1..]) + {p[0]};
      assert p[0] !in Elements(p[1..]);
    }
  }

  /** With distinct vertex names, the names at increasing positions are
      distinct. */
  lemma PickedDistinct(vs: seq<Vertex>, idx: seq<int>)
    requires DistinctNames(vs) && Increasing(idx) && Below(idx, |vs|)
    ensures Distinct(Names(Pick(vs, idx)))
  {
  }

  lemma NameSetIsElements(c: seq<Vertex>)
    ensures NameSet(c) == Elements(Names(c))
  {
    forall x | x in NameSet(c) ensures x in Elements(Names(c)) {
      var v :| v in c && v.name == x;
      var i :| 0 <= i < |c| && c[i] == v;
      assert Names(c)[i] == x;
    }
  }

  /** A list of the distinct names of k vertices with distinct names has
      k entries. */
  lemma CoverSize(vs: seq<Vertex>, idx: seq<int>, members: seq<string>)
    requires DistinctNames(vs) && Increasing(idx) && Below(idx, |vs|)
    requires Elements(members) == NameSet(Pick(vs, idx)) && Distinct(members)
    ensures |members| == |idx|
  {
    PickedDistinct(vs, idx);
    NameSetIsElements(Pick(vs, idx));
    DistinctSize(Names(Pick(vs, idx)));
    DistinctSize(members);
  }

  /** The listed names of a covering k-combination cover every edge, are
      the names of k chosen positions, and number k when vertex names are
      distinct. */
  lemma CoverFound(vs: seq<Vertex>, es: seq<Edge>, k: nat, c: seq<Vertex>, members: seq<string>)
    requires c in Combinations(vs, k) && Covers(es, NameSet(c))
    requires Elements(members) == NameSet(c) && Distinct(members)
    ensures Covers(es, Elements(members))
    ensures exists idx :: Chosen(idx, k, |vs|) && Elements(members) == NameSet(Pick(vs, idx))
    ensures DistinctNames(vs) ==> |members| == k
  {
    CombinationsSound(vs, k, c);
    var idx :| Increasing(idx) && |idx| == k && Below(idx, |vs|) && c == Pick(vs, idx);
    assert Chosen(idx, k, |vs|);
    if DistinctNames(vs) {
      CoverSize(vs, idx, members);
    }
  }

  /** Vertex Cover: a witness covers every edge and is the name set of a
      k-combination (of exactly k names when the vertex names are
      distinct); no is answered only when no k-combination covers. */
  lemma VertexCoverCorrect(vs: seq<Vertex>, es: seq<Edge>, k: nat, r: Answer)
    requires CoverAnswer(vs, es, k, r)
    ensures k > |vs| ==> r == Answer(false, [])
    ensures r.found ==> Covers(es, Elements(r.members))
                        && exists idx :: Chosen(idx, k, |vs|) && Elements(r.members) == NameSet(Pick(vs, idx))
    ensures r.found && DistinctNames(vs) ==> |r.members| == k
    ensures !r.found ==> r.members == []
                         && forall idx :: Chosen(idx, k, |vs|) ==> !Covers(es, NameSet(Pick(vs, idx)))
  {
    var cs := Combinations(vs, k);
    var first := FirstFrom(cs, c => Covers(es, NameSet(c)), 0);
    if first.Some? {
      var c := cs[first.value];
      assert CoverChoice(vs, es, k) == Some(c);
      CoverFound(vs, es, k, c, r.members);
    } else {
      forall idx | Chosen(idx, k, |vs|) ensures !Covers(es, NameSet(Pick(vs, idx))) {
        CombinationsComplete(vs, k, idx);
      }
    }
  }

  /** The loop of np_problems.py:83-85 over the orderings of `names`. */
  function PathSearch(adj: SetAdj, names: seq<string>): Answer {
    var ps := Permutations(names);
    match FirstFrom(ps, p => IsPath(adj, p), 0)
    case Some(i) => Answer(true, ps[i])
    case None => Answer(false, [])
  }

  /** `HamiltonianPathSolver.compute(k, directed)`, as a value; `k` plays no
      part. */
  function HamiltonianPathAnswer(vs: seq<Vertex>, es: seq<Edge>, directed: bool): Answer {
    if |vs| < 2 then Answer(false, [])
    else PathSearch(NameAdj(vs, es, directed), Names(vs))
  }

  lemma RearrangedVertices(vs: seq<Vertex>, p: seq<string>)
    requires multiset(p) == multiset(Names(vs))
    ensures AllVertices(vs, p)
  {
    forall i | 0 <= i < |p| ensures p[i] in NameSet(vs) {
      assert p[i] in multiset(Names(vs));
      var j :| 0 <= j < |vs| && Names(vs)[j] == p[i];
      assert vs[j] in vs;
    }
  }

  /** Hamiltonian Path: fewer than two vertices answer no; a witness is an
      ordering of all vertex names with an edge from each to the next
      (respecting direction when directed); no is answered only when no
      ordering qualifies. */
  lemma HamiltonianPathCorrect(vs: seq<Vertex>, es: seq<Edge>, directed: bool)
    ensures var r := HamiltonianPathAnswer(vs, es, directed);
            && (|vs| < 2 ==> r == Answer(false, []))
            && (r.found ==> |vs| >= 2 && multiset(r.members) == multiset(Names(vs))
                            && ConsecutiveJoined(es, r.members, directed))
            && (!r.found ==> r.members == []
                             && (|vs| >= 2 ==> forall p :: multiset(p) == multiset(Names(vs))
                                                         ==> !ConsecutiveJoined(es, p, directed)))
  {
    if |vs| >= 2 {
      var adj := NameAdj(vs, es, directed);
      var ps := Permutations(Names(vs));
      var first := FirstFrom(ps, p => IsPath(adj, p), 0);
      if first.Some? {
        var i := first.value;
        PermutationsSound(Names(vs), ps[i]);
        RearrangedVertices(vs, ps[i]);
        IsPathMeans(vs, es, ps[i], directed);
      } else {
        forall p | multiset(p) == multiset(Names(vs)) ensures !ConsecutiveJoined(es, p, directed) {
          PermutationsComplete(Names(vs), p);
          RearrangedVertices(vs, p);
          IsPathMeans(vs, es, p, directed);
        }
      }
    }
  }

  /** `list(cover)`: the members of a set, each once, in an order the model
      leaves open. */
  method ListOf(s: set<string>) returns (r: seq<string>)
    ensures Elements(r) == s && Distinct(r)
  {
    r := [];
    var rest := s;
    while rest != {}
      invariant Elements(r) + rest == s && Elements(r) !! rest && Distinct(r)
      decreases rest
    {
      var x :| x in rest;
      ElementsAppend(r, [x]);
      r := r + [x];
      rest := rest - {x};
    }
  }

  /** `IndependentSetSolver.compute`. */
  method ComputeIndependentSet(vs: seq<Vertex>, es: seq<Edge>, k: nat, directed: bool) returns (r: Answer)
    requires EndsKnown(vs, es)
    ensures r == IndependentSetAnswer(vs, es, k, directed)
  {
    var adj := BuildAdj(vs, es, directed);
    AdjOfIsNameAdj(adj, vs, es, directed);
    r := IndependentSearch(adj, vs, k);
  }

  /** `CliqueSolver.compute`. */
  method ComputeClique(vs: seq<Vertex>, es: seq<Edge>, k: nat, directed: bool) returns (r: Answer)
    requires EndsKnown(vs, es)
    ensures r == CliqueAnswer(vs, es, k, directed)
  {
    var adj := BuildAdj(vs, es, directed);
    AdjOfIsNameAdj(adj, vs, es, directed);
    r := CliqueSearch(adj, vs, k);
  }

  /** `VertexCoverSolver.compute`: no adjacency is built, so no endpoint is
      looked up and every edge list is accepted. */
  method ComputeVertexCover(vs: seq<Vertex>, es: seq<Edge>, k: nat) returns (r: Answer)
    ensures CoverAnswer(vs, es, k, r)
  {
    var choice := CoverChoice(vs, es, k);
    if choice.Some? {
      var members := ListOf(NameSet(choice.value));
      r := Answer(true, members);
    } else {
      r := Answer(false, []);
    }
  }

  /** `HamiltonianPathSolver.compute`: the size test comes before the
      adjacency is built. */
  method ComputeHamiltonianPath(vs: seq<Vertex>, es: seq<Edge>, directed: bool) returns (r: Answer)
    requires |vs| < 2 || EndsKnown(vs, es)
    ensures r == HamiltonianPathAnswer(vs, es, directed)
  {
    if |vs| < 2 {
      return Answer(false, []);
    }
    var adj := BuildAdj(vs, es, directed);
    AdjOfIsNameAdj(adj, vs, es, directed);
    r := PathSearch(adj, Names(vs));
  }

  /** The four solver classes of np_problems.py. */
  datatype Problem = IndependentSet | Clique | VertexCover | HamiltonianPath

  /** The `name` each solver passes to `NPProblem.__init__`. */
  function Title(p: Problem): string {
    match p
    case IndependentSet => "INDEPENDENT-SET"
    case Clique => "CLIQUE"
    case VertexCover => "VERTEX-COVER"
    case HamiltonianPath => "HAMPATH"
  }

  /** What `compute` needs to run without an exception: a non-negative `k`
      for the combination searches (`itertools.combinations` rejects a
      negative one), and known endpoints wherever an adjacency is built. */
  predicate Computable(p: Problem, vs: seq<Vertex>, es: seq<Edge>, k: int) {
    match p
    case IndependentSet => k >= 0 && EndsKnown(vs, es)
    case Clique => k >= 0 && EndsKnown(vs, es)
    case VertexCover => k >= 0
    case HamiltonianPath => |vs| < 2 || EndsKnown(vs, es)
  }

  /** `r` is an answer `compute(k, directed)` of problem `p` may return. */
  ghost predicate Solves(p: Problem, vs: seq<Vertex>, es: seq<Edge>, k: int, directed: bool, r: Answer) {
    match p
    case IndependentSet => k >= 0 && r == IndependentSetAnswer(vs, es, k, directed)
    case Clique => k >= 0 && r == CliqueAnswer(vs, es, k, directed)
    case VertexCover => k >= 0 && CoverAnswer(vs, es, k, r)
    case HamiltonianPath => r == HamiltonianPathAnswer(vs, es, directed)
  }

  class NPProblem {
    const problem: Problem
    const name: string
    var vertices: seq<Vertex>
    var edges: seq<Edge>
    var k: Option<int>
    var result: Answer
    var needsUpdate: bool

    /** `NPProblem.__init__` through a solver's `__init__`: no `k` yet,
        the result `(False, [])`, dirty. */
    constructor (problem: Problem, vertices: seq<Vertex>, edges: seq<Edge>)
      ensures this.problem == problem && name == Title(problem)
      ensures this.vertices == vertices && this.edges == edges
      ensures k == None && result == Answer(false, []) && needsUpdate
    {
      this.problem := problem;
      name := Title(problem);
      this.vertices := vertices;
      this.edges := edges;
      k := None;
      result := Answer(false, []);
      needsUpdate := true;
    }

    /** The solver's `compute(k, directed)` on the current graph. */
    method Compute(k: int, directed: bool) returns (r: Answer)
      requires Computable(problem, vertices, edges, k)
      ensures Solves(problem, vertices, edges, k, directed, r)
    {
      match problem
      case IndependentSet => r := ComputeIndependentSet(vertices, edges, k, directed);
      case Clique => r := ComputeClique(vertices, edges, k, directed);
      case VertexCover => r := ComputeVertexCover(vertices, edges, k);
      case HamiltonianPath => r := ComputeHamiltonianPath(vertices, edges, directed);
    }

    /** `update(k, directed)`: recompute exactly when dirty or when `k`
        differs from the cached one; then remember `k` and clear the flag. */
    method Update(k: int, directed: bool)
      requires needsUpdate || this.k != Some(k) ==> Computable(problem, vertices, edges, k)
      modifies this
      ensures vertices == old(vertices) && edges == old(edges)
      ensures old(needsUpdate) || old(this.k) != Some(k) ==>
                && this.k == Some(k) && !needsUpdate
                && Solves(problem, vertices, edges, k, directed, result)
      ensures !old(needsUpdate) && old(this.k) == Some(k) ==>
                && this.k == old(this.k) && result == old(result) && !needsUpdate
    {
      if needsUpdate || this.k != Some(k) {
        this.k := Some(k);
        result := Compute(k, directed);
        needsUpdate := false;
      }
    }
  }

  /** `get_all_problems`: one fresh solver of each kind, all sharing the
      graph. */
  method GetAllProblems(vertices: seq<Vertex>, edges: seq<Edge>) returns (ps: seq<NPProblem>)
    ensures |ps| == 4
    ensures ps[0].problem == IndependentSet && ps[1].problem == Clique
    ensures ps[2].problem == VertexCover && ps[3].problem == HamiltonianPath
    ensures forall p :: p in ps ==> fresh(p) && p.vertices == vertices && p.edges == edges
                                    && p.k == None && p.result == Answer(false, []) && p.needsUpdate
  {
    var a := new NPProblem(IndependentSet, vertices, edges);
    var b := new NPProblem(Clique, vertices, edges);
    var c := new NPProblem(VertexCover, vertices, edges);
    var d := new NPProblem(HamiltonianPath, vertices, edges);
    ps := [a, b, c, d];
  }

  /** `mark_all_problems_dirty`: every solver is marked dirty, and nothing
      else changes. */
  method MarkAllProblemsDirty(ps: seq<NPProblem>)
    modifies set p | p in ps
    ensures forall p :: p in ps ==> p.needsUpdate
    ensures forall p :: p in ps ==> && p.vertices == old(p.vertices) && p.edges == old(p.edges)
                                    && p.k == old(p.k) && p.result == old(p.result)
  {
    for i := 0 to |ps|
      invariant forall j :: 0 <= j < i ==> ps[j].needsUpdate
      invariant forall p :: p in ps ==> && p.vertices == old(p.vertices) && p.edges == old(p.edges)
                                        && p.k == old(p.k) && p.result == old(p.result)
    {
      ps[i].needsUpdate := true;
    }
  }
}
