/** The graph the engine reads: named vertices, edges between vertex names with
    an optional textual weight, and the weighted adjacency that the path and
    tree solvers are built on. */
module GraphModel {
  import opened Common

  /** An edge's `value`: absent (`None`), the text of an integer (the editor
      only ever stores `str(int(...))`), or some other text that does not parse
      as a number. */
  datatype Value = Missing | Number(n: int) | Garbage(text: string)

  /** The weight the solvers use: the number, or 1 for a missing or unparseable
      value. */
  function Weight(v: Value): int {
    match v
    case Number(n) => n
    case _ => 1
  }

  /** A vertex: its unique name, its position on the canvas and its highlight flag. */
  datatype Vertex = Vertex(name: string, x: int, y: int, highlight: bool)

  /** An edge refers to its endpoints by name; directedness is global. */
  datatype Edge = Edge(start: string, end: string, value: Value, highlight: bool)

  function Names(vs: seq<Vertex>): (r: seq<string>)
    ensures |r| == |vs|
    ensures forall i :: 0 <= i < |vs| ==> r[i] == vs[i].name
  {
    if vs == [] then [] else [vs[0].name] + Names(vs[1..])
  }

  function NameSet(vs: seq<Vertex>): set<string> {
    set v | v in vs :: v.name
  }

  /** The names in vertex order list exactly the vertex names. */
  lemma NamesListed(vs: seq<Vertex>)
    ensures forall k :: k in Names(vs) <==> k in NameSet(vs)
  {
    var ns := Names(vs);
    forall k | k in ns ensures k in NameSet(vs) {
      var i :| 0 <= i < |ns| && ns[i] == k;
      assert vs[i] in vs;
    }
    forall k | k in NameSet(vs) ensures k in ns {
      var v :| v in vs && v.name == k;
      var i :| 0 <= i < |vs| && vs[i] == v;
      assert ns[i] == k;
    }
  }

  predicate DistinctNames(vs: seq<Vertex>) {
    forall i, j :: 0 <= i < j < |vs| ==> vs[i].name != vs[j].name
  }

  /** Every edge joins two of the vertices, so looking an endpoint up in a
      dictionary keyed by vertex name never fails. */
  predicate EndsKnown(vs: seq<Vertex>, es: seq<Edge>) {
    forall e :: e in es ==> e.start in NameSet(vs) && e.end in NameSet(vs)
  }

  /** Edge `e` gives `u` the neighbour `n`: start to end, and also end to start
      when the graph is read as undirected. */
  predicate Joins(e: Edge, u: string, n: string, directed: bool) {
    (e.start == u && e.end == n) || (!directed && e.end == u && e.start == n)
  }

  /** What one edge adds to `u`'s weighted neighbour list: `(end, w)` when
      `u` is its start, then `(start, w)` when the graph is undirected and
      `u` is its end. */
  function EdgeEntries(e: Edge, u: string, directed: bool): seq<(string, int)> {
    (if e.start == u then [(e.end, Weight(e.value))] else [])
    + (if !directed && e.end == u then [(e.start, Weight(e.value))] else [])
  }

  /** The weighted neighbour list of `u`: each edge's entries, in edge order. */
  function Incident(es: seq<Edge>, u: string, directed: bool): seq<(string, int)> {
    if es == [] then [] else EdgeEntries(es[0], u, directed) + Incident(es[1..], u, directed)
  }

  /** The weighted adjacency `get_adj(directed)`: one list per vertex name. */
  function WeightedAdj(vs: seq<Vertex>, es: seq<Edge>, directed: bool): (adj: map<string, seq<(string, int)>>)
    ensures adj.Keys == NameSet(vs)
  {
    map u | u in NameSet(vs) :: Incident(es, u, directed)
  }

  /** An adjacency entry is exactly an edge joining the two names with that weight. */
  lemma {:induction false} IncidentIff(es: seq<Edge>, u: string, n: string, w: int, directed: bool)
    ensures (n, w) in Incident(es, u, directed)
        <==> exists i :: 0 <= i < |es| && Joins(es[i], u, n, directed) && Weight(es[i].value) == w
  {
    if es != [] {
      IncidentIff(es[1..], u, n, w, directed);
      var rest := Incident(es[1..], u, directed);
      if (exists i :: 0 <= i < |es[1..]| && Joins(es[1..][i], u, n, directed) && Weight(es[1..][i].value) == w) {
        var i :| 0 <= i < |es[1..]| && Joins(es[1..][i], u, n, directed) && Weight(es[1..][i].value) == w;
        assert es[i + 1] == es[1..][i];
      }
      if (exists i :: 0 <= i < |es| && Joins(es[i], u, n, directed) && Weight(es[i].value) == w) {
        var i :| 0 <= i < |es| && Joins(es[i], u, n, directed) && Weight(es[i].value) == w;
        if i > 0 { assert es[1..][i - 1] == es[i]; }
      }
    }
  }

  /** Every neighbour in the weighted adjacency of a well-formed graph is itself
      a key of the adjacency. */
  lemma {:induction false} IncidentNamesAreVertices(vs: seq<Vertex>, es: seq<Edge>, u: string, directed: bool)
    requires forall e :: e in es ==> e.start in NameSet(vs) && e.end in NameSet(vs)
    ensures forall p :: p in Incident(es, u, directed) ==> p.0 in NameSet(vs)
  {
    if es != [] {
      IncidentNamesAreVertices(vs, es[1..], u, directed);
    }
  }

  /** The vertex and edge lists the host owns and mutates in place; the
      engine's helpers receive them by reference. */
  class Store {
    var vertices: seq<Vertex>
    var edges: seq<Edge>

    constructor (vs: seq<Vertex>, es: seq<Edge>)
      ensures vertices == vs && edges == es
    {
      vertices := vs;
      edges := es;
    }
  }
}
