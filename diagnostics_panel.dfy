/** The `GraphDiagnostics` object of diagnostics.py: it keeps the graph's
    vertices and edges, a dirty flag, and the three facts shown on the
    panel, recomputed by `update` only when the flag is set. */
module DiagnosticsPanel {
  import opened Common
  import opened GraphModel
  import opened Diagnostics
  import opened StrongComponents

  /** The `info` dictionary: "Cyclic", "Strongly Connected Components" and
      "Components". */
  datatype Info = Info(cyclic: bool, scc: nat, components: nat)

  /** What `update(directed)` stores in `info` for the adjacency `adj` built
      from `vs`: a cycle of the kind the mode means, one count per search
      of `_component_count` in vertex order, and the number of strongly
      connected components when directed (the component count otherwise). */
  ghost predicate Computed(info: Info, adj: SetAdj, vs: seq<Vertex>, directed: bool) {
    && (info.cyclic <==> if directed then HasDirectedCycle(adj) else HasUndirectedCycle(adj))
    && info.components == CountRoots(adj, Names(vs))
    && info.scc == if directed then SccCount(adj) else info.components
  }

  /** The dictionary keys of `_build_adj` come in vertex order. */
  lemma NamesAreKeys(vs: seq<Vertex>, adj: SetAdj)
    requires adj.Keys == NameSet(vs)
    ensures forall k :: k in Names(vs) <==> k in adj
  {
    NamesListed(vs);
  }

  /** For an undirected graph both counts are the number of connected
      components, whatever order the vertices are listed in. */
  lemma UndirectedInfo(info: Info, adj: SetAdj, vs: seq<Vertex>, es: seq<Edge>)
    requires EndsKnown(vs, es) && AdjOf(adj, vs, es, false) && Computed(info, adj, vs, false)
    ensures info.components == SccCount(adj) && info.scc == info.components
  {
    UndirectedAdjSymmetric(adj, vs, es);
    NamesAreKeys(vs, adj);
    UndirectedComponents(adj, Names(vs));
  }

  class GraphDiagnostics {
    var needsUpdate: bool
    var vertices: seq<Vertex>
    var edges: seq<Edge>
    var info: Info
    var adj: SetAdj
    var revAdj: Option<SetAdj>

    /** `__init__`: dirty, with every fact at its resting value. */
    constructor (vertices: seq<Vertex>, edges: seq<Edge>)
      ensures needsUpdate && this.vertices == vertices && this.edges == edges
      ensures info == Info(false, 0, 0) && adj == map[] && revAdj == None
    {
      needsUpdate := true;
      this.vertices := vertices;
      this.edges := edges;
      info := Info(false, 0, 0);
      adj := map[];
      revAdj := None;
    }

    /** `update(directed)`: nothing when clean; otherwise rebuild both
        adjacencies and recompute the three facts, then clear the flag. */
    method Update(directed: bool)
      requires EndsKnown(vertices, edges)
      modifies this
      ensures vertices == old(vertices) && edges == old(edges)
      ensures !old(needsUpdate) ==> && !needsUpdate && info == old(info)
                                    && adj == old(adj) && revAdj == old(revAdj)
      ensures old(needsUpdate) ==> && !needsUpdate && AdjOf(adj, vertices, edges, directed)
                                   && (if directed then revAdj.Some? && RevOf(revAdj.value, vertices, edges)
                                       else revAdj == None)
                                   && Computed(info, adj, vertices, directed)
    {
      if !needsUpdate {
        return;
      }
      needsUpdate := false;
      var a := BuildAdj(vertices, edges, directed);
      adj := a;
      AdjOfClosed(a, vertices, edges, directed);
      NamesAreKeys(vertices, a);
      var keys := Names(vertices);
      var r: SetAdj := map[];
      if directed {
        r := BuildAdjReverse(vertices, edges);
        revAdj := Some(r);
      } else {
        revAdj := None;
      }
      var cyclic;
      if directed {
        cyclic := DirectedHasCycle(a, keys);
      } else {
        UndirectedAdjSymmetric(a, vertices, edges);
        cyclic := UndirectedHasCycle(a, keys);
      }
      var components := ComponentCount(a, keys);
      var scc := components;
      if directed {
        ReverseIsTranspose(a, r, vertices, edges);
        RevOfClosed(r, vertices, edges);
        scc := StronglyConnectedComponents(a, r, keys);
      }
      info := Info(cyclic, scc, components);
    }

    /** `mark_dirty()`. */
    method MarkDirty()
      modifies this
      ensures needsUpdate
      ensures vertices == old(vertices) && edges == old(edges) && info == old(info)
      ensures adj == old(adj) && revAdj == old(revAdj)
    {
      needsUpdate := true;
    }
  }
}
