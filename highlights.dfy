/** main.py: the rules that mark vertices and edges for display from a solver's
    answer, and the rule for adding an edge by clicking two vertices. */
module Highlights {
  import opened Common
  import opened GraphModel

  predicate AllPairs(items: seq<Item>) {
    forall k :: 0 <= k < |items| ==> items[k].Pair?
  }

  /** One character of a string literal as Python's `repr` writes it inside
      quotes `q`: a backslash, the quote itself and the three common control
      characters are escaped. */
  function EscapeChar(c: char, q: char): string {
    if c == '\\' then "\\\\"
    else if c == q then ['\\', q]
    else if c == '\n' then "\\n"
    else if c == '\r' then "\\r"
    else if c == '\t' then "\\t"
    else [c]
  }

  function Escape(s: string, q: char): string {
    if s == [] then [] else EscapeChar(s[0], q) + Escape(s[1..], q)
  }

  /** `repr` of a string: double quotes when it holds a single quote and no
      double quote, single quotes otherwise. */
  function Quoted(s: string): string {
    var q := if '\'' in s && '"' !in s then '"' else '\'';
    [q] + Escape(s, q) + [q]
  }

  /** `str` of an answer element: a name is itself, a pair is the text of a
      tuple of two strings, `('a', 'b')`. */
  function ItemText(item: Item): string {
    match item
    case Name(n) => n
    case Pair(a, b) => "(" + Quoted(a) + ", " + Quoted(b) + ")"
  }

  /** `apply_highlights` lights a vertex when the answer is a non-empty list
      that is not made only of pairs and one of whose elements has the vertex's
      name as its `str`. */
  predicate VertexLit(items: seq<Item>, name: string) {
    items != [] && !AllPairs(items) && exists k :: 0 <= k < |items| && ItemText(items[k]) == name
  }

  /** `apply_highlights` lights an edge when the answer is a non-empty list of
      pairs one of which joins the edge's endpoints, in either order. */
  predicate EdgeLit(items: seq<Item>, e: Edge) {
    items != [] && AllPairs(items)
    && exists k :: 0 <= k < |items| && SamePair(e.start, e.end, items[k].a, items[k].b)
  }

  /** The normalised keys of the answer's pairs, `edge_set`. */
  function LinkKeys(items: seq<Item>): set<(string, string)>
    requires AllPairs(items)
  {
    set k | 0 <= k < |items| :: PairKey(items[k].a, items[k].b)
  }

  /** The `str` of every element of the answer, `name_set`; pairs included. */
  function ItemNames(items: seq<Item>): set<string> {
    set k | 0 <= k < |items| :: ItemText(items[k])
  }

  /** A pair's text opens with a parenthesis, so a name that does not is lit
      exactly when the answer lists it as a name. */
  lemma PlainNameLit(items: seq<Item>, name: string)
    requires name == [] || name[0] != '('
    ensures VertexLit(items, name) <==>
      items != [] && !AllPairs(items) && exists k :: 0 <= k < |items| && items[k] == Name(name)
  {
    if VertexLit(items, name) {
      var k :| 0 <= k < |items| && ItemText(items[k]) == name;
      assert items[k] == Name(name);
    }
  }

  /** A path answer `[("A", "B"), "A", "B"]` lights a vertex named
      `('A', 'B')` as well as `A` and `B`. */
  lemma PairTextLit()
    ensures VertexLit([Pair("A", "B"), Name("A"), Name("B")], "('A', 'B')")
    ensures VertexLit([Pair("A", "B"), Name("A"), Name("B")], "A")
    ensures !VertexLit([Pair("A", "B"), Name("A"), Name("B")], "C")
  {
    var items := [Pair("A", "B"), Name("A"), Name("B")];
    assert Escape("A", '\'') == "A";
    assert Escape("B", '\'') == "B";
    assert ItemText(items[0]) == "('A', 'B')";
    assert ItemText(items[1]) == "A";
  }

  /** `apply_highlights(elements, vertices, edges)`: every flag is cleared, then
      either the named vertices or the edges of the listed pairs are lit. */
  method ApplyHighlights(g: Store, items: seq<Item>)
    modifies g
    ensures |g.vertices| == |old(g.vertices)| && |g.edges| == |old(g.edges)|
    ensures forall i :: 0 <= i < |g.vertices| ==>
      g.vertices[i] == old(g.vertices)[i].(highlight := VertexLit(items, old(g.vertices)[i].name))
    ensures forall i :: 0 <= i < |g.edges| ==>
      g.edges[i] == old(g.edges)[i].(highlight := EdgeLit(items, old(g.edges)[i]))
  {
    var vs := g.vertices;
    var es := g.edges;
    for i := 0 to |vs|
      invariant |vs| == |old(g.vertices)|
      invariant forall j :: 0 <= j < |vs| ==>
        vs[j] == if j < i then old(g.vertices)[j].(highlight := false) else old(g.vertices)[j]
    {
      vs := vs[i := vs[i].(highlight := false)];
    }
    for i := 0 to |es|
      invariant |es| == |old(g.edges)|
      invariant forall j :: 0 <= j < |es| ==>
        es[j] == if j < i then old(g.edges)[j].(highlight := false) else old(g.edges)[j]
    {
      es := es[i := es[i].(highlight := false)];
    }
    if items == [] {
      g.vertices, g.edges := vs, es;
      return;
    }
    if forall k :: 0 <= k < |items| ==> items[k].Pair? {
      var keys := LinkKeys(items);
      for i := 0 to |es|
        invariant |es| == |old(g.edges)|
        invariant forall j :: 0 <= j < |es| ==>
          es[j] == old(g.edges)[j].(highlight := j < i && EdgeLit(items, old(g.edges)[j]))
      {
        var e := es[i];
        if PairKey(e.start, e.end) in keys {
          var k :| 0 <= k < |items| && PairKey(items[k].a, items[k].b) == PairKey(e.start, e.end);
          PairKeyEqual(e.start, e.end, items[k].a, items[k].b);
          es := es[i := e.(highlight := true)];
        } else {
          forall k | 0 <= k < |items|
            ensures !SamePair(e.start, e.end, items[k].a, items[k].b)
          {
            PairKeyEqual(e.start, e.end, items[k].a, items[k].b);
          }
        }
      }
    } else {
      var names := ItemNames(items);
      for i := 0 to |vs|
        invariant |vs| == |old(g.vertices)|
        invariant forall j :: 0 <= j < |vs| ==>
          vs[j] == old(g.vertices)[j].(highlight := j < i && VertexLit(items, old(g.vertices)[j].name))
      {
        vs := vs[i := vs[i].(highlight := vs[i].name in names)];
      }
    }
    g.vertices, g.edges := vs, es;
  }

  predicate IsWalkProblem(problem: string) {
    problem == "HAMPATH" || problem == "HAMCYCLE" || problem == "LONGEST-PATH"
  }

  /** Edge `e` joins the k-th and (k+1)-th members of a walk, in either order. */
  predicate JoinsStep(e: Edge, members: seq<string>, k: int)
    requires 0 <= k < |members| - 1
  {
    SamePair(e.start, e.end, members[k], members[k + 1])
  }

  /** Edge `e` joins one of the first n consecutive pairs of the walk. */
  predicate JoinsSomeStep(e: Edge, members: seq<string>, n: int)
    requires n <= |members| - 1
  {
    exists k :: 0 <= k < n && JoinsStep(e, members, k)
  }

  /** The edges `highlight_edges` lights for a walk answer: the edges between
      consecutive members, and for HAMCYCLE the closing edge from the last
      member back to the first. */
  predicate OnWalk(problem: string, members: seq<string>, e: Edge) {
    IsWalkProblem(problem) && |members| > 1
    && (JoinsSomeStep(e, members, |members| - 1)
        || (problem == "HAMCYCLE" && SamePair(e.start, e.end, members[|members| - 1], members[0])))
  }

  /** `highlight_edges(hovered_problem, members, edges)`: lights the walk's
      edges and leaves every other flag as it was. */
  method HighlightEdges(g: Store, problem: string, members: seq<string>)
    modifies g`edges
    ensures |g.edges| == |old(g.edges)|
    ensures forall i :: 0 <= i < |g.edges| ==>
      g.edges[i] == old(g.edges)[i].(highlight := old(g.edges)[i].highlight || OnWalk(problem, members, old(g.edges)[i]))
  {
    if !(IsWalkProblem(problem) && |members| > 1) {
      return;
    }
    var es := g.edges;
    for k := 0 to |members| - 1
      invariant |es| == |old(g.edges)|
      invariant forall j :: 0 <= j < |es| ==>
        es[j] == old(g.edges)[j].(highlight := old(g.edges)[j].highlight || JoinsSomeStep(old(g.edges)[j], members, k))
    {
      var u, v := members[k], members[k + 1];
      for j := 0 to |es|
        invariant |es| == |old(g.edges)|
        invariant forall i :: 0 <= i < |es| ==>
          es[i] == old(g.edges)[i].(highlight := old(g.edges)[i].highlight
            || JoinsSomeStep(old(g.edges)[i], members, if i < j then k + 1 else k))
      {
        SamePairSets(es[j].start, es[j].end, u, v);
        assert JoinsSomeStep(old(g.edges)[j], members, k + 1)
          <==> JoinsSomeStep(old(g.edges)[j], members, k) || JoinsStep(old(g.edges)[j], members, k);
        if {es[j].start, es[j].end} == {u, v} {
          es := es[j := es[j].(highlight := true)];
        }
      }
    }
    if problem == "HAMCYCLE" {
      var u, v := members[|members| - 1], members[0];
      for j := 0 to |es|
        invariant |es| == |old(g.edges)|
        invariant forall i :: 0 <= i < |es| ==>
          es[i] == old(g.edges)[i].(highlight := old(g.edges)[i].highlight
            || JoinsSomeStep(old(g.edges)[i], members, |members| - 1)
            || (i < j && SamePair(old(g.edges)[i].start, old(g.edges)[i].end, u, v)))
      {
        SamePairSets(es[j].start, es[j].end, u, v);
        if {es[j].start, es[j].end} == {u, v} {
          es := es[j := es[j].(highlight := true)];
        }
      }
    }
    g.edges := es;
  }

  /** Edge `e` is the pair (a, b): in that direction when the graph is
      directed, in either direction otherwise. */
  predicate LinkMatches(e: Edge, a: string, b: string, directed: bool) {
    if directed then e.start == a && e.end == b else SamePair(e.start, e.end, a, b)
  }

  /** Edge `e` is one of the pairs among the first n answer items. */
  predicate ListedLink(e: Edge, members: seq<Item>, n: int, directed: bool)
    requires n <= |members|
  {
    exists k :: 0 <= k < n && members[k].Pair? && LinkMatches(e, members[k].a, members[k].b, directed)
  }

  /** `highlight_edges_for_algorithms(members, edges, directed)`: lights the
      edges listed as pairs in the answer (vertex names are ignored) and leaves
      every other flag as it was. */
  method HighlightEdgesForAlgorithms(g: Store, members: seq<Item>, directed: bool)
    modifies g`edges
    ensures |g.edges| == |old(g.edges)|
    ensures forall i :: 0 <= i < |g.edges| ==>
      g.edges[i] == old(g.edges)[i].(highlight := old(g.edges)[i].highlight
        || ListedLink(old(g.edges)[i], members, |members|, directed))
  {
    var es := g.edges;
    for k := 0 to |members|
      invariant |es| == |old(g.edges)|
      invariant forall j :: 0 <= j < |es| ==>
        es[j] == old(g.edges)[j].(highlight := old(g.edges)[j].highlight || ListedLink(old(g.edges)[j], members, k, directed))
    {
      if members[k].Pair? {
        var u, v := members[k].a, members[k].b;
        for j := 0 to |es|
          invariant |es| == |old(g.edges)|
          invariant forall i :: 0 <= i < |es| ==>
            es[i] == old(g.edges)[i].(highlight := old(g.edges)[i].highlight
              || ListedLink(old(g.edges)[i], members, if i < j then k + 1 else k, directed))
        {
          SamePairSets(es[j].start, es[j].end, u, v);
          assert ListedLink(old(g.edges)[j], members, k + 1, directed)
            <==> ListedLink(old(g.edges)[j], members, k, directed) || LinkMatches(old(g.edges)[j], u, v, directed);
          if directed {
            if es[j].start == u && es[j].end == v {
              es := es[j := es[j].(highlight := true)];
            }
          } else if {es[j].start, es[j].end} == {u, v} {
            es := es[j := es[j].(highlight := true)];
          }
        }
      } else {
        forall i | 0 <= i < |es|
          ensures ListedLink(old(g.edges)[i], members, k + 1, directed) == ListedLink(old(g.edges)[i], members, k, directed)
        {
          if ListedLink(old(g.edges)[i], members, k + 1, directed) {
            var k' :| 0 <= k' < k + 1 && members[k'].Pair? && LinkMatches(old(g.edges)[i], members[k'].a, members[k'].b, directed);
            assert k' < k;
          }
        }
      }
    }
    g.edges := es;
  }

  /** Some existing edge already joins `s` to `c`: in that direction when the
      graph is directed, in either direction otherwise. */
  predicate EdgeAlreadyThere(es: seq<Edge>, s: string, c: string, directed: bool) {
    exists i :: 0 <= i < |es| && LinkMatches(es[i], s, c, directed)
  }

  /** The edge-add rule of the main loop, for a click on vertex `clicked` while
      `selected` is the selected vertex (if any). Clicking the selected vertex
      unselects it; with nothing selected the click selects. Otherwise, when no
      edge joins the two yet, an edge with weight "1" is appended unless the
      edge limit is reached, and the selection is dropped; when the edge exists
      the click just moves the selection. `added` is true exactly when an edge
      was appended, which is when the solvers are marked dirty. */
  method ClickVertex(g: Store, selected: Option<string>, clicked: string, directed: bool, edgeLimit: int)
    returns (newSelected: Option<string>, added: bool)
    modifies g`edges
    ensures selected == Some(clicked) ==> newSelected == None && !added && g.edges == old(g.edges)
    ensures selected == None ==> newSelected == Some(clicked) && !added && g.edges == old(g.edges)
    ensures selected.Some? && selected.value != clicked && EdgeAlreadyThere(old(g.edges), selected.value, clicked, directed) ==>
      newSelected == Some(clicked) && !added && g.edges == old(g.edges)
    ensures selected.Some? && selected.value != clicked && !EdgeAlreadyThere(old(g.edges), selected.value, clicked, directed) ==>
      newSelected == None
      && (added <==> |old(g.edges)| < edgeLimit)
      && g.edges == old(g.edges) + (if added then [Edge(selected.value, clicked, Number(1), false)] else [])
  {
    added := false;
    if selected == Some(clicked) {
      newSelected := None;
    } else if selected.Some? {
      var s := selected.value;
      var es := g.edges;
      var already := false;
      for i := 0 to |es|
        invariant g.edges == es == old(g.edges)
        invariant already <==> EdgeAlreadyThere(es[..i], s, clicked, directed)
      {
        SamePairSets(es[i].start, es[i].end, s, clicked);
        assert es[..i + 1] == es[..i] + [es[i]];
        if directed {
          already := already || (es[i].start == s && es[i].end == clicked);
        } else {
          already := already || {es[i].start, es[i].end} == {s, clicked};
        }
      }
      assert es[..|es|] == es;
      if !already {
        if |g.edges| < edgeLimit {
          g.edges := g.edges + [Edge(s, clicked, Number(1), false)];
          added := true;
        }
        newSelected := None;
      } else {
        newSelected := Some(clicked);
      }
    } else {
      newSelected := Some(clicked);
    }
  }
}
