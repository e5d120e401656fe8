/** graph.py: the normalised edge lookup used to refuse duplicate undirected
    edges, and duplication of the whole graph beside itself. */
module GraphOps {
  import opened Common
  import opened GraphModel

  /** `rebuild_edge_lookup`: the set of normalised endpoint pairs of the edges. */
  function RebuildEdgeLookup(es: seq<Edge>): (lookup: set<(string, string)>)
    ensures forall e :: e in es ==> PairKey(e.start, e.end) in lookup
    ensures forall k :: k in lookup ==> exists e :: e in es && k == PairKey(e.start, e.end)
  {
    set e | e in es :: PairKey(e.start, e.end)
  }

  /** `edge_exists(v1, v2, lookup)`: is the normalised pair in the lookup? */
  predicate EdgeExists(v1: string, v2: string, lookup: set<(string, string)>) {
    PairKey(v1, v2) in lookup
  }

  /** Against a rebuilt lookup, `edge_exists` holds exactly when some edge joins
      the two names in either direction, so it is symmetric. */
  lemma EdgeExistsIff(es: seq<Edge>, v1: string, v2: string)
    ensures EdgeExists(v1, v2, RebuildEdgeLookup(es))
        <==> exists e :: e in es && SamePair(e.start, e.end, v1, v2)
    ensures EdgeExists(v1, v2, RebuildEdgeLookup(es)) == EdgeExists(v2, v1, RebuildEdgeLookup(es))
  {
    PairKeySymmetric(v1, v2);
    forall e | e in es
      ensures PairKey(e.start, e.end) == PairKey(v1, v2) <==> SamePair(e.start, e.end, v1, v2)
    {
      PairKeyEqual(e.start, e.end, v1, v2);
    }
  }

  /** The string of `n` apostrophes. */
  function Ticks(n: nat): (t: string)
    ensures |t| == n && forall j :: 0 <= j < n ==> t[j] == '\''
  {
    if n == 0 then "" else Ticks(n - 1) + "'"
  }

  /** `dup` is the duplicate of `v`: its name followed by one or more
      apostrophes, its position shifted by the offset, not highlighted. */
  predicate IsCopy(v: Vertex, dup: Vertex, dx: int, dy: int) {
    && |dup.name| > |v.name|
    && dup.name == v.name + Ticks(|dup.name| - |v.name|)
    && dup.x == v.x + dx && dup.y == v.y + dy
    && !dup.highlight
  }

  /** The edges appended in the copy loop: for each edge whose endpoints are
      both original names, an edge between their duplicates with the same value. */
  function CopiedEdges(es: seq<Edge>, nameMap: map<string, string>): (r: seq<Edge>)
    ensures |r| <= |es|
    ensures forall c :: c in r ==> c.start in nameMap.Values && c.end in nameMap.Values
  {
    if es == [] then []
    else
      var e := es[0];
      (if e.start in nameMap && e.end in nameMap
       then [Edge(nameMap[e.start], nameMap[e.end], e.value, false)] else [])
      + CopiedEdges(es[1..], nameMap)
  }

  lemma {:induction false} CopiedEdgesAppend(es: seq<Edge>, e: Edge, nameMap: map<string, string>)
    ensures CopiedEdges(es + [e], nameMap)
         == CopiedEdges(es, nameMap) + CopiedEdges([e], nameMap)
  {
    if es != [] {
      assert (es + [e])[0] == es[0];
      assert (es + [e])[1..] == es[1..] + [e];
      CopiedEdgesAppend(es[1..], e, nameMap);
    }
  }

  /** In a well-formed graph every edge is copied, the i-th copy joining the
      duplicates of the i-th edge's endpoints with the same value. */
  lemma {:induction false} CopiedEdgesAll(es: seq<Edge>, nameMap: map<string, string>)
    requires forall e :: e in es ==> e.start in nameMap && e.end in nameMap
    ensures |CopiedEdges(es, nameMap)| == |es|
    ensures forall i :: 0 <= i < |es| ==>
      CopiedEdges(es, nameMap)[i] == Edge(nameMap[es[i].start], nameMap[es[i].end], es[i].value, false)
  {
    if es != [] {
      CopiedEdgesAll(es[1..], nameMap);
    }
  }

  ghost function LongNames(s: set<string>, len: nat): set<string> {
    set n | n in s && |n| >= len
  }

  lemma LongNamesShrink(s: set<string>, name: string)
    requires name in s
    ensures LongNames(s, |name| + 1) < LongNames(s, |name|)
  {
    assert name in LongNames(s, |name|) && name !in LongNames(s, |name| + 1);
  }

  /** No name strictly between `name` and `dupName` (adding fewer apostrophes)
      was free: all of them are in `taken`. */
  predicate FewestTicks(name: string, dupName: string, taken: set<string>) {
    forall len :: |name| < len < |dupName| ==> dupName[..len] in taken
  }

  /** The inner loop of `duplicate_graph`: `name + "'"`, with one more
      apostrophe while the candidate is taken. */
  method FreshName(name: string, taken: set<string>) returns (newName: string)
    ensures newName !in taken
    ensures |newName| > |name| && newName == name + Ticks(|newName| - |name|)
    ensures FewestTicks(name, newName, taken)
  {
    newName := name + "'";
    while newName in taken
      invariant |newName| > |name|
      invariant newName == name + Ticks(|newName| - |name|)
      invariant FewestTicks(name, newName, taken)
      decreases LongNames(taken, |newName|)
    {
      LongNamesShrink(taken, newName);
      ghost var before := newName;
      newName := newName + "'";
      assert newName[..|before|] == before;
      forall len | |name| < len < |newName|
        ensures newName[..len] in taken
      {
        if len < |before| {
          assert newName[..len] == before[..len];
        }
      }
    }
  }

  /** `dups` are valid duplicates of the first |dups| vertices of `vs`, each
      chosen with the fewest apostrophes among the names still free. */
  ghost predicate DuplicatesSoFar(vs: seq<Vertex>, dups: seq<Vertex>, dx: int, dy: int) {
    && |dups| <= |vs|
    && (forall j :: 0 <= j < |dups| ==> IsCopy(vs[j], dups[j], dx, dy))
    && (forall j :: 0 <= j < |dups| ==> dups[j].name !in NameSet(vs))
    && DistinctNames(dups)
    && (forall j :: 0 <= j < |dups| ==>
          FewestTicks(vs[j].name, dups[j].name, NameSet(vs) + NameSet(dups[..j])))
  }

  lemma NameSetSnoc(vs: seq<Vertex>, v: Vertex)
    ensures NameSet(vs + [v]) == NameSet(vs) + {v.name}
  {
    assert forall u :: u in vs + [v] <==> u in vs || u == v;
  }

  lemma DuplicatesStep(vs: seq<Vertex>, dups: seq<Vertex>, dx: int, dy: int, dup: Vertex)
    requires DuplicatesSoFar(vs, dups, dx, dy) && |dups| < |vs|
    requires IsCopy(vs[|dups|], dup, dx, dy)
    requires dup.name !in NameSet(vs) + NameSet(dups)
    requires FewestTicks(vs[|dups|].name, dup.name, NameSet(vs) + NameSet(dups))
    ensures DuplicatesSoFar(vs, dups + [dup], dx, dy)
  {
    var d' := dups + [dup];
    assert d'[..|dups|] == dups;
    forall j | 0 <= j < |dups| ensures dups[j].name != dup.name {
      assert dups[j] in dups;
    }
    forall j | 0 <= j < |dups|
      ensures FewestTicks(vs[j].name, d'[j].name, NameSet(vs) + NameSet(d'[..j]))
    {
      assert d'[..j] == dups[..j];
    }
  }

  /** `nameMap` sends each name of `vs` to the name of its duplicate. */
  ghost predicate MapsToDuplicates(vs: seq<Vertex>, dups: seq<Vertex>, nameMap: map<string, string>) {
    && |dups| == |vs|
    && nameMap.Keys == NameSet(vs)
    && forall j :: 0 <= j < |vs| ==> nameMap[vs[j].name] == dups[j].name
  }

  /** One more `name_map` entry, for the next vertex. */
  lemma MapsStep(vs: seq<Vertex>, i: nat, dups: seq<Vertex>, nameMap: map<string, string>, dup: Vertex)
    requires DistinctNames(vs) && i < |vs| && MapsToDuplicates(vs[..i], dups, nameMap)
    ensures MapsToDuplicates(vs[..i + 1], dups + [dup], nameMap[vs[i].name := dup.name])
  {
    assert vs[..i + 1] == vs[..i] + [vs[i]];
    NameSetSnoc(vs[..i], vs[i]);
    forall j | 0 <= j < i ensures vs[..i][j].name != vs[i].name {
      assert vs[..i][j] == vs[j];
    }
  }

  /** The first loop of `duplicate_graph`: for each vertex in order, its name
      plus the fewest apostrophes that give a name not yet taken (neither an
      original name nor an earlier duplicate), the shifted position, and the
      `name_map` entry from the original name to the duplicate's name. */
  method MakeDuplicates(vs: seq<Vertex>, dx: int, dy: int) returns (dups: seq<Vertex>, nameMap: map<string, string>)
    requires DistinctNames(vs)
    ensures |dups| == |vs| && DuplicatesSoFar(vs, dups, dx, dy)
    ensures MapsToDuplicates(vs, dups, nameMap)
  {
    var n := |vs|;
    var existing := NameSet(vs);
    dups := [];
    nameMap := map[];
    for i := 0 to n
      invariant |dups| == i
      invariant existing == NameSet(vs) + NameSet(dups)
      invariant DuplicatesSoFar(vs, dups, dx, dy)
      invariant MapsToDuplicates(vs[..i], dups, nameMap)
    {
      var newName := FreshName(vs[i].name, existing);
      var dup := Vertex(newName, vs[i].x + dx, vs[i].y + dy, false);
      DuplicatesStep(vs, dups, dx, dy, dup);
      MapsStep(vs, i, dups, nameMap, dup);
      NameSetSnoc(dups, dup);
      nameMap := nameMap[vs[i].name := newName];
      existing := existing + {newName};
      dups := dups + [dup];
    }
    assert vs[..n] == vs;
  }

  /** Every copied edge starts at the image of a name. */
  lemma {:induction false} CopiedEdgesStarts(es: seq<Edge>, nameMap: map<string, string>)
    ensures forall c :: c in CopiedEdges(es, nameMap) ==> c.start in nameMap.Values
  {
    if es != [] {
      CopiedEdgesStarts(es[1..], nameMap);
    }
  }

  /** One step of the edge loop over an original edge. */
  lemma CopyStepEarly(olde: seq<Edge>, es: seq<Edge>, i: nat, nameMap: map<string, string>)
    requires i < |olde| && es == olde + CopiedEdges(olde[..i], nameMap)
    ensures olde + CopiedEdges(olde[..i + 1], nameMap) ==
      if olde[i].start in nameMap && olde[i].end in nameMap
      then es + [Edge(nameMap[olde[i].start], nameMap[olde[i].end], olde[i].value, false)] else es
  {
    assert olde[..i + 1] == olde[..i] + [olde[i]];
    CopiedEdgesAppend(olde[..i], olde[i], nameMap);
  }

  /** The edge loop reaching an appended copy skips it. */
  lemma CopyStepLate(olde: seq<Edge>, es: seq<Edge>, i: nat, nameMap: map<string, string>)
    requires forall k :: k in nameMap.Values ==> k !in nameMap.Keys
    requires es == olde + CopiedEdges(olde, nameMap) && |olde| <= i < |es|
    ensures es[i].start !in nameMap
  {
    CopiedEdgesStarts(olde, nameMap);
    assert es[i] == CopiedEdges(olde, nameMap)[i - |olde|];
  }

  /** The second loop of `duplicate_graph`: `for e in edges`, appending to
      `edges` while iterating over it. The appended copies are reached by the
      loop too, and skipped, because no duplicate name is an original name. */
  method AppendEdgeCopies(g: Store, nameMap: map<string, string>)
    requires forall k :: k in nameMap.Values ==> k !in nameMap.Keys
    modifies g`edges
    ensures g.edges == old(g.edges) + CopiedEdges(old(g.edges), nameMap)
  {
    ghost var olde := g.edges;
    var es := g.edges;
    var e0 := |es|;
    var i := 0;
    // The iterations over the original edges.
    while i < e0
      invariant 0 <= i <= e0 <= |es|
      invariant es == olde + CopiedEdges(olde[..i], nameMap)
    {
      var e := es[i];
      CopyStepEarly(olde, es, i, nameMap);
      if e.start in nameMap && e.end in nameMap {
        es := es + [Edge(nameMap[e.start], nameMap[e.end], e.value, false)];
      }
      i := i + 1;
    }
    assert olde[..e0] == olde;
    // The same loop reaching the copies it appended: none of them is copied again.
    while i < |es|
      invariant e0 <= i <= |es|
      invariant es == olde + CopiedEdges(olde, nameMap)
    {
      // The test `e.start in name_map` fails here, so nothing is appended.
      CopyStepLate(olde, es, i, nameMap);
      i := i + 1;
    }
    g.edges := es;
  }

  /** `duplicate_graph(vertices, edges, offset)`: appends one duplicate per
      vertex and, for every edge between original vertices, a copy between
      the duplicates; always returns True. */
  method DuplicateGraph(g: Store, dx: int, dy: int) returns (ok: bool, nameMap: map<string, string>)
    requires DistinctNames(g.vertices)
    modifies g
    ensures ok
    ensures |g.vertices| == 2 * |old(g.vertices)|
    ensures g.vertices[..|old(g.vertices)|] == old(g.vertices)
    ensures DuplicatesSoFar(old(g.vertices), g.vertices[|old(g.vertices)|..], dx, dy)
    ensures DistinctNames(g.vertices)
    ensures MapsToDuplicates(old(g.vertices), g.vertices[|old(g.vertices)|..], nameMap)
    ensures g.edges == old(g.edges) + CopiedEdges(old(g.edges), nameMap)
  {
    var vs := g.vertices;
    var n := |vs|;
    var dups;
    dups, nameMap := MakeDuplicates(vs, dx, dy);
    DuplicatesDistinctFromOriginals(vs, dups, dx, dy);
    ValuesAreFresh(vs, dups, dx, dy, nameMap);
    g.vertices := vs + dups;
    assert g.vertices[..n] == vs && g.vertices[n..] == dups;
    AppendEdgeCopies(g, nameMap);
    ok := true;
  }

  lemma DuplicatesDistinctFromOriginals(vs: seq<Vertex>, dups: seq<Vertex>, dx: int, dy: int)
    requires DistinctNames(vs) && |dups| == |vs| && DuplicatesSoFar(vs, dups, dx, dy)
    ensures DistinctNames(vs + dups)
  {
    DistinctAppend(vs, dups);
  }

  lemma DistinctAppend(vs: seq<Vertex>, dups: seq<Vertex>)
    requires DistinctNames(vs) && DistinctNames(dups)
    requires forall j :: 0 <= j < |dups| ==> dups[j].name !in NameSet(vs)
    ensures DistinctNames(vs + dups)
  {
    var all := vs + dups;
    var n := |vs|;
    forall a, b | 0 <= a < b < |all| ensures all[a].name != all[b].name {
      if a < n && b >= n {
        assert all[b] == dups[b - n];
        assert all[a] in vs;
      } else if a >= n {
        assert all[a] == dups[a - n] && all[b] == dups[b - n];
      }
    }
  }

  lemma ValuesAreFresh(vs: seq<Vertex>, dups: seq<Vertex>, dx: int, dy: int, nameMap: map<string, string>)
    requires DuplicatesSoFar(vs, dups, dx, dy) && MapsToDuplicates(vs, dups, nameMap)
    ensures forall k :: k in nameMap.Values ==> k !in nameMap.Keys
  {
    forall k | k in nameMap.Values ensures k !in nameMap.Keys {
      var key :| key in nameMap && nameMap[key] == k;
      var j :| 0 <= j < |vs| && vs[j].name == key;
      assert dups[j].name !in NameSet(vs);
    }
  }
}
