/** The `parent` dictionary of `KruskalSolver.run` and its two closures:
    `find`, which walks to the root halving the path on the way
    (`parent[v] = parent[parent[v]]`), and `union`, which hangs one root
    below the other. The ghost maps `root` and `rank` record each name's
    representative and a rank that grows along every parent link. */
module UnionFind {
  import opened Forests

  /** The link out of `x` stays inside the dictionary and inside one tree,
      and leads to a higher rank. */
  ghost predicate Linked<K>(parent: map<K, K>, root: map<K, K>, rank: map<K, nat>, x: K)
    requires x in parent && root.Keys == parent.Keys && rank.Keys == parent.Keys
  {
    parent[x] in parent && root[parent[x]] == root[x] && (parent[x] != x ==> rank[x] < rank[parent[x]])
  }

  /** The representative of `x` is a self-linked node, and a self-linked `x`
      is its own representative. */
  ghost predicate Represented<K>(parent: map<K, K>, root: map<K, K>, x: K)
    requires x in parent && root.Keys == parent.Keys
  {
    root[x] in parent && parent[root[x]] == root[x] && (parent[x] == x ==> root[x] == x)
  }

  /** The shape `parent` keeps: every link is `Linked`, every name is
      `Represented`, and ranks are bounded by `top`. The facts are only
      unfolded where a proof names them: a fact triggered by a bare lookup
      `parent[x]` would make a new key of `parent[x]`, and so on without end. */
  ghost predicate Valid<K>(parent: map<K, K>, root: map<K, K>, rank: map<K, nat>, top: nat) {
    && root.Keys == parent.Keys && rank.Keys == parent.Keys
    && (forall x {:trigger Linked(parent, root, rank, x)} :: x in parent ==> Linked(parent, root, rank, x))
    && (forall x {:trigger Represented(parent, root, x)} :: x in parent ==> Represented(parent, root, x))
    && (forall x {:trigger rank[x]} :: x in parent ==> rank[x] <= top)
  }

  /** `for v in self.vertices: parent[v.name] = v.name`: every name alone. */
  function Singletons<K>(names: set<K>): (parent: map<K, K>)
    ensures parent.Keys == names && forall x :: x in parent ==> parent[x] == x
  {
    map x | x in names :: x
  }

  lemma SingletonsValid<K>(names: set<K>)
    ensures Valid(Singletons(names), Singletons(names), map x | x in names :: 0, 0)
    ensures Roots(Singletons(names)) == names
  {
  }

  /** `find(v)`: follow the links to the root, linking each node visited to
      its grandparent. The root found is `v`'s representative, and every
      representative is kept. */
  method Find<K(==)>(parent: map<K, K>, ghost root: map<K, K>, ghost rank: map<K, nat>,
                     ghost top: nat, v: K)
    returns (parent': map<K, K>, r: K)
    requires Valid(parent, root, rank, top) && v in parent
    ensures Valid(parent', root, rank, top) && parent'.Keys == parent.Keys
    ensures r == root[v] && r in parent' && parent'[r] == r
  {
    parent', r := parent, v;
    while parent'[r] != r
      invariant Valid(parent', root, rank, top) && parent'.Keys == parent.Keys
      invariant r in parent' && root[r] == root[v]
      decreases top - rank[r]
    {
      parent', r := Climb(parent', root, rank, top, r);
    }
    assert Represented(parent', root, r);
  }

  /** One round of `find`'s loop: halve at `v`, then move to the new parent,
      which is in the same tree and ranks higher. */
  method Climb<K(==)>(parent: map<K, K>, ghost root: map<K, K>, ghost rank: map<K, nat>, ghost top: nat, v: K)
    returns (parent': map<K, K>, u: K)
    requires Valid(parent, root, rank, top) && v in parent && parent[v] != v
    ensures Valid(parent', root, rank, top) && parent'.Keys == parent.Keys
    ensures u in parent' && root[u] == root[v] && rank[v] < rank[u] <= top
  {
    parent' := Halve(parent, root, rank, top, v);
    u := parent'[v];
    NameFacts(parent', root, rank, top, v);
  }

  /** What `Valid` says about one name `x`. */
  lemma NameFacts<K>(parent: map<K, K>, root: map<K, K>, rank: map<K, nat>, top: nat, x: K)
    requires Valid(parent, root, rank, top) && x in parent
    ensures Linked(parent, root, rank, x) && Represented(parent, root, x) && rank[x] <= top
    ensures parent[x] in parent && root[parent[x]] == root[x] && (parent[x] != x ==> rank[x] < rank[parent[x]])
    ensures root[x] in parent && parent[root[x]] == root[x] && (parent[x] == x ==> root[x] == x)
  {
    assert Linked(parent, root, rank, x) && Represented(parent, root, x);
  }

  /** `parent[v] = parent[parent[v]]` for a node `v` that is not a root: the
      grandparent is in the same tree and ranks higher, so the shape is kept. */
  method Halve<K(==)>(parent: map<K, K>, ghost root: map<K, K>, ghost rank: map<K, nat>, ghost top: nat, v: K)
    returns (parent': map<K, K>)
    requires Valid(parent, root, rank, top) && v in parent && parent[v] != v
    ensures Valid(parent', root, rank, top) && parent'.Keys == parent.Keys
    ensures parent[v] in parent && parent[parent[v]] in parent && parent'[v] == parent[parent[v]]
    ensures rank[v] < rank[parent'[v]]
    ensures forall x :: x in parent && x != v ==> parent'[x] == parent[x]
  {
    NameFacts(parent, root, rank, top, v);
    NameFacts(parent, root, rank, top, parent[v]);
    parent' := parent[v := parent[parent[v]]];
    forall x {:trigger Linked(parent', root, rank, x)} | x in parent' ensures Linked(parent', root, rank, x) {
      NameFacts(parent, root, rank, top, x);
    }
    forall x {:trigger Represented(parent', root, x)} | x in parent' ensures Represented(parent', root, x) {
      NameFacts(parent, root, rank, top, x);
      NameFacts(parent, root, rank, top, root[x]);
    }
    forall x {:trigger rank[x]} | x in parent' ensures rank[x] <= top {
      NameFacts(parent, root, rank, top, x);
    }
  }

  /** The representatives after hanging root `ra` below root `rb`. */
  ghost function Merged<K>(root: map<K, K>, ra: K, rb: K): (root': map<K, K>)
    ensures root'.Keys == root.Keys
  {
    map x | x in root :: if root[x] == ra then rb else root[x]
  }

  /** `union(a, b)`: `parent[find(a)] = find(b)`. Python evaluates the
      right-hand side first, so `find(b)` runs before `find(a)`. The names
      joined to `a` take `b`'s representative; when the two differ, one tree
      fewer remains. */
  method Union<K(==)>(parent: map<K, K>, ghost root: map<K, K>, ghost rank: map<K, nat>,
                      ghost top: nat, a: K, b: K)
    returns (parent': map<K, K>, ghost root': map<K, K>, ghost rank': map<K, nat>, ghost top': nat)
    requires Valid(parent, root, rank, top) && a in parent && b in parent
    ensures Valid(parent', root', rank', top') && parent'.Keys == parent.Keys
    ensures root' == Merged(root, root[a], root[b])
    ensures root[a] != root[b] ==> Roots(root') == Roots(root) - {root[a]}
    ensures root[a] == root[b] ==> root' == root
  {
    var rb, ra;
    parent', rb := Find(parent, root, rank, top, b);
    parent', ra := Find(parent', root, rank, top, a);
    NameFacts(parent', root, rank, top, b);
    parent', root', rank', top' := Hang(parent', root, rank, top, ra, rb);
  }

  function Max(a: nat, b: nat): nat {
    if a < b then b else a
  }

  /** `parent[ra] = rb` for two roots: hanging a root below a different root,
      with the rank of `rb` raised above that of `ra`, keeps the shape and
      leaves one tree fewer. */
  method Hang<K(==)>(parent: map<K, K>, ghost root: map<K, K>, ghost rank: map<K, nat>, ghost top: nat,
                     ra: K, rb: K)
    returns (parent': map<K, K>, ghost root': map<K, K>, ghost rank': map<K, nat>, ghost top': nat)
    requires Valid(parent, root, rank, top) && ra in parent && rb in parent
    requires parent[ra] == ra && parent[rb] == rb
    ensures Valid(parent', root', rank', top') && parent'.Keys == parent.Keys
    ensures root' == Merged(root, ra, rb)
    ensures ra != rb ==> Roots(root') == Roots(root) - {ra}
    ensures ra == rb ==> root' == root
  {
    NameFacts(parent, root, rank, top, ra);
    NameFacts(parent, root, rank, top, rb);
    parent' := parent[ra := rb];
    if ra == rb {
      root', rank', top' := root, rank, top;
      assert parent' == parent;
      assert Merged(root, ra, rb) == root;
    } else {
      rank' := rank[rb := Max(rank[rb], rank[ra] + 1)];
      top' := Max(top, rank[ra] + 1);
      root' := Merged(root, ra, rb);
      HangValid(parent, root, rank, top, ra, rb, parent', root', rank', top');
      forall x | x in root' ensures root'[x] == x <==> x in Roots(root) && x != ra {
        if root[x] == ra {
          assert x != rb;
        }
      }
    }
  }

  /** The shape after `parent[ra] = rb`, for two different roots. */
  lemma HangValid<K>(parent: map<K, K>, root: map<K, K>, rank: map<K, nat>, top: nat, ra: K, rb: K,
                     parent': map<K, K>, root': map<K, K>, rank': map<K, nat>, top': nat)
    requires Valid(parent, root, rank, top) && ra in parent && rb in parent && ra != rb
    requires parent[ra] == ra && parent[rb] == rb && root[ra] == ra && root[rb] == rb
    requires parent' == parent[ra := rb] && root' == Merged(root, ra, rb)
    requires rank' == rank[rb := Max(rank[rb], rank[ra] + 1)] && top' == Max(top, rank[ra] + 1)
    ensures Valid(parent', root', rank', top')
  {
    forall x {:trigger Linked(parent', root', rank', x)} {:trigger Represented(parent', root', x)} | x in parent'
      ensures Linked(parent', root', rank', x) && Represented(parent', root', x)
    {
      HangAt(parent, root, rank, top, ra, rb, x);
    }
    forall x {:trigger rank'[x]} | x in parent' ensures rank'[x] <= top' {
      NameFacts(parent, root, rank, top, x);
    }
  }

  /** ... one name at a time. */
  lemma HangAt<K>(parent: map<K, K>, root: map<K, K>, rank: map<K, nat>, top: nat, ra: K, rb: K, x: K)
    requires Valid(parent, root, rank, top) && ra in parent && rb in parent && ra != rb
    requires parent[ra] == ra && parent[rb] == rb && root[ra] == ra && root[rb] == rb
    requires x in parent
    ensures Linked(parent[ra := rb], Merged(root, ra, rb), rank[rb := Max(rank[rb], rank[ra] + 1)], x)
    ensures Represented(parent[ra := rb], Merged(root, ra, rb), x)
  {
    NameFacts(parent, root, rank, top, x);
    NameFacts(parent, root, rank, top, root[x]);
  }
}
