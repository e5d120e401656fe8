/** utils.py `generic_dfs`: one recursive depth-first search whose optional
    hooks detect cycles with a recursion stack, stamp discovery times and low
    links to find bridges, and report nodes in postorder. */
module GenericSearch {
  import opened Common
  import opened Dfs

  /** The graph has a directed cycle: a walk whose last node has its first
      node as a neighbour (a self-loop is a cycle of one node). */
  ghost predicate HasCycle(adj: Adj) {
    exists c :: IsPath(adj, c) && c[|c| - 1] in adj && c[0] in adj[c[|c| - 1]]
  }

  /** A walk of at least one step leads from `v` into the set `s`. */
  ghost predicate StepsInto(adj: Adj, v: string, s: set<string>) {
    exists p :: IsPath(adj, p) && |p| >= 2 && p[0] == v && p[|p| - 1] in s
  }

  /** A walk from `v` back into the recursion stack at entry, or back to `v`
      itself, which closes a cycle. */
  lemma CycleBackToRoot(adj: Adj, v: string, s: set<string>, base: set<string>)
    requires s <= base + {v}
    requires HasCycle(adj) || StepsInto(adj, v, s)
    ensures HasCycle(adj) || StepsInto(adj, v, base)
  {
    if StepsInto(adj, v, s) && !StepsInto(adj, v, base) {
      var p :| IsPath(adj, p) && |p| >= 2 && p[0] == v && p[|p| - 1] in s;
      assert p[|p| - 1] == v;
      var c := p[..|p| - 1];
      assert IsPath(adj, c) && c[|c| - 1] in adj && c[0] in adj[c[|c| - 1]];
    }
  }

  /** A step from `u` to `v` extends a walk from `v` into `s`. */
  lemma StepsPrepend(adj: Adj, u: string, v: string, s: set<string>)
    requires u in adj && v in adj[u]
    requires StepsInto(adj, v, s)
    ensures StepsInto(adj, u, s)
  {
    var p :| IsPath(adj, p) && |p| >= 2 && p[0] == v && p[|p| - 1] in s;
    var q := [u] + p;
    assert IsPath(adj, q);
  }

  /** `found` lists the nodes a call first visits, in discovery order: it
      starts at the call's own node, repeats nothing, and every later node was
      unvisited before the call. */
  ghost predicate Discovery(found: seq<string>, v: string, before: set<string>) {
    |found| > 0 && found[0] == v && NoRepeats(found)
    && forall i :: 1 <= i < |found| ==> found[i] !in before
  }

  lemma DiscoveryAppend(found: seq<string>, more: seq<string>, v: string, before: set<string>, mid: set<string>)
    requires Discovery(found, v, before) && mid == before + Elements(found)
    requires NoRepeats(more) && Elements(more) !! mid
    ensures Discovery(found + more, v, before)
  {
    var all := found + more;
    forall i, j | 0 <= i < j < |all|
      ensures all[i] != all[j]
    {
      if j >= |found| && i < |found| {
        assert all[i] == found[i] && all[j] == more[j - |found|];
        assert found[i] in Elements(found);
        assert more[j - |found|] in Elements(more);
      } else if i >= |found| {
        assert all[i] == more[i - |found|] && all[j] == more[j - |found|];
      }
    }
    forall i | 1 <= i < |all|
      ensures all[i] !in before
    {
      if i >= |found| {
        assert all[i] == more[i - |found|] && more[i - |found|] in Elements(more);
      }
    }
  }

  /** The call's own node is not among the nodes it found below it. */
  lemma RootNotBelow(found: seq<string>, v: string, before: set<string>)
    requires Discovery(found, v, before)
    ensures v !in Elements(found[1..]) && v in Elements(found)
    ensures Elements(found) == {v} + Elements(found[1..])
  {
    assert found == [v] + found[1..];
    ElementsAppend([v], found[1..]);
  }

  /** One more element of a prefix. */
  lemma PrefixNext(xs: seq<string>, i: nat)
    requires i < |xs|
    ensures xs[..i + 1] == xs[..i] + [xs[i]]
  {
  }

  /** Python's `min(a, b)` on integers. */
  function Min(a: int, b: int): int {
    if b < a then b else a
  }

  /** The children of the tree edges `es`. */
  ghost function Kids(es: seq<(string, string)>): set<string> {
    set e | e in es :: e.1
  }

  lemma KidsAppend(a: seq<(string, string)>, b: seq<(string, string)>)
    ensures Kids(a + b) == Kids(a) + Kids(b)
  {
    assert forall e :: e in a + b <==> e in a || e in b;
  }

  /** Postorder over the tree edges `es`: a child is handed to `on_exit`
      before its parent. */
  ghost predicate PostOrder(exited: seq<string>, es: seq<(string, string)>) {
    forall i, j :: 0 <= i < |exited| && 0 <= j < |exited| && (exited[j], exited[i]) in es ==> i < j
  }

  /** Two postorders whose trees share no node make one. */
  lemma PostOrderJoin(a: seq<string>, b: seq<string>, ea: seq<(string, string)>, eb: seq<(string, string)>)
    requires PostOrder(a, ea) && PostOrder(b, eb)
    requires forall e :: e in ea ==> e.1 !in Elements(b)
    requires forall e :: e in eb ==> e.0 !in Elements(a)
    ensures PostOrder(a + b, ea + eb)
  {
    var x := a + b;
    forall i, j | 0 <= i < |x| && 0 <= j < |x| && (x[j], x[i]) in ea + eb
      ensures i < j
    {
      if (x[j], x[i]) in ea {
        if i < |a| && j < |a| {
          assert x[i] == a[i] && x[j] == a[j];
        }
      } else {
        if i >= |a| && j >= |a| {
          assert x[i] == b[i - |a|] && x[j] == b[j - |a|];
        }
      }
    }
  }

  /** A tree edge from a node not yet exited keeps a postorder. */
  lemma PostOrderEdge(x: seq<string>, es: seq<(string, string)>, e: (string, string))
    requires PostOrder(x, es) && e.0 !in Elements(x)
    ensures PostOrder(x, es + [e])
  {
    forall i, j | 0 <= i < |x| && 0 <= j < |x| && (x[j], x[i]) in es + [e]
      ensures i < j
    {
    }
  }

  /** A node exited after all of its tree keeps a postorder, when it is no
      node's child. */
  lemma PostOrderLast(x: seq<string>, es: seq<(string, string)>, v: string)
    requires PostOrder(x, es) && v !in Elements(x) && v !in Kids(es)
    ensures PostOrder(x + [v], es)
  {
    var y := x + [v];
    forall i, j | 0 <= i < |y| && 0 <= j < |y| && (y[j], y[i]) in es
      ensures i < j
    {
      if i < |x| && j < |x| {
        assert y[i] == x[i] && y[j] == x[j];
      }
    }
  }

  /** The pairs `generic_dfs` appends to `bridges` for the tree edges `es`,
      in order: `(min(v, n), max(v, n))` for each edge `(v, n)` whose child's
      low link exceeds the parent's discovery time. */
  ghost function BridgeList(tin: map<string, int>, low: map<string, int>, es: seq<(string, string)>): seq<(string, string)> {
    if es == [] then []
    else
      var e := es[|es| - 1];
      BridgeList(tin, low, es[..|es| - 1])
        + (if e.1 in low && e.0 in tin && low[e.1] > tin[e.0] then [PairKey(e.0, e.1)] else [])
  }

  lemma {:induction false} BridgeListAppend(tin: map<string, int>, low: map<string, int>,
                                            a: seq<(string, string)>, b: seq<(string, string)>)
    ensures BridgeList(tin, low, a + b) == BridgeList(tin, low, a) + BridgeList(tin, low, b)
    decreases |b|
  {
    if b == [] {
      assert a + b == a;
    } else {
      assert (a + b)[..|a + b| - 1] == a + b[..|b| - 1];
      assert (a + b)[|a + b| - 1] == b[|b| - 1];
      BridgeListAppend(tin, low, a, b[..|b| - 1]);
    }
  }

  /** The bridges of `es` depend only on the times of the edges' ends. */
  lemma {:induction false} BridgeListFrame(tin: map<string, int>, low: map<string, int>,
                                           tin': map<string, int>, low': map<string, int>, es: seq<(string, string)>)
    requires forall e :: e in es ==> && e.1 in low && e.1 in low' && low'[e.1] == low[e.1]
                                     && e.0 in tin && e.0 in tin' && tin'[e.0] == tin[e.0]
    ensures BridgeList(tin', low', es) == BridgeList(tin, low, es)
    decreases |es|
  {
    if es != [] {
      assert es[|es| - 1] in es;
      assert forall e :: e in es[..|es| - 1] ==> e in es;
      BridgeListFrame(tin, low, tin', low', es[..|es| - 1]);
    }
  }

  /** The bridges appended by the calls below a parent, then by the parent
      for its own tree edge, are those of all the tree edges. */
  lemma BridgeSum(b0: seq<(string, string)>, b1: seq<(string, string)>, b2: seq<(string, string)>,
                  b3: seq<(string, string)>, tin: map<string, int>, low: map<string, int>,
                  ends: seq<(string, string)>, ce: seq<(string, string)>, v: string, n: string)
    requires b1 == b0 + BridgeList(tin, low, ends) && b2 == b1 + BridgeList(tin, low, ce)
    requires b3 == b2 + (if n in low && v in tin && low[n] > tin[v] then [PairKey(v, n)] else [])
    ensures b3 == b0 + BridgeList(tin, low, ends + ce + [(v, n)])
  {
    var all := ends + ce + [(v, n)];
    var x := if n in low && v in tin && low[n] > tin[v] then [PairKey(v, n)] else [];
    assert all[..|all| - 1] == ends + ce && all[|all| - 1] == (v, n);
    assert BridgeList(tin, low, all) == BridgeList(tin, low, ends + ce) + x;
    BridgeListAppend(tin, low, ends, ce);
    ConcatAssoc(b0, BridgeList(tin, low, ends), BridgeList(tin, low, ce), x);
  }

  lemma ConcatAssoc<T>(a: seq<T>, b: seq<T>, c: seq<T>, d: seq<T>)
    ensures a + b + c + d == a + (b + c + d)
  {
  }

  /** The containers the hooks share, at one moment. */
  datatype Marks = Marks(visited: set<string>, recStack: set<string>, tin: map<string, int>,
                         low: map<string, int>, time: int, bridges: seq<(string, string)>, exits: seq<string>)

  /** The state of one search: the optional hooks are fixed when it is set up,
      and the containers the hooks share are fields. `exits` records the
      arguments of the `on_exit` calls, in order. */
  class DfsRun {
    const adj: Adj
    const trackStack: bool
    const trackTimes: bool
    const trackBridges: bool
    const trackExit: bool
    var visited: set<string>
    var recStack: set<string>
    var tin: map<string, int>
    var low: map<string, int>
    var time: int
    var bridges: seq<(string, string)>
    var exits: seq<string>

    constructor (adj: Adj, trackStack: bool, trackTimes: bool, trackBridges: bool, trackExit: bool)
      ensures this.adj == adj && this.trackStack == trackStack && this.trackTimes == trackTimes
      ensures this.trackBridges == trackBridges && this.trackExit == trackExit
      ensures visited == {} && recStack == {} && tin == map[] && low == map[]
      ensures time == 0 && bridges == [] && exits == []
    {
      this.adj := adj;
      this.trackStack := trackStack;
      this.trackTimes := trackTimes;
      this.trackBridges := trackBridges;
      this.trackExit := trackExit;
      visited := {};
      recStack := {};
      tin := map[];
      low := map[];
      time := 0;
      bridges := [];
      exits := [];
    }

    ghost function Now(): Marks
      reads this
    {
      Marks(visited, recStack, tin, low, time, bridges, exits)
    }

    /** What the search needs of its state: the adjacency is closed, the
        recursion stack holds visited nodes, and when times are kept every
        visited node has been stamped. */
    predicate Ready()
      reads this
    {
      Closed(adj) && recStack <= visited && (trackTimes ==> visited <= tin.Keys && visited <= low.Keys)
    }

    /** `Ready` of a snapshot. */
    ghost predicate ReadyAt(s: Marks) {
      Closed(adj) && s.recStack <= s.visited && (trackTimes ==> s.visited <= s.tin.Keys && s.visited <= s.low.Keys)
    }

    /** From s0 to s1 the nodes of `found` were stamped with consecutive
        discovery times from `s0.time` on, the clock moved past them, and no
        other time or low link changed except those in `lowFree`. */
    ghost predicate Stamped(s0: Marks, s1: Marks, found: seq<string>, lowFree: set<string>) {
      if trackTimes then
        && s1.time == s0.time + |found|
        && (forall i :: 0 <= i < |found| ==> found[i] in s1.tin && s1.tin[found[i]] == s0.time + i)
        && (forall x :: x in s0.tin && x !in Elements(found) ==> x in s1.tin && s1.tin[x] == s0.tin[x])
        && (forall x :: x in s0.low && x !in Elements(found) && x !in lowFree ==> x in s1.low && s1.low[x] == s0.low[x])
      else s1.time == s0.time && s1.tin == s0.tin && s1.low == s0.low
    }

    /** From s0 to s1 no node was unvisited, and the discovery times and the
        low links of the nodes visited at s0 stayed, except the low links in
        `free`. */
    ghost predicate Frozen(s0: Marks, s1: Marks, free: set<string>) {
      && s0.visited <= s1.visited
      && (trackTimes ==>
            && (forall x :: x in s0.visited && x in s0.tin ==> x in s1.tin && s1.tin[x] == s0.tin[x])
            && (forall x :: x in s0.visited && x !in free && x in s0.low ==> x in s1.low && s1.low[x] == s0.low[x]))
    }

    lemma FrozenOf(s0: Marks, s1: Marks, found: seq<string>, free: set<string>)
      requires Stamped(s0, s1, found, free) && Elements(found) !! s0.visited && s0.visited <= s1.visited
      ensures Frozen(s0, s1, free)
    {
    }

    lemma FrozenTrans(s0: Marks, s1: Marks, s2: Marks, f1: set<string>, f2: set<string>)
      requires Frozen(s0, s1, f1) && Frozen(s1, s2, f2)
      ensures Frozen(s0, s2, f1 + f2)
    {
    }

    /** From s0 to s1 the bridges of the tree edges `ends` were appended, when
        bridges are being collected. */
    ghost predicate Bridged(s0: Marks, s1: Marks, ends: seq<(string, string)>) {
      if trackTimes && trackBridges then s1.bridges == s0.bridges + BridgeList(s1.tin, s1.low, ends)
      else s1.bridges == s0.bridges
    }

    /** The recursion stack: untouched without the hook; on a normal return it
        lost exactly `gone`; a detected cycle is a real cycle or a walk from
        `v` back into the stack as it was. */
    ghost predicate Stacked(s0: Marks, s1: Marks, gone: set<string>, cycle: bool, v: string) {
      && (!trackStack ==> !cycle && s1.recStack == s0.recStack)
      && (trackStack && !cycle ==> s1.recStack == s0.recStack - gone)
      && (cycle ==> HasCycle(adj) || StepsInto(adj, v, s0.recStack))
    }

    /** From s0 to s1 exactly the nodes `exited`, all from `found`, were
        handed to `on_exit`; without the hook there are none. */
    ghost predicate Exited(s0: Marks, s1: Marks, exited: seq<string>, found: seq<string>) {
      if trackExit then s1.exits == s0.exits + exited && Elements(exited) <= Elements(found)
      else s1.exits == s0.exits && exited == []
    }

    /** Every neighbour of `u` in `ns` other than its parent has been visited. */
    ghost predicate Explored(s: Marks, u: string, par: Option<string>, ns: seq<string>) {
      forall n :: n in ns && Some(n) != par ==> n in s.visited
    }

    /** `low[u]` is the least of `tin[u]`, the discovery times of `u`'s
        neighbours in `ns` other than its parent, and the low links of its
        children along the tree edges `es`. */
    ghost predicate LowOf(s: Marks, u: string, par: Option<string>, ns: seq<string>, es: seq<(string, string)>) {
      && u in s.tin && u in s.low
      && (forall n :: n in ns && Some(n) != par ==> n in s.tin && s.low[u] <= s.tin[n])
      && (forall e :: e in es && e.0 == u ==> e.1 in s.low && s.low[u] <= s.low[e.1])
      && s.low[u] <= s.tin[u]
      && (|| s.low[u] == s.tin[u]
          || (exists n :: n in ns && Some(n) != par && n in s.tin && s.low[u] == s.tin[n])
          || (exists e :: e in es && e.0 == u && e.1 in s.low && s.low[u] == s.low[e.1]))
    }

    /** The call at `u`, whose parent is `par`, is over: all its neighbours
        but the parent are visited, and its low link is final. */
    ghost predicate Done(s: Marks, u: string, par: Option<string>, es: seq<(string, string)>) {
      u in adj && Explored(s, u, par, adj[u]) && (trackTimes ==> LowOf(s, u, par, adj[u], es))
    }

    /** The tree edges `ends` of a call lead along the adjacency from found
        nodes to exactly the found nodes other than the call's own. */
    ghost predicate Shape(found: seq<string>, ends: seq<(string, string)>) {
      && |found| > 0 && Kids(ends) == Elements(found[1..])
      && forall e :: e in ends ==> e.0 in Elements(found) && e.0 in adj && e.1 in adj[e.0]
    }

    /** Every call below, at the child of a tree edge in `ends`, is over. */
    ghost predicate AllDone(s: Marks, ends: seq<(string, string)>) {
      forall e :: e in ends ==> Done(s, e.1, Some(e.0), ends)
    }

    /** The search tree below `v` after its neighbours `ns`: every call below
        `v` is over, `exited` is a postorder, and `v`'s neighbours so far are
        visited and counted in its low link. */
    ghost predicate Grown(s: Marks, v: string, par: Option<string>, ns: seq<string>,
                          found: seq<string>, ends: seq<(string, string)>, exited: seq<string>) {
      && Shape(found, ends) && AllDone(s, ends) && PostOrder(exited, ends)
      && Explored(s, v, par, ns) && (trackTimes ==> LowOf(s, v, par, ns, ends))
    }

    /** What a call at `v` from `s0` keeps at every moment: `found` lists the
        nodes it first visited, in discovery order, stamped with consecutive
        times, and the bridges of its tree edges `ends` were appended. */
    ghost predicate Kept(s0: Marks, s: Marks, v: string, found: seq<string>, ends: seq<(string, string)>) {
      && Discovery(found, v, s0.visited) && s.visited == s0.visited + Elements(found)
      && Stamped(s0, s, found, {}) && Bridged(s0, s, ends)
    }

    /** What a call at `v` with parent `par` that started from `s0` has done by
        the snapshot `s`: its bookkeeping is kept, the stack lost `v`, and
        `exited` lists its `on_exit` calls. On a normal return the search tree
        is complete, and `exited` is each found node once, in postorder, `v`
        last. */
    ghost predicate Finished(s0: Marks, s: Marks, v: string, par: Option<string>, found: seq<string>,
                             ends: seq<(string, string)>, exited: seq<string>, cycle: bool) {
      && Kept(s0, s, v, found, ends)
      && Stacked(s0, s, {v}, cycle, v)
      && Exited(s0, s, exited, found)
      && (!cycle ==> v in adj && Grown(s, v, par, adj[v], found, ends, exited))
      && (trackExit && !cycle ==> multiset(exited) == multiset(found) && exited != [] && exited[|exited| - 1] == v)
    }

    /** The state inside the call at `v` that started from `s0`, after its
        first `i` neighbours. */
    ghost predicate PartialAt(s0: Marks, s: Marks, v: string, par: Option<string>, i: nat,
                              found: seq<string>, ends: seq<(string, string)>, exited: seq<string>) {
      && ReadyAt(s) && v in adj && v in s.visited && i <= |adj[v]|
      && Kept(s0, s, v, found, ends)
      && s.recStack == (if trackStack then s0.recStack + {v} else s0.recStack)
      && Exited(s0, s, exited, found[1..])
      && (trackExit ==> multiset(exited) == multiset(found[1..]))
      && Grown(s, v, par, adj[v][..i], found, ends, exited)
    }

    ghost predicate Partial(s0: Marks, v: string, par: Option<string>, i: nat,
                            found: seq<string>, ends: seq<(string, string)>, exited: seq<string>)
      reads this
    {
      Ready() && PartialAt(s0, Now(), v, par, i, found, ends, exited)
    }

    /** `generic_dfs(adj, v, visited, parent=..., ...)` with the hooks this
        search was set up with. It returns true where the source raises
        `CycleDetected`. `found` lists the nodes it first visits, `ends` its
        tree edges, `exited` its `on_exit` calls. A normal return from an
        unvisited node leaves the recursion stack as it was. */
    method Visit(v: string, parent: Option<string>)
      returns (cycle: bool, ghost found: seq<string>, ghost ends: seq<(string, string)>, ghost exited: seq<string>)
      requires Ready() && v in adj
      modifies this
      ensures Ready() && Finished(old(Now()), Now(), v, parent, found, ends, exited, cycle)
      ensures !cycle && v !in old(visited) ==> recStack == old(recStack)
      decreases adj.Keys - visited - {v}, 3
    {
      ghost var s0 := Now();
      Enter(v, parent);
      found, ends, exited := [v], [], [];
      var neighbors := adj[v];
      for i := 0 to |neighbors|
        invariant Partial(s0, v, parent, i, found, ends, exited)
      {
        cycle, found, ends, exited := Step(s0, v, i, neighbors[i], parent, found, ends, exited);
        if cycle {
          return;
        }
      }
      exited := Leave(s0, v, parent, found, ends, exited);
      cycle := false;
    }

    /** The start of `generic_dfs` at `v`: mark it visited, push it on the
        recursion stack and stamp its discovery time and low link. */
    method Enter(v: string, parent: Option<string>)
      requires Ready() && v in adj
      modifies this`visited, this`recStack, this`tin, this`low, this`time
      ensures visited == old(visited) + {v} && recStack == (if trackStack then old(recStack) + {v} else old(recStack))
      ensures tin == (if trackTimes then old(tin)[v := old(time)] else old(tin))
      ensures low == (if trackTimes then old(low)[v := old(time)] else old(low))
      ensures time == (if trackTimes then old(time) + 1 else old(time))
      ensures Partial(old(Now()), v, parent, 0, [v], [], [])
    {
      ghost var s0 := Now();
      visited := visited + {v};
      if trackStack {
        recStack := recStack + {v};
      }
      if trackTimes {
        tin := tin[v := time];
        low := low[v := time];
        time := time + 1;
      }
      EnterFacts(s0, Now(), v, parent);
    }

    /** The snapshot after `Enter` starts the bookkeeping of the call at `v`:
        `tin[v] == low[v]` is the old clock. */
    lemma EnterFacts(s0: Marks, s1: Marks, v: string, par: Option<string>)
      requires ReadyAt(s0) && v in adj
      requires s1.visited == s0.visited + {v}
      requires s1.recStack == if trackStack then s0.recStack + {v} else s0.recStack
      requires trackTimes ==> s1.tin == s0.tin[v := s0.time] && s1.low == s0.low[v := s0.time] && s1.time == s0.time + 1
      requires !trackTimes ==> s1.tin == s0.tin && s1.low == s0.low && s1.time == s0.time
      requires s1.bridges == s0.bridges && s1.exits == s0.exits
      ensures PartialAt(s0, s1, v, par, 0, [v], [], [])
    {
      assert Elements([v]) == {v} && [v][1..] == [];
      assert NoRepeats([v]);
      assert Stamped(s0, s1, [v], {});
      assert Kids([]) == {};
      assert adj[v][..0] == [];
    }

    /** The end of `generic_dfs` at `v`: pop it from the recursion stack and
        hand it to `on_exit`. */
    method Leave(ghost s0: Marks, v: string, ghost parent: Option<string>, ghost found: seq<string>,
                 ghost ends: seq<(string, string)>, ghost exited: seq<string>)
      returns (ghost exited': seq<string>)
      requires v in adj && Partial(s0, v, parent, |adj[v]|, found, ends, exited)
      modifies this`recStack, this`exits
      ensures recStack == (if trackStack then old(recStack) - {v} else old(recStack))
      ensures exits == (if trackExit then old(exits) + [v] else old(exits))
      ensures Ready() && Finished(s0, Now(), v, parent, found, ends, exited', false)
    {
      ghost var s1 := Now();
      if trackStack {
        recStack := recStack - {v};
      }
      exited' := exited;
      if trackExit {
        exits := exits + [v];
        exited' := exited + [v];
      }
      LeaveFacts(s0, s1, Now(), v, parent, found, ends, exited, exited');
    }

    lemma LeaveFacts(s0: Marks, s1: Marks, s2: Marks, v: string, par: Option<string>, found: seq<string>,
                     ends: seq<(string, string)>, exited: seq<string>, exited': seq<string>)
      requires v in adj && PartialAt(s0, s1, v, par, |adj[v]|, found, ends, exited)
      requires s2 == s1.(recStack := s2.recStack, exits := s2.exits)
      requires s2.recStack == if trackStack then s1.recStack - {v} else s1.recStack
      requires exited' == if trackExit then exited + [v] else exited
      requires s2.exits == if trackExit then s1.exits + [v] else s1.exits
      ensures ReadyAt(s2) && Finished(s0, s2, v, par, found, ends, exited', false)
    {
      KeptSame(s0, s1, s2, v, found, ends);
      LeaveStack(s0, s1, s2, v);
      LeaveExits(s0, s1, s2, v, found, exited, exited');
      assert adj[v][..|adj[v]|] == adj[v];
      LeaveGrown(s0, s1, s2, v, par, found, ends, exited, exited');
    }

    /** The bookkeeping does not depend on the stack or the exit log. */
    lemma KeptSame(s0: Marks, s1: Marks, s2: Marks, v: string, found: seq<string>, ends: seq<(string, string)>)
      requires Kept(s0, s1, v, found, ends) && s2 == s1.(recStack := s2.recStack, exits := s2.exits)
      ensures Kept(s0, s2, v, found, ends)
    {
    }

    lemma LeaveStack(s0: Marks, s1: Marks, s2: Marks, v: string)
      requires ReadyAt(s1) && s2 == s1.(recStack := s2.recStack, exits := s2.exits)
      requires s1.recStack == (if trackStack then s0.recStack + {v} else s0.recStack)
      requires s2.recStack == if trackStack then s1.recStack - {v} else s1.recStack
      ensures ReadyAt(s2) && Stacked(s0, s2, {v}, false, v)
    {
    }

    /** `on_exit(v)` comes after the calls below `v`. */
    lemma LeaveExits(s0: Marks, s1: Marks, s2: Marks, v: string, found: seq<string>,
                     exited: seq<string>, exited': seq<string>)
      requires Discovery(found, v, s0.visited) && Exited(s0, s1, exited, found[1..])
      requires trackExit ==> multiset(exited) == multiset(found[1..])
      requires exited' == if trackExit then exited + [v] else exited
      requires s2.exits == if trackExit then s1.exits + [v] else s1.exits
      ensures Exited(s0, s2, exited', found)
      ensures trackExit ==> multiset(exited') == multiset(found) && exited' != [] && exited'[|exited'| - 1] == v
    {
      RootNotBelow(found, v, s0.visited);
      ElementsAppend(exited, [v]);
      assert Elements([v]) == {v};
      assert found == [v] + found[1..];
    }

    /** The search tree is complete once every neighbour is counted, and
        `v` exits after it. */
    lemma LeaveGrown(s0: Marks, s1: Marks, s2: Marks, v: string, par: Option<string>, found: seq<string>,
                     ends: seq<(string, string)>, exited: seq<string>, exited': seq<string>)
      requires v in adj && Grown(s1, v, par, adj[v], found, ends, exited)
      requires Discovery(found, v, s0.visited) && Exited(s0, s1, exited, found[1..])
      requires s2 == s1.(recStack := s2.recStack, exits := s2.exits)
      requires exited' == if trackExit then exited + [v] else exited
      ensures Grown(s2, v, par, adj[v], found, ends, exited')
    {
      RootNotBelow(found, v, s0.visited);
      if trackExit {
        PostOrderLast(exited, ends, v);
      }
      assert s2.(recStack := s1.recStack, exits := s1.exits) == s1;
    }

    /** One turn of the neighbour loop at `v`, with the bookkeeping of
        everything found so far; on a cycle, what the call at `v` promises. */
    method Step(ghost s0: Marks, v: string, i: nat, n: string, parent: Option<string>,
                ghost found: seq<string>, ghost ends: seq<(string, string)>, ghost exited: seq<string>)
      returns (cycle: bool, ghost found': seq<string>, ghost ends': seq<(string, string)>, ghost exited': seq<string>)
      requires Partial(s0, v, parent, i, found, ends, exited) && i < |adj[v]| && n == adj[v][i]
      modifies this
      ensures !cycle ==> Partial(s0, v, parent, i + 1, found', ends', exited')
      ensures cycle ==> Ready() && Finished(s0, Now(), v, parent, found', ends', exited', true)
      decreases adj.Keys - visited, 2
    {
      ghost var s1 := Now();
      assert n in adj[v];
      ghost var more, moreEnds, moreExited, mid;
      cycle, more, moreEnds, moreExited, mid := VisitNeighbor(v, n, parent);
      if parent == Some(n) {
        ParentStep(s0, s1, v, parent, i, found, ends, exited);
        found', ends', exited' := found, ends, exited;
      } else if n in s1.visited {
        BackStep(s0, s1, Now(), v, parent, i, found, ends, exited, cycle);
        found', ends', exited' := found, ends, exited;
      } else {
        TreeStep(s0, s1, mid, Now(), v, parent, i, found, ends, exited, more, moreEnds, moreExited, cycle);
        found', exited' := found + more, exited + moreExited;
        ends' := if cycle then ends + moreEnds else ends + moreEnds + [(v, n)];
      }
    }

    /** `if n == parent: continue` counts nothing. */
    lemma ParentStep(s0: Marks, s: Marks, v: string, par: Option<string>, i: nat,
                     found: seq<string>, ends: seq<(string, string)>, exited: seq<string>)
      requires PartialAt(s0, s, v, par, i, found, ends, exited) && i < |adj[v]| && par == Some(adj[v][i])
      ensures PartialAt(s0, s, v, par, i + 1, found, ends, exited)
    {
      PrefixNext(adj[v], i);
      ParentGrown(s, v, par, adj[v][..i], adj[v][i], found, ends, exited);
    }

    lemma ParentGrown(s: Marks, v: string, par: Option<string>, ns: seq<string>, n: string,
                      found: seq<string>, ends: seq<(string, string)>, exited: seq<string>)
      requires Grown(s, v, par, ns, found, ends, exited) && par == Some(n)
      ensures Grown(s, v, par, ns + [n], found, ends, exited)
    {
      assert forall m :: m in ns + [n] <==> m in ns || m == n;
      if trackTimes && s.low[v] != s.tin[v] {
        if m :| m in ns && Some(m) != par && m in s.tin && s.low[v] == s.tin[m] {
          assert m in ns + [n];
        }
      }
    }

    /** The state after `low[v] = min(low[v], tin[n])`. */
    ghost function Backed(s: Marks, v: string, n: string): Marks
      requires ReadyAt(s) && v in s.visited && n in s.visited
    {
      s.(low := if trackTimes then s.low[v := Min(s.low[v], s.tin[n])] else s.low)
    }

    /** A visited neighbour `n` other than the parent: `low[v] = min(low[v],
        tin[n])` and nothing else changes; the search stops on a cycle exactly
        when `n` is on the tracked stack. */
    ghost predicate BackTurn(s0: Marks, s1: Marks, v: string, n: string, cycle: bool)
      requires ReadyAt(s0) && v in s0.visited && n in s0.visited
    {
      s1 == Backed(s0, v, n) && (cycle <==> trackStack && n in s0.recStack)
    }

    /** The bookkeeping after a visited neighbour. */
    lemma BackStep(s0: Marks, s1: Marks, s2: Marks, v: string, par: Option<string>, i: nat,
                   found: seq<string>, ends: seq<(string, string)>, exited: seq<string>, cycle: bool)
      requires PartialAt(s0, s1, v, par, i, found, ends, exited) && i < |adj[v]|
      requires par != Some(adj[v][i]) && adj[v][i] in s1.visited
      requires BackTurn(s1, s2, v, adj[v][i], cycle)
      ensures ReadyAt(s2)
      ensures !cycle ==> PartialAt(s0, s2, v, par, i + 1, found, ends, exited)
      ensures cycle ==> Finished(s0, s2, v, par, found, ends, exited, true)
    {
      var n := adj[v][i];
      BackKept(s0, s1, s2, v, n, found, ends, exited);
      if cycle {
        BackCycle(s0, s1, s2, v, n, found, exited);
      } else {
        PrefixNext(adj[v], i);
        BackGrown(s0, s1, s2, v, par, adj[v][..i], n, found, ends, exited);
      }
    }

    /** Lowering `low[v]` keeps the bookkeeping of the call at `v`. */
    lemma BackKept(s0: Marks, s1: Marks, s2: Marks, v: string, n: string, found: seq<string>,
                   ends: seq<(string, string)>, exited: seq<string>)
      requires ReadyAt(s1) && v in s1.visited && n in s1.visited && s2 == Backed(s1, v, n)
      requires Kept(s0, s1, v, found, ends) && Shape(found, ends) && Exited(s0, s1, exited, found[1..])
      ensures ReadyAt(s2) && Kept(s0, s2, v, found, ends) && Exited(s0, s2, exited, found[1..])
      ensures s2.recStack == s1.recStack && s2.visited == s1.visited
    {
      RootNotBelow(found, v, s0.visited);
      assert Frozen(s1, s2, {v});
      BridgeListKept(s1, s2, {v}, found, ends);
    }

    /** A visited neighbour on the stack closes a cycle through `v`. */
    lemma BackCycle(s0: Marks, s1: Marks, s2: Marks, v: string, n: string, found: seq<string>, exited: seq<string>)
      requires v in adj && n in adj[v] && trackStack && n in s1.recStack
      requires s1.recStack == s0.recStack + {v} && s2.recStack == s1.recStack
      requires |found| > 0 && Exited(s0, s1, exited, found[1..]) && s2.exits == s1.exits
      ensures Stacked(s0, s2, {v}, true, v) && Exited(s0, s2, exited, found)
    {
      assert IsPath(adj, [v, n]);
      assert StepsInto(adj, v, s1.recStack);
      CycleBackToRoot(adj, v, s1.recStack, s0.recStack);
      ElementsTail(found);
    }

    /** The bridges of tree edges below visited nodes stay while only low
        links in `free`, none of them a child, change. */
    lemma BridgeListKept(s1: Marks, s2: Marks, free: set<string>, found: seq<string>, ends: seq<(string, string)>)
      requires ReadyAt(s1) && Frozen(s1, s2, free) && Shape(found, ends)
      requires Elements(found) <= s1.visited && Elements(found[1..]) !! free
      ensures trackTimes ==> BridgeList(s2.tin, s2.low, ends) == BridgeList(s1.tin, s1.low, ends)
    {
      if trackTimes {
        ElementsTail(found);
        forall e | e in ends
          ensures && e.1 in s1.low && e.1 in s2.low && s2.low[e.1] == s1.low[e.1]
                  && e.0 in s1.tin && e.0 in s2.tin && s2.tin[e.0] == s1.tin[e.0]
        {
          assert e.1 in Kids(ends);
        }
        BridgeListFrame(s1.tin, s1.low, s2.tin, s2.low, ends);
      }
    }

    lemma ElementsTail(found: seq<string>)
      requires |found| > 0
      ensures Elements(found[1..]) <= Elements(found)
    {
    }

    /** The tree after a visited neighbour: only `v`'s low link changed. */
    lemma BackGrown(s0: Marks, s1: Marks, s2: Marks, v: string, par: Option<string>, ns: seq<string>, n: string,
                    found: seq<string>, ends: seq<(string, string)>, exited: seq<string>)
      requires ReadyAt(s1) && Grown(s1, v, par, ns, found, ends, exited)
      requires Discovery(found, v, s0.visited) && s1.visited == s0.visited + Elements(found)
      requires n in s1.visited && par != Some(n) && v in s1.visited && s2 == Backed(s1, v, n)
      ensures Grown(s2, v, par, ns + [n], found, ends, exited)
    {
      RootNotBelow(found, v, s0.visited);
      assert Frozen(s1, s2, {v});
      ElementsTail(found);
      forall e | e in ends ensures Done(s2, e.1, Some(e.0), ends) {
        assert e.1 in Kids(ends);
        DoneKept(s1, s2, e.1, Some(e.0), ends, ends, {v});
      }
      assert forall m :: m in ns + [n] <==> m in ns || m == n;
      if trackTimes {
        forall e | e in ends && e.0 == v ensures e.1 != v {
          assert e.1 in Kids(ends);
        }
        LowBack(s1, s2, v, par, ns, n, ends);
      }
    }

    /** `low[v] = min(low[v], tin[n])` counts the neighbour `n`. */
    lemma LowBack(s1: Marks, s2: Marks, v: string, par: Option<string>, ns: seq<string>, n: string,
                  es: seq<(string, string)>)
      requires LowOf(s1, v, par, ns, es) && Some(n) != par && n in s1.tin
      requires s2 == s1.(low := s1.low[v := Min(s1.low[v], s1.tin[n])])
      requires forall e :: e in es && e.0 == v ==> e.1 != v
      ensures LowOf(s2, v, par, ns + [n], es)
    {
      assert forall m :: m in ns + [n] <==> m in ns || m == n;
      if s2.low[v] != s1.low[v] {
        assert s2.low[v] == s2.tin[n];
      } else if s1.low[v] != s1.tin[v] {
        if e :| e in es && e.0 == v && e.1 in s1.low && s1.low[v] == s1.low[e.1] {
          assert e.1 in s2.low && s2.low[v] == s2.low[e.1];
        } else {
          var m :| m in ns && Some(m) != par && m in s1.tin && s1.low[v] == s1.tin[m];
          assert m in ns + [n];
        }
      }
    }

    /** The call at `u` stays over while later turns visit new nodes and
        change only the low links in `free`, and while no new tree edge leaves
        `u`. */
    lemma DoneKept(s1: Marks, s2: Marks, u: string, par: Option<string>, es: seq<(string, string)>,
                   es': seq<(string, string)>, free: set<string>)
      requires Done(s1, u, par, es) && Frozen(s1, s2, free)
      requires u in s1.visited && u !in free
      requires forall e :: e in es && e.0 == u ==> e.1 in s1.visited && e.1 !in free && e in es'
      requires forall e :: e in es' && e.0 == u ==> e in es
      ensures Done(s2, u, par, es')
    {
      if trackTimes {
        var ns := adj[u];
        assert forall n :: n in ns && Some(n) != par ==> n in s1.visited;
        if s1.low[u] != s1.tin[u] {
          if e :| e in es && e.0 == u && e.1 in s1.low && s1.low[u] == s1.low[e.1] {
            assert e in es' && e.1 in s2.low && s2.low[u] == s2.low[e.1];
          } else {
            var m :| m in ns && Some(m) != par && m in s1.tin && s1.low[u] == s1.tin[m];
            assert m in s2.tin && s2.low[u] == s2.tin[m];
          }
        }
      }
    }

    /** The state after `low[v] = min(low[v], low[n])` and, when `low[n] >
        tin[v]`, appending `(min(v, n), max(v, n))` to the bridges. */
    ghost function Lowered(mid: Marks, v: string, n: string): Marks
      requires ReadyAt(mid) && v in mid.visited && n in mid.visited
    {
      mid.(low := if trackTimes then mid.low[v := Min(mid.low[v], mid.low[n])] else mid.low,
           bridges := mid.bridges + (if trackTimes && trackBridges && mid.low[n] > mid.tin[v]
                                     then [PairKey(v, n)] else []))
    }

    /** An unvisited neighbour `n`: the search below `n`, from `s0` to `mid`,
        as `Visit` promises; then, unless it stopped on a cycle, `v` takes
        `n`'s low link and records the edge as a bridge if `low[n] > tin[v]`. */
    ghost predicate TreeTurn(s0: Marks, mid: Marks, s1: Marks, v: string, n: string,
                             more: seq<string>, ends: seq<(string, string)>, exited: seq<string>, cycle: bool) {
      && ReadyAt(mid) && Finished(s0, mid, n, Some(v), more, ends, exited, cycle)
      && n in mid.visited && v in mid.visited
      && s1 == if cycle then mid else Lowered(mid, v, n)
    }

    /** The nodes found before a neighbour turn, `found`, and during it,
        `more`, are apart, and each part's `on_exit` calls are its own. */
    ghost predicate Apart(s1: Marks, mid: Marks, v: string, n: string, found: seq<string>, more: seq<string>,
                          exited: seq<string>, ex: seq<string>) {
      && |found| > 0 && found[0] == v && Elements(found) <= s1.visited && v !in Elements(found[1..])
      && Elements(found[1..]) <= Elements(found)
      && |more| > 0 && more[0] == n && Elements(more) !! s1.visited && Elements(more) <= mid.visited
      && v !in Elements(more) && Elements(more) == {n} + Elements(more[1..]) && Elements(more[1..]) <= Elements(more)
      && Elements(exited) <= Elements(found[1..]) && Elements(ex) <= Elements(more)
    }

    /** The bookkeeping after an unvisited neighbour. */
    lemma TreeStep(s0: Marks, s1: Marks, mid: Marks, s2: Marks, v: string, par: Option<string>, i: nat,
                   found: seq<string>, ends: seq<(string, string)>, exited: seq<string>,
                   more: seq<string>, ce: seq<(string, string)>, ex: seq<string>, cycle: bool)
      requires PartialAt(s0, s1, v, par, i, found, ends, exited) && i < |adj[v]|
      requires par != Some(adj[v][i]) && adj[v][i] !in s1.visited
      requires TreeTurn(s1, mid, s2, v, adj[v][i], more, ce, ex, cycle) && ReadyAt(s2)
      ensures !cycle ==> PartialAt(s0, s2, v, par, i + 1, found + more, ends + ce + [(v, adj[v][i])], exited + ex)
      ensures cycle ==> Finished(s0, s2, v, par, found + more, ends + ce, exited + ex, true)
    {
      TreeBase(s0, s1, mid, s2, v, par, i, found, ends, exited, more, ce, ex, cycle);
      if cycle {
        TreeCycle(s0, s1, mid, s2, v, par, i, found, ends, exited, more, ce, ex);
      } else {
        TreeOnBridges(s0, s1, mid, s2, v, par, i, found, ends, exited, more, ce, ex);
        TreeOnGrown(s0, s1, mid, s2, v, par, i, found, ends, exited, more, ce, ex);
      }
    }

    /** What an unvisited neighbour's turn keeps whether or not it stops on a
        cycle: discovery order, times and `on_exit` calls. */
    lemma TreeBase(s0: Marks, s1: Marks, mid: Marks, s2: Marks, v: string, par: Option<string>, i: nat,
                   found: seq<string>, ends: seq<(string, string)>, exited: seq<string>,
                   more: seq<string>, ce: seq<(string, string)>, ex: seq<string>, cycle: bool)
      requires PartialAt(s0, s1, v, par, i, found, ends, exited) && i < |adj[v]|
      requires par != Some(adj[v][i]) && adj[v][i] !in s1.visited
      requires TreeTurn(s1, mid, s2, v, adj[v][i], more, ce, ex, cycle)
      ensures Discovery(found + more, v, s0.visited) && s2.visited == s0.visited + Elements(found + more)
      ensures Stamped(s0, s2, found + more, {}) && v in s2.visited
      ensures Exited(s0, s2, exited + ex, found + more)
      ensures Exited(s0, s2, exited + ex, (found + more)[1..])
      ensures trackExit && !cycle ==> multiset(exited + ex) == multiset((found + more)[1..])
      ensures !cycle ==> s2.recStack == s1.recStack
    {
      TurnSets(s0, s1, mid, v, adj[v][i], found, more);
      VisitedPart(s0, s1, mid, v, found, more);
      StampedThen(s1, mid, s2, more, v);
      StampedCompose(s0, s1, s2, found, more, v);
      ExitPart(s0, s1, s2, found, exited, more, ex, cycle);
    }

    /** The snapshots of an unvisited neighbour's turn keep what came before. */
    lemma TreeFrames(s0: Marks, s1: Marks, mid: Marks, s2: Marks, v: string, par: Option<string>, i: nat,
                     found: seq<string>, ends: seq<(string, string)>, exited: seq<string>,
                     more: seq<string>, ce: seq<(string, string)>, ex: seq<string>, cycle: bool)
      requires PartialAt(s0, s1, v, par, i, found, ends, exited) && i < |adj[v]|
      requires par != Some(adj[v][i]) && adj[v][i] !in s1.visited
      requires TreeTurn(s1, mid, s2, v, adj[v][i], more, ce, ex, cycle)
      ensures Frozen(s1, mid, {}) && Frozen(mid, s2, {v}) && Frozen(s1, s2, {v})
      ensures Apart(s1, mid, v, adj[v][i], found, more, exited, ex)
    {
      TurnSets(s0, s1, mid, v, adj[v][i], found, more);
      TurnFrozen(s1, mid, s2, v, more);
    }

    /** The found nodes before and during a neighbour turn are apart. */
    lemma TurnSets(s0: Marks, s1: Marks, mid: Marks, v: string, n: string, found: seq<string>, more: seq<string>)
      requires Discovery(found, v, s0.visited) && s1.visited == s0.visited + Elements(found)
      requires Discovery(more, n, s1.visited) && mid.visited == s1.visited + Elements(more) && n !in s1.visited
      ensures Elements(found) <= s1.visited && v !in Elements(found[1..]) && v == found[0]
      ensures Elements(found[1..]) <= Elements(found)
      ensures Elements(more) !! s1.visited && Elements(more) <= mid.visited && v !in Elements(more)
      ensures more[0] == n && Elements(more) == {n} + Elements(more[1..]) && Elements(more[1..]) <= Elements(more)
    {
      RootNotBelow(found, v, s0.visited);
      RootNotBelow(more, n, s1.visited);
      assert Elements(more) !! s1.visited by {
        forall k | 0 <= k < |more| ensures more[k] !in s1.visited {
        }
      }
    }

    /** A neighbour turn changes no earlier time, and no earlier low link but `v`'s. */
    lemma TurnFrozen(s1: Marks, mid: Marks, s2: Marks, v: string, more: seq<string>)
      requires Stamped(s1, mid, more, {}) && Elements(more) !! s1.visited && s1.visited <= mid.visited
      requires s2.visited == mid.visited && s2.tin == mid.tin
      requires trackTimes ==> forall x :: x in mid.low && x != v ==> x in s2.low && s2.low[x] == mid.low[x]
      ensures Frozen(s1, mid, {}) && Frozen(mid, s2, {v}) && Frozen(s1, s2, {v})
    {
      FrozenOf(s1, mid, more, {});
      FrozenTrans(s1, mid, s2, {}, {v});
    }

    /** An unvisited neighbour's turn that stops on a cycle. */
    lemma TreeCycle(s0: Marks, s1: Marks, mid: Marks, s2: Marks, v: string, par: Option<string>, i: nat,
                    found: seq<string>, ends: seq<(string, string)>, exited: seq<string>,
                    more: seq<string>, ce: seq<(string, string)>, ex: seq<string>)
      requires PartialAt(s0, s1, v, par, i, found, ends, exited) && i < |adj[v]|
      requires par != Some(adj[v][i]) && adj[v][i] !in s1.visited
      requires TreeTurn(s1, mid, s2, v, adj[v][i], more, ce, ex, true)
      ensures Bridged(s0, s2, ends + ce) && Stacked(s0, s2, {v}, true, v)
    {
      TreeFrames(s0, s1, mid, s2, v, par, i, found, ends, exited, more, ce, ex, true);
      TreeCycleBridges(s0, s1, mid, found, ends, ce);
      if !HasCycle(adj) {
        StepsPrepend(adj, v, adj[v][i], s1.recStack);
      }
      CycleBackToRoot(adj, v, s1.recStack, s0.recStack);
    }

    /** The bridges after an unvisited neighbour's turn that returns normally. */
    lemma TreeOnBridges(s0: Marks, s1: Marks, mid: Marks, s2: Marks, v: string, par: Option<string>, i: nat,
                        found: seq<string>, ends: seq<(string, string)>, exited: seq<string>,
                        more: seq<string>, ce: seq<(string, string)>, ex: seq<string>)
      requires PartialAt(s0, s1, v, par, i, found, ends, exited) && i < |adj[v]|
      requires par != Some(adj[v][i]) && adj[v][i] !in s1.visited
      requires TreeTurn(s1, mid, s2, v, adj[v][i], more, ce, ex, false)
      ensures Bridged(s0, s2, ends + ce + [(v, adj[v][i])])
    {
      TreeFrames(s0, s1, mid, s2, v, par, i, found, ends, exited, more, ce, ex, false);
      TreeBridges(s0, s1, mid, s2, v, adj[v][i], found, ends, more, ce, exited, ex);
    }

    /** The search tree after an unvisited neighbour's turn that returns normally. */
    lemma TreeOnGrown(s0: Marks, s1: Marks, mid: Marks, s2: Marks, v: string, par: Option<string>, i: nat,
                      found: seq<string>, ends: seq<(string, string)>, exited: seq<string>,
                      more: seq<string>, ce: seq<(string, string)>, ex: seq<string>)
      requires PartialAt(s0, s1, v, par, i, found, ends, exited) && i < |adj[v]|
      requires par != Some(adj[v][i]) && adj[v][i] !in s1.visited
      requires TreeTurn(s1, mid, s2, v, adj[v][i], more, ce, ex, false)
      ensures Grown(s2, v, par, adj[v][..i + 1], found + more, ends + ce + [(v, adj[v][i])], exited + ex)
    {
      var n := adj[v][i];
      TreeFrames(s0, s1, mid, s2, v, par, i, found, ends, exited, more, ce, ex, false);
      PrefixNext(adj[v], i);
      TreeGrown(s1, mid, s2, v, par, adj[v][..i], n, found, ends, exited, more, ce, ex);
    }

    /** The nodes found by a neighbour turn extend the discovery order. */
    lemma VisitedPart(s0: Marks, s1: Marks, s2: Marks, v: string, found: seq<string>, more: seq<string>)
      requires Discovery(found, v, s0.visited) && s1.visited == s0.visited + Elements(found)
      requires NoRepeats(more) && Elements(more) !! s1.visited && s2.visited == s1.visited + Elements(more)
      ensures Discovery(found + more, v, s0.visited) && s2.visited == s0.visited + Elements(found + more)
      ensures v in Elements(found) && Elements(found) !! Elements(more)
    {
      DiscoveryAppend(found, more, v, s0.visited, s1.visited);
      ElementsAppend(found, more);
    }

    lemma StampedCompose(s0: Marks, s1: Marks, s2: Marks, found: seq<string>, more: seq<string>, v: string)
      requires Stamped(s0, s1, found, {}) && Stamped(s1, s2, more, {v})
      requires v in Elements(found) && Elements(found) !! Elements(more)
      ensures Stamped(s0, s2, found + more, {})
    {
      ElementsAppend(found, more);
      if trackTimes {
        forall i | 0 <= i < |found + more|
          ensures (found + more)[i] in s2.tin && s2.tin[(found + more)[i]] == s0.time + i
        {
          if i < |found| {
            assert (found + more)[i] == found[i] && found[i] in Elements(found);
          } else {
            assert (found + more)[i] == more[i - |found|];
          }
        }
      }
    }

    lemma StampedThen(s0: Marks, s1: Marks, s2: Marks, more: seq<string>, v: string)
      requires Stamped(s0, s1, more, {}) && Stamped(s1, s2, [], {v})
      ensures Stamped(s0, s2, more, {v})
    {
    }

    /** The `on_exit` calls of a neighbour turn follow those before it. */
    lemma ExitPart(s0: Marks, s1: Marks, s2: Marks, found: seq<string>, exited: seq<string>,
                   more: seq<string>, moreExited: seq<string>, cycle: bool)
      requires |found| > 0
      requires Exited(s0, s1, exited, found[1..]) && (trackExit ==> multiset(exited) == multiset(found[1..]))
      requires Exited(s1, s2, moreExited, more) && (trackExit && !cycle ==> multiset(moreExited) == multiset(more))
      ensures Exited(s0, s2, exited + moreExited, (found + more)[1..]) && Exited(s0, s2, exited + moreExited, found + more)
      ensures trackExit && !cycle ==> multiset(exited + moreExited) == multiset((found + more)[1..])
    {
      assert (found + more)[1..] == found[1..] + more;
      assert found == [found[0]] + found[1..];
      ElementsAppend(found[1..], more);
      ElementsAppend([found[0]], found[1..] + more);
      ElementsAppend(exited, moreExited);
    }

    /** The bridges after a search below a neighbour that stopped on a cycle. */
    lemma TreeCycleBridges(s0: Marks, s1: Marks, mid: Marks, found: seq<string>,
                           ends: seq<(string, string)>, ce: seq<(string, string)>)
      requires ReadyAt(s1) && Bridged(s0, s1, ends) && Bridged(s1, mid, ce) && Frozen(s1, mid, {})
      requires Shape(found, ends) && Elements(found) <= s1.visited
      ensures Bridged(s0, mid, ends + ce)
    {
      BridgeListKept(s1, mid, {}, found, ends);
      BridgeListAppend(mid.tin, mid.low, ends, ce);
    }

    /** The bridges after a tree edge: those below `n`, then the edge's own. */
    lemma TreeBridges(s0: Marks, s1: Marks, mid: Marks, s2: Marks, v: string, n: string, found: seq<string>,
                      ends: seq<(string, string)>, more: seq<string>, ce: seq<(string, string)>,
                      exited: seq<string>, ex: seq<string>)
      requires ReadyAt(s1) && ReadyAt(mid) && Bridged(s0, s1, ends) && Bridged(s1, mid, ce)
      requires Shape(found, ends) && Shape(more, ce) && Apart(s1, mid, v, n, found, more, exited, ex)
      requires Frozen(s1, s2, {v}) && Frozen(mid, s2, {v})
      requires v in mid.visited && n in mid.visited && s2 == Lowered(mid, v, n)
      ensures Bridged(s0, s2, ends + ce + [(v, n)])
    {
      if trackTimes && trackBridges {
        BridgeListKept(s1, s2, {v}, found, ends);
        BridgeListKept(mid, s2, {v}, more, ce);
        assert s2.low[n] == mid.low[n] && s2.tin == mid.tin;
        BridgeSum(s0.bridges, s1.bridges, mid.bridges, s2.bridges, s2.tin, s2.low, ends, ce, v, n);
      }
    }

    /** The tree after an unvisited neighbour: the tree below `n` joins, with
        the edge `(v, n)`. */
    lemma TreeGrown(s1: Marks, mid: Marks, s2: Marks, v: string, par: Option<string>, ns: seq<string>, n: string,
                    found: seq<string>, ends: seq<(string, string)>, exited: seq<string>,
                    more: seq<string>, ce: seq<(string, string)>, ex: seq<string>)
      requires ReadyAt(s1) && ReadyAt(mid) && v in adj && n in adj[v] && par != Some(n)
      requires Grown(s1, v, par, ns, found, ends, exited) && Grown(mid, n, Some(v), adj[n], more, ce, ex)
      requires Apart(s1, mid, v, n, found, more, exited, ex)
      requires Frozen(s1, mid, {}) && Frozen(mid, s2, {v}) && Frozen(s1, s2, {v})
      requires v in mid.visited && n in mid.visited && s2 == Lowered(mid, v, n)
      ensures Grown(s2, v, par, ns + [n], found + more, ends + ce + [(v, n)], exited + ex)
    {
      TreeShape(s1, mid, v, n, found, ends, exited, more, ce, ex);
      TreeDone(s1, mid, s2, v, n, found, ends, more, ce, exited, ex);
      TreeOrder(s1, mid, v, n, found, ends, exited, more, ce, ex);
      assert Explored(s2, v, par, ns + [n]) by {
        assert forall m :: m in ns + [n] <==> m in ns || m == n;
      }
      if trackTimes {
        TreeLow(s1, mid, s2, v, par, ns, n, found, ends, exited, more, ce, ex);
      }
    }

    /** The tree edges after the turn at `n` lead to exactly the nodes found
        below `v`. */
    lemma TreeShape(s1: Marks, mid: Marks, v: string, n: string, found: seq<string>, ends: seq<(string, string)>,
                    exited: seq<string>, more: seq<string>, ce: seq<(string, string)>, ex: seq<string>)
      requires v in adj && n in adj[v]
      requires Shape(found, ends) && Shape(more, ce) && Apart(s1, mid, v, n, found, more, exited, ex)
      ensures Shape(found + more, ends + ce + [(v, n)])
    {
      TreeKids(v, n, found, ends, more, ce);
      ElementsAppend(found, more);
      assert |found + more| > 0;
    }

    lemma TreeKids(v: string, n: string, found: seq<string>, ends: seq<(string, string)>,
                   more: seq<string>, ce: seq<(string, string)>)
      requires |found| > 0 && Kids(ends) == Elements(found[1..]) && |more| > 0 && Kids(ce) == Elements(more[1..])
      requires Elements(more) == {n} + Elements(more[1..])
      ensures Kids(ends + ce + [(v, n)]) == Elements((found + more)[1..])
    {
      KidsAppend(ends, ce);
      KidsAppend(ends + ce, [(v, n)]);
      assert Kids([(v, n)]) == {n};
      assert (found + more)[1..] == found[1..] + more;
      ElementsAppend(found[1..], more);
    }

    /** The `on_exit` calls after the turn at `n` stay a postorder. */
    lemma TreeOrder(s1: Marks, mid: Marks, v: string, n: string, found: seq<string>, ends: seq<(string, string)>,
                    exited: seq<string>, more: seq<string>, ce: seq<(string, string)>, ex: seq<string>)
      requires PostOrder(exited, ends) && PostOrder(ex, ce)
      requires Shape(found, ends) && Shape(more, ce) && Apart(s1, mid, v, n, found, more, exited, ex)
      ensures PostOrder(exited + ex, ends + ce + [(v, n)])
    {
      PostOrderJoin(exited, ex, ends, ce) by {
        forall e | e in ends ensures e.1 !in Elements(ex) {
          assert e.1 in Kids(ends);
        }
      }
      PostOrderEdge(exited + ex, ends + ce, (v, n)) by {
        ElementsAppend(exited, ex);
      }
    }

    /** `v`'s low link after taking `n`'s. */
    lemma TreeLow(s1: Marks, mid: Marks, s2: Marks, v: string, par: Option<string>, ns: seq<string>, n: string,
                  found: seq<string>, ends: seq<(string, string)>, exited: seq<string>,
                  more: seq<string>, ce: seq<(string, string)>, ex: seq<string>)
      requires trackTimes && ReadyAt(s1) && ReadyAt(mid) && par != Some(n) && n in adj
      requires LowOf(s1, v, par, ns, ends) && Explored(s1, v, par, ns) && LowOf(mid, n, Some(v), adj[n], ce)
      requires Shape(found, ends) && Shape(more, ce) && Apart(s1, mid, v, n, found, more, exited, ex)
      requires Frozen(s1, mid, {}) && Frozen(s1, s2, {v})
      requires v in mid.visited && n in mid.visited && s2 == Lowered(mid, v, n)
      ensures LowOf(s2, v, par, ns + [n], ends + ce + [(v, n)])
    {
      var es' := ends + ce + [(v, n)];
      assert forall e :: e in es' && e.0 == v ==> e in ends || e == (v, n);
      forall e | e in ends && e.0 == v ensures e.1 in s1.visited && e.1 != v {
        assert e.1 in Kids(ends);
      }
      assert mid.low[v] == s1.low[v];
      LowTree(s1, s2, v, par, ns, n, ends, es');
    }

    /** Every call below `v` is over after the turn at `n`: those from before,
        those below `n`, and `n`'s own. */
    lemma TreeDone(s1: Marks, mid: Marks, s2: Marks, v: string, n: string, found: seq<string>,
                   ends: seq<(string, string)>, more: seq<string>, ce: seq<(string, string)>,
                   exited: seq<string>, ex: seq<string>)
      requires ReadyAt(s1) && v in adj && n in adj[v]
      requires Shape(found, ends) && AllDone(s1, ends) && Shape(more, ce) && AllDone(mid, ce)
      requires Done(mid, n, Some(v), ce) && Apart(s1, mid, v, n, found, more, exited, ex)
      requires Frozen(mid, s2, {v}) && Frozen(s1, s2, {v})
      ensures AllDone(s2, ends + ce + [(v, n)])
    {
      var es' := ends + ce + [(v, n)];
      forall e | e in ends ensures Done(s2, e.1, Some(e.0), es') {
        assert e.1 in Kids(ends);
        assert forall e' :: e' in es' && e'.0 == e.1 ==> e' in ends;
        forall e' | e' in ends && e'.0 == e.1 ensures e'.1 in s1.visited && e'.1 != v {
          assert e'.1 in Kids(ends);
        }
        DoneKept(s1, s2, e.1, Some(e.0), ends, es', {v});
      }
      forall e | e in ce ensures Done(s2, e.1, Some(e.0), es') {
        assert e.1 in Kids(ce);
        assert forall e' :: e' in es' && e'.0 == e.1 ==> e' in ce;
        forall e' | e' in ce && e'.0 == e.1 ensures e'.1 in mid.visited && e'.1 != v {
          assert e'.1 in Kids(ce);
        }
        DoneKept(mid, s2, e.1, Some(e.0), ce, es', {v});
      }
      assert forall e' :: e' in es' && e'.0 == n ==> e' in ce;
      forall e' | e' in ce && e'.0 == n ensures e'.1 in mid.visited && e'.1 != v {
        assert e'.1 in Kids(ce);
      }
      DoneKept(mid, s2, n, Some(v), ce, es', {v});
    }

    /** `low[v] = min(low[v], low[n])` counts the child `n`, whose low link is
        at most its discovery time. */
    lemma LowTree(s1: Marks, s2: Marks, v: string, par: Option<string>, ns: seq<string>, n: string,
                  es: seq<(string, string)>, es': seq<(string, string)>)
      requires LowOf(s1, v, par, ns, es) && Explored(s1, v, par, ns) && Frozen(s1, s2, {v})
      requires trackTimes && v in s1.visited
      requires forall e :: e in es && e.0 == v ==> e.1 in s1.visited && e.1 != v
      requires Some(n) != par && n in s2.tin && n in s2.low && s2.low[n] <= s2.tin[n]
      requires v in s2.low && s2.low[v] == Min(s1.low[v], s2.low[n])
      requires (v, n) in es' && (forall e :: e in es' && e.0 == v ==> e in es || e == (v, n))
      requires forall e :: e in es ==> e in es'
      ensures LowOf(s2, v, par, ns + [n], es')
    {
      assert forall m :: m in ns + [n] <==> m in ns || m == n;
      if s2.low[v] != s1.low[v] {
        assert (v, n) in es' && s2.low[v] == s2.low[n];
      } else if s1.low[v] != s1.tin[v] {
        if e :| e in es && e.0 == v && e.1 in s1.low && s1.low[v] == s1.low[e.1] {
          assert e in es' && e.1 in s2.low && s2.low[v] == s2.low[e.1];
        } else {
          var m :| m in ns && Some(m) != par && m in s1.tin && s1.low[v] == s1.tin[m];
          assert m in ns + [n] && m in s2.tin && s2.low[v] == s2.tin[m];
        }
      }
    }

    /** One turn of the neighbour loop of `generic_dfs` at `v`, for neighbour
        `n`: the parent is skipped and changes nothing; a visited neighbour
        lowers `low[v]` to `tin[n]` and is checked against the stack; an
        unvisited one is searched from, as `TreeTurn` says. */
    method VisitNeighbor(v: string, n: string, parent: Option<string>)
      returns (cycle: bool, ghost more: seq<string>, ghost ends: seq<(string, string)>, ghost exited: seq<string>,
               ghost mid: Marks)
      requires Ready() && v in adj && n in adj[v] && v in visited
      modifies this
      ensures Ready()
      ensures parent == Some(n) ==> !cycle && Now() == old(Now())
      ensures parent != Some(n) && n in old(visited) ==> BackTurn(old(Now()), Now(), v, n, cycle)
      ensures parent != Some(n) && n !in old(visited) ==> TreeTurn(old(Now()), mid, Now(), v, n, more, ends, exited, cycle)
      decreases adj.Keys - visited, 1
    {
      more, ends, exited, mid := [], [], [], Now();
      if parent == Some(n) {
        cycle := false;
      } else if n !in visited {
        cycle, more, ends, exited, mid := TreeEdge(v, n);
      } else {
        cycle := BackEdge(v, n);
      }
    }

    /** An unvisited neighbour: search from it, then take its low link and
        record the edge as a bridge if nothing below `n` reaches back above `v`. */
    method TreeEdge(v: string, n: string)
      returns (cycle: bool, ghost more: seq<string>, ghost ends: seq<(string, string)>, ghost exited: seq<string>,
               ghost mid: Marks)
      requires Ready() && v in adj && n in adj[v] && v in visited && n !in visited
      modifies this
      ensures Ready() && TreeTurn(old(Now()), mid, Now(), v, n, more, ends, exited, cycle)
      decreases adj.Keys - visited, 0
    {
      cycle, more, ends, exited := Visit(n, Some(v));
      mid := Now();
      assert n in Elements(more);
      if !cycle {
        TakeLowLink(v, n);
      }
    }

    /** After the search below `n` returns: `low[v] = min(low[v], low[n])`,
        and `(min(v, n), max(v, n))` is appended to the bridges exactly when
        `low[n] > tin[v]`. */
    method TakeLowLink(v: string, n: string)
      requires Ready() && v in visited && n in visited && v != n
      modifies this`low, this`bridges
      ensures Ready()
      ensures low == if trackTimes then old(low)[v := Min(old(low)[v], old(low)[n])] else old(low)
      ensures bridges == old(bridges) + (if trackTimes && trackBridges && old(low)[n] > tin[v] then [PairKey(v, n)] else [])
    {
      if trackTimes {
        low := low[v := Min(low[v], low[n])];
        if trackBridges && low[n] > tin[v] {
          bridges := bridges + [PairKey(v, n)];
        }
      }
    }

    /** A visited neighbour: `low[v] = min(low[v], tin[n])`, and if `n` is on
        the recursion stack the search has closed a cycle. */
    method BackEdge(v: string, n: string) returns (cycle: bool)
      requires Ready() && v in adj && n in adj[v] && v in visited && n in visited
      modifies this`low
      ensures Ready()
      ensures low == if trackTimes then old(low)[v := Min(old(low)[v], tin[n])] else old(low)
      ensures cycle <==> trackStack && n in recStack
      ensures BackTurn(old(Now()), Now(), v, n, cycle)
    {
      if trackTimes {
        low := low[v := Min(low[v], tin[n])];
      }
      cycle := trackStack && n in recStack;
    }
  }
}
