/** The candidate streams the brute-force solvers of np_problems.py search:
    `itertools.combinations` and `itertools.permutations`, in the order those
    generators yield them, and the "first candidate that passes" of a
    `for ... : if ...: return` loop over such a stream. */
module Enumeration {
  import opened Common

  /** Every sequence of `cs` with `x` put in front of it, in the same order. */
  function Prefixed<T>(x: T, cs: seq<seq<T>>): seq<seq<T>> {
    seq(|cs|, i requires 0 <= i < |cs| => [x] + cs[i])
  }

  /** `itertools.combinations(s, k)`: the k-element sub-sequences of `s`,
      in lexicographic order of their positions (those starting with
      `s[0]` first, then those that skip it). */
  function Combinations<T>(s: seq<T>, k: nat): (r: seq<seq<T>>)
    ensures k > |s| ==> r == []
    decreases |s|
  {
    if k == 0 then [[]]
    else if s == [] then []
    else Prefixed(s[0], Combinations(s[1..], k - 1)) + Combinations(s[1..], k)
  }

  /** A choice of positions, strictly increasing. */
  predicate Increasing(idx: seq<int>) {
    forall i, j :: 0 <= i < j < |idx| ==> idx[i] < idx[j]
  }

  /** Every position is an index of a sequence of length `n`. */
  predicate Below(idx: seq<int>, n: int) {
    forall i :: 0 <= i < |idx| ==> 0 <= idx[i] < n
  }

  /** The elements of `s` at the positions `idx`. */
  function Pick<T>(s: seq<T>, idx: seq<int>): seq<T>
    requires Below(idx, |s|)
  {
    seq(|idx|, i requires 0 <= i < |idx| => s[idx[i]])
  }

  /** `c` is the sub-sequence of `s` at some k increasing positions. */
  ghost predicate IsCombination<T>(s: seq<T>, k: nat, c: seq<T>) {
    exists idx :: Increasing(idx) && |idx| == k && Below(idx, |s|) && c == Pick(s, idx)
  }

  function Shift(idx: seq<int>, d: int): (r: seq<int>)
    ensures |r| == |idx| && forall i :: 0 <= i < |idx| ==> r[i] == idx[i] + d
  {
    seq(|idx|, i requires 0 <= i < |idx| => idx[i] + d)
  }

  lemma ShiftIncreasing(idx: seq<int>, d: int)
    requires Increasing(idx)
    ensures Increasing(Shift(idx, d))
  {
  }

  /** Positions into `s[1..]`, moved one place right, are positions into `s`
      that pick the same elements. */
  lemma PickTail<T>(s: seq<T>, idx: seq<int>)
    requires |s| > 0 && Below(idx, |s| - 1)
    ensures Below(Shift(idx, 1), |s|) && Pick(s, Shift(idx, 1)) == Pick(s[1..], idx)
  {
  }

  /** Positions into `s`, all past the first, moved one place left, are
      positions into `s[1..]` that pick the same elements. */
  lemma PickDrop<T>(s: seq<T>, idx: seq<int>)
    requires Below(idx, |s|) && forall i :: 0 <= i < |idx| ==> idx[i] > 0
    ensures |s| > 0 ==> Below(Shift(idx, -1), |s| - 1) && Pick(s[1..], Shift(idx, -1)) == Pick(s, idx)
  {
  }

  /** Position 0 in front of positions into `s[1..]` moved one place right. */
  lemma PickHead<T>(s: seq<T>, idx: seq<int>)
    requires |s| > 0 && Increasing(idx) && Below(idx, |s| - 1)
    ensures Increasing([0] + Shift(idx, 1)) && Below([0] + Shift(idx, 1), |s|)
    ensures Pick(s, [0] + Shift(idx, 1)) == [s[0]] + Pick(s[1..], idx)
  {
    ShiftIncreasing(idx, 1);
    PickTail(s, idx);
    var j := [0] + Shift(idx, 1);
    assert Pick(s, j)[1..] == Pick(s, Shift(idx, 1));
  }

  /** What `combinations` yields for `k > 0` either takes `s[0]` and
      continues with a combination of the rest, or skips `s[0]`. */
  lemma CombinationsCases<T>(s: seq<T>, k: nat, c: seq<T>) returns (takes: bool)
    requires k > 0 && c in Combinations(s, k)
    ensures s != []
    ensures takes ==> |c| > 0 && c[0] == s[0] && c[1..] in Combinations(s[1..], k - 1)
    ensures !takes ==> c in Combinations(s[1..], k)
  {
    var tail := Combinations(s[1..], k - 1);
    var head := Prefixed(s[0], tail);
    takes := c in head;
    if takes {
      var i :| 0 <= i < |head| && head[i] == c;
      assert c[1..] == tail[i];
    }
  }

  /** The only 0-combination is the empty one. */
  lemma CombinationsZero<T>(s: seq<T>, c: seq<T>)
    requires c in Combinations(s, 0)
    ensures IsCombination(s, 0, c)
  {
    assert c == Pick(s, []);
  }

  /** A choice of positions in `s[1..]`, moved one place right, with or
      without position 0 in front, is a choice of positions in `s`. */
  lemma ExtendHead<T>(s: seq<T>, k: nat, c: seq<T>)
    requires s != [] && k > 0 && |c| > 0 && c[0] == s[0] && IsCombination(s[1..], k - 1, c[1..])
    ensures IsCombination(s, k, c)
  {
    var idx :| Increasing(idx) && |idx| == k - 1 && Below(idx, |s[1..]|) && c[1..] == Pick(s[1..], idx);
    PickHead(s, idx);
    assert c == [s[0]] + c[1..];
  }

  lemma ExtendSkip<T>(s: seq<T>, k: nat, c: seq<T>)
    requires s != [] && IsCombination(s[1..], k, c)
    ensures IsCombination(s, k, c)
  {
    var idx :| Increasing(idx) && |idx| == k && Below(idx, |s[1..]|) && c == Pick(s[1..], idx);
    ShiftIncreasing(idx, 1);
    PickTail(s, idx);
  }

  /** Everything `combinations` yields is a choice of k positions. */
  lemma {:induction false} CombinationsSound<T>(s: seq<T>, k: nat, c: seq<T>)
    requires c in Combinations(s, k)
    ensures IsCombination(s, k, c)
    decreases |s|
  {
    if k == 0 {
      CombinationsZero(s, c);
    } else {
      var takes := CombinationsCases(s, k, c);
      if takes {
        CombinationsSound(s[1..], k - 1, c[1..]);
        ExtendHead(s, k, c);
      } else {
        CombinationsSound(s[1..], k, c);
        ExtendSkip(s, k, c);
      }
    }
  }

  /** The two halves of the stream for `k > 0`: combinations that take
      `s[0]`, then those that skip it. */
  lemma CombinationsSplit<T>(s: seq<T>, k: nat, c: seq<T>)
    requires s != [] && k > 0
    ensures c in Combinations(s[1..], k - 1) ==> [s[0]] + c in Combinations(s, k)
    ensures c in Combinations(s[1..], k) ==> c in Combinations(s, k)
  {
    var tail := Combinations(s[1..], k - 1);
    if c in tail {
      var i :| 0 <= i < |tail| && tail[i] == c;
      assert Prefixed(s[0], tail)[i] == [s[0]] + c;
    }
  }

  /** Positions into `s` that start at 0: the rest, moved one place left,
      are positions into `s[1..]`. */
  lemma DropHead<T>(s: seq<T>, idx: seq<int>)
    requires Increasing(idx) && |idx| > 0 && Below(idx, |s|) && idx[0] == 0
    ensures Increasing(Shift(idx[1..], -1)) && Below(Shift(idx[1..], -1), |s[1..]|)
    ensures Pick(s, idx) == [s[0]] + Pick(s[1..], Shift(idx[1..], -1))
  {
    assert forall i :: 0 <= i < |idx[1..]| ==> idx[1..][i] > 0 by {
      forall i | 0 <= i < |idx[1..]| ensures idx[1..][i] > 0 {
        assert idx[1..][i] == idx[i + 1] && idx[0] < idx[i + 1];
      }
    }
    PickDrop(s, idx[1..]);
    ShiftIncreasing(idx[1..], -1);
    assert Pick(s, idx)[1..] == Pick(s, idx[1..]);
  }

  /** Positions into `s` that do not start at 0, moved one place left, are
      positions into `s[1..]`. */
  lemma DropSkip<T>(s: seq<T>, idx: seq<int>)
    requires Increasing(idx) && |idx| > 0 && Below(idx, |s|) && idx[0] != 0
    ensures Increasing(Shift(idx, -1)) && Below(Shift(idx, -1), |s[1..]|)
    ensures Pick(s, idx) == Pick(s[1..], Shift(idx, -1))
  {
    assert forall i :: 0 <= i < |idx| ==> idx[i] > 0 by {
      forall i | 0 <= i < |idx| ensures idx[i] > 0 {
        assert i == 0 || idx[0] < idx[i];
      }
    }
    PickDrop(s, idx);
    ShiftIncreasing(idx, -1);
  }

  /** Every choice of k positions is yielded by `combinations`. */
  lemma {:induction false} CombinationsComplete<T>(s: seq<T>, k: nat, idx: seq<int>)
    requires Increasing(idx) && |idx| == k && Below(idx, |s|)
    ensures Pick(s, idx) in Combinations(s, k)
    decreases |s|
  {
    if k > 0 {
      if idx[0] == 0 {
        DropHead(s, idx);
        CombinationsComplete(s[1..], k - 1, Shift(idx[1..], -1));
        CombinationsSplit(s, k, Pick(s[1..], Shift(idx[1..], -1)));
      } else {
        DropSkip(s, idx);
        CombinationsComplete(s[1..], k, Shift(idx, -1));
        CombinationsSplit(s, k, Pick(s[1..], Shift(idx, -1)));
      }
    } else {
      assert Pick(s, idx) == [];
    }
  }

  /** `itertools.permutations(s)`: every ordering of `s`, in lexicographic
      order of positions (first element `s[0]`, then `s[1]`, ..., each
      followed by the orderings of what is left, in original order). */
  function Permutations<T>(s: seq<T>): seq<seq<T>>
    decreases |s|, 1, 0
  {
    if s == [] then [[]] else PermsFrom(s, 0)
  }

  /** The orderings of `s` whose first element is taken from position `i`
      or later. */
  function PermsFrom<T>(s: seq<T>, i: nat): seq<seq<T>>
    requires i <= |s|
    decreases |s|, 0, |s| - i
  {
    if i == |s| then []
    else Prefixed(s[i], Permutations(s[..i] + s[i + 1..])) + PermsFrom(s, i + 1)
  }

  /** Everything `permutations` yields is a rearrangement of `s`. */
  lemma {:induction false} PermutationsSound<T>(s: seq<T>, p: seq<T>)
    requires p in Permutations(s)
    ensures multiset(p) == multiset(s)
    decreases |s|, 1, 0
  {
    if s != [] {
      PermsFromSound(s, 0, p);
    }
  }

  lemma {:induction false} PermsFromSound<T>(s: seq<T>, i: nat, p: seq<T>)
    requires i <= |s| && p in PermsFrom(s, i)
    ensures multiset(p) == multiset(s)
    decreases |s|, 0, |s| - i
  {
    var rest := s[..i] + s[i + 1..];
    var head := Prefixed(s[i], Permutations(rest));
    if p in head {
      var j :| 0 <= j < |head| && head[j] == p;
      PermutationsSound(rest, Permutations(rest)[j]);
      assert s == s[..i] + [s[i]] + s[i + 1..];
    } else {
      PermsFromSound(s, i + 1, p);
    }
  }

  /** A candidate with its first element at position `i` is yielded by the
      part of the stream starting at any earlier position. */
  lemma {:induction false} PermsFromContains<T>(s: seq<T>, j: nat, i: nat, q: seq<T>)
    requires j <= i < |s| && q in Permutations(s[..i] + s[i + 1..])
    ensures [s[i]] + q in PermsFrom(s, j)
    decreases i - j
  {
    if j < i {
      PermsFromContains(s, j + 1, i, q);
    } else {
      var tail := Permutations(s[..i] + s[i + 1..]);
      var k :| 0 <= k < |tail| && tail[k] == q;
      assert Prefixed(s[i], tail)[k] == [s[i]] + q;
    }
  }

  /** Every rearrangement of `s` is yielded by `permutations`. */
  lemma {:induction false} PermutationsComplete<T>(s: seq<T>, p: seq<T>)
    requires multiset(p) == multiset(s)
    ensures p in Permutations(s)
    decreases |s|
  {
    if s == [] {
      assert |p| == 0;
    } else {
      assert |p| == |multiset(p)| == |s|;
      assert p[0] in multiset(s);
      var i :| 0 <= i < |s| && s[i] == p[0];
      var rest := s[..i] + s[i + 1..];
      assert s == s[..i] + [s[i]] + s[i + 1..];
      assert p == [p[0]] + p[1..];
      assert multiset(p[1..]) == multiset(p) - multiset{p[0]};
      assert multiset(rest) == multiset(s) - multiset{s[i]};
      PermutationsComplete(rest, p[1..]);
      PermsFromContains(s, 0, i, p[1..]);
    }
  }

  /** The position of the first candidate from `i` on that passes `good`,
      as a `for` loop that returns at the first success finds it. */
  function FirstFrom<T>(cs: seq<T>, good: T -> bool, i: nat): (r: Option<nat>)
    requires i <= |cs|
    ensures r.Some? ==> i <= r.value < |cs| && good(cs[r.value])
                        && forall j :: i <= j < r.value ==> !good(cs[j])
    ensures r.None? ==> forall j :: i <= j < |cs| ==> !good(cs[j])
    decreases |cs| - i
  {
    if i == |cs| then None
    else if good(cs[i]) then Some(i)
    else FirstFrom(cs, good, i + 1)
  }
}
