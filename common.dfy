/** Small shared vocabulary: an Option type and Python's ordering of strings,
    which the source uses to normalise unordered vertex pairs with min/max. */
module Common {

  datatype Option<T> = None | Some(value: T)

  /** An element of a solver's answer: a vertex name, or a 2-tuple of names. */
  datatype Item = Name(name: string) | Pair(a: string, b: string)

  /** Python's `a < b` on str: lexicographic comparison by code point, where a
      proper prefix is smaller. */
  predicate StrLt(a: string, b: string)
    decreases |a|
  {
    if |a| == 0 then |b| > 0
    else if |b| == 0 then false
    else if a[0] != b[0] then a[0] < b[0]
    else StrLt(a[1..], b[1..])
  }

  /** Python's `min(a, b)`: the first argument unless the second is smaller. */
  function MinStr(a: string, b: string): string {
    if StrLt(b, a) then b else a
  }

  /** Python's `max(a, b)`: the first argument unless the second is larger. */
  function MaxStr(a: string, b: string): string {
    if StrLt(a, b) then b else a
  }

  /** The normalised key `(min(a, b), max(a, b))` of an unordered pair. */
  function PairKey(a: string, b: string): (string, string) {
    (MinStr(a, b), MaxStr(a, b))
  }

  /** Two names join the same unordered pair: `{a, b} == {c, d}` as Python sets. */
  predicate SamePair(a: string, b: string, c: string, d: string) {
    (a == c && b == d) || (a == d && b == c)
  }

  /** SamePair is Python's `{a, b} == {c, d}`. */
  lemma SamePairSets(a: string, b: string, c: string, d: string)
    ensures {a, b} == {c, d} <==> SamePair(a, b, c, d)
  {
    if {a, b} == {c, d} {
      assert a in {c, d} && b in {c, d} && c in {a, b} && d in {a, b};
    }
  }

  lemma {:induction false} StrLtIrreflexive(a: string)
    ensures !StrLt(a, a)
    decreases |a|
  {
    if |a| > 0 {
      StrLtIrreflexive(a[1..]);
    }
  }

  lemma {:induction false} StrLtAsymmetric(a: string, b: string)
    ensures !(StrLt(a, b) && StrLt(b, a))
    decreases |a|
  {
    if |a| > 0 && |b| > 0 && a[0] == b[0] {
      StrLtAsymmetric(a[1..], b[1..]);
    }
  }

  /** Python's string order is total: distinct strings are always comparable. */
  lemma {:induction false} StrLtTotal(a: string, b: string)
    requires a != b
    ensures StrLt(a, b) || StrLt(b, a)
    decreases |a|
  {
    if |a| > 0 && |b| > 0 && a[0] == b[0] {
      assert a == [a[0]] + a[1..] && b == [b[0]] + b[1..];
      StrLtTotal(a[1..], b[1..]);
    }
  }

  /** The normalised key is a correct representation of the unordered pair:
      two keys agree exactly when the pairs are the same as sets. */
  lemma PairKeyEqual(a: string, b: string, c: string, d: string)
    ensures PairKey(a, b) == PairKey(c, d) <==> SamePair(a, b, c, d)
  {
    StrLtIrreflexive(a);
    StrLtIrreflexive(c);
    StrLtAsymmetric(a, b);
    StrLtAsymmetric(c, d);
    if a != b { StrLtTotal(a, b); }
    if c != d { StrLtTotal(c, d); }
  }

  /** The key does not depend on the order of its arguments, and its two
      components are the two names. */
  lemma PairKeySymmetric(a: string, b: string)
    ensures PairKey(a, b) == PairKey(b, a)
    ensures {PairKey(a, b).0, PairKey(a, b).1} == {a, b}
  {
    PairKeyEqual(a, b, b, a);
  }

  /** The members of a sequence of names. */
  function Elements(s: seq<string>): set<string> {
    set x | x in s
  }

  lemma ElementsAppend(a: seq<string>, b: seq<string>)
    ensures Elements(a + b) == Elements(a) + Elements(b)
  {
  }
}
