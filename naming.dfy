/** utils.py: choosing the next free vertex name, splitting a name into a base
    and a numeric index, and reading the k parameter from the text box. */
module Naming {
  import opened Common
  import opened GraphModel
  import opened GraphOps

  const Uppercase: string := "ABCDEFGHIJKLMNOPQRSTUVWXYZ"

  /** The fallback candidate `letter + apostrophes` for the b-th capital letter. */
  function Candidate(b: nat, ticks: nat): string
    requires b < 26
  {
    [Uppercase[b]] + Ticks(ticks)
  }

  /** `name` is the first free fallback name: the candidates are tried with one
      apostrophe for A..Z, then two, and so on, and every earlier one is used. */
  ghost predicate FirstFreeCandidate(name: string, used: set<string>) {
    exists b: nat, t: nat :: b < 26 && 1 <= t && name == Candidate(b, t)
      && forall b': nat, t': nat {:trigger Candidate(b', t')} ::
           b' < 26 && 1 <= t' && (t' < t || (t' == t && b' < b)) ==> Candidate(b', t') in used
  }

  /** `get_next_available_vertex_name(vertices, name_iter)`: the first name the
      iterator yields that no vertex uses, or, if the iterator runs dry, the
      first free fallback candidate. `rest` is what is left of the iterator. */
  method NextAvailableVertexName(vertices: seq<Vertex>, nameIter: seq<string>)
    returns (name: string, rest: seq<string>)
    ensures name !in NameSet(vertices)
    ensures (exists i :: 0 <= i < |nameIter| && nameIter[i] !in NameSet(vertices)) ==>
      exists i :: 0 <= i < |nameIter| && name == nameIter[i] && rest == nameIter[i + 1..]
        && forall j :: 0 <= j < i ==> nameIter[j] in NameSet(vertices)
    ensures (forall i :: 0 <= i < |nameIter| ==> nameIter[i] in NameSet(vertices)) ==>
      rest == [] && FirstFreeCandidate(name, NameSet(vertices))
  {
    var used := NameSet(vertices);
    var i := 0;
    while i < |nameIter|
      invariant 0 <= i <= |nameIter|
      invariant forall j :: 0 <= j < i ==> nameIter[j] in used
    {
      name := nameIter[i];
      i := i + 1;
      if name !in used {
        rest := nameIter[i..];
        return;
      }
    }
    rest := [];
    var suffix := "'";
    while true
      invariant 1 <= |suffix| && suffix == Ticks(|suffix|)
      invariant forall b': nat, t': nat {:trigger Candidate(b', t')} ::
        b' < 26 && 1 <= t' < |suffix| ==> Candidate(b', t') in used
      decreases LongNames(used, |suffix| + 1)
    {
      var b := 0;
      while b < 26
        invariant 0 <= b <= 26
        invariant forall b': nat :: b' < b ==> Candidate(b', |suffix|) in used
      {
        var candidate := [Uppercase[b]] + suffix;
        assert candidate == Candidate(b, |suffix|);
        if candidate !in used {
          name := candidate;
          return;
        }
        b := b + 1;
      }
      assert |Candidate(0, |suffix|)| == |suffix| + 1;
      LongNamesShrink(used, Candidate(0, |suffix|));
      suffix := suffix + "'";
    }
  }

  predicate IsDigit(c: char) {
    '0' <= c <= '9'
  }

  predicate AllDigits(s: string) {
    forall i :: 0 <= i < |s| ==> IsDigit(s[i])
  }

  /** `int(digits)` for a string of decimal digits. */
  function DigitsValue(ds: string): nat
    requires AllDigits(ds)
  {
    if ds == [] then 0
    else DigitsValue(ds[..|ds| - 1]) * 10 + (ds[|ds| - 1] as int - '0' as int)
  }

  /** The decimal text of a natural number, `str(n)`. */
  function NatToDigits(n: nat): (s: string)
    ensures |s| > 0 && AllDigits(s)
  {
    if n < 10 then [('0' as int + n) as char]
    else NatToDigits(n / 10) + [('0' as int + n % 10) as char]
  }

  lemma {:induction false} DigitsRoundTrip(n: nat)
    ensures DigitsValue(NatToDigits(n)) == n
  {
    if n >= 10 {
      var s := NatToDigits(n);
      assert s[..|s| - 1] == NatToDigits(n / 10);
      DigitsRoundTrip(n / 10);
    }
  }

  /** The length of the longest run of digits at the end of `s`. */
  function TrailingDigits(s: string): (k: nat)
    ensures k <= |s|
    ensures forall i :: |s| - k <= i < |s| ==> IsDigit(s[i])
    ensures k < |s| ==> !IsDigit(s[|s| - k - 1])
  {
    if s == [] || !IsDigit(s[|s| - 1]) then 0
    else TrailingDigits(s[..|s| - 1]) + 1
  }

  /** The regular expression `^(.*?)(?:_(\d+))?$` on a line without a line
      feed: the base is everything before a final `_<digits>`, if there is one. */
  function SplitLine(s: string): (string, nat) {
    var k := TrailingDigits(s);
    if 0 < k < |s| && s[|s| - k - 1] == '_'
    then (s[..|s| - k - 1], DigitsValue(s[|s| - k..]))
    else (s, 1)
  }

  /** `get_base_and_index(name)`. In Python's regular expressions `.` does not
      match a line feed and `$` also matches just before a final line feed, so a
      final line feed is dropped and a line feed anywhere else makes the match
      fail, which returns `(name, 1)`. */
  function BaseAndIndex(name: string): (string, nat) {
    var line := if |name| > 0 && name[|name| - 1] == '\n' then name[..|name| - 1] else name;
    if '\n' in line then (name, 1) else SplitLine(line)
  }

  /** `name` ends in `_` at position j followed by at least one digit and
      nothing but digits. */
  predicate IndexedAt(name: string, j: int) {
    0 <= j < |name| - 1 && name[j] == '_' && forall i :: j < i < |name| ==> IsDigit(name[i])
  }

  /** At most one position splits a name, and it is where the trailing digits begin. */
  lemma IndexedAtTrailing(name: string, j: int)
    requires IndexedAt(name, j)
    ensures TrailingDigits(name) == |name| - j - 1
  {
    var k := TrailingDigits(name);
    assert k < |name| ==> !IsDigit(name[|name| - k - 1]);
    assert !IsDigit(name[j]);
  }

  /** A name without line feeds that ends in `_<digits>` splits there, into the
      prefix and the value of the digits; any other such name is `(name, 1)`. */
  lemma BaseAndIndexSpec(name: string)
    requires '\n' !in name
    ensures forall j :: IndexedAt(name, j) ==> BaseAndIndex(name) == (name[..j], DigitsValue(name[j + 1..]))
    ensures (forall j :: !IndexedAt(name, j)) ==> BaseAndIndex(name) == (name, 1)
  {
    forall j | IndexedAt(name, j)
      ensures BaseAndIndex(name) == (name[..j], DigitsValue(name[j + 1..]))
    {
      IndexedAtTrailing(name, j);
    }
    var k := TrailingDigits(name);
    if 0 < k < |name| && name[|name| - k - 1] == '_' {
      assert IndexedAt(name, |name| - k - 1);
    }
  }

  /** Splitting inverts the `base_index` naming: `p + "_" + str(i)` gives back `(p, i)`. */
  lemma BaseAndIndexRoundTrip(p: string, i: nat)
    requires '\n' !in p
    ensures BaseAndIndex(p + "_" + NatToDigits(i)) == (p, i)
  {
    var ds := NatToDigits(i);
    var name := p + "_" + ds;
    forall j | 0 <= j < |name|
      ensures name[j] != '\n'
    {
      if j < |p| { assert name[j] == p[j]; }
      else if j > |p| { assert name[j] == ds[j - |p| - 1]; }
    }
    assert forall j :: |p| < j < |name| ==> name[j] == ds[j - |p| - 1];
    assert IndexedAt(name, |p|);
    BaseAndIndexSpec(name);
    assert name[..|p|] == p && name[|p| + 1..] == ds;
    DigitsRoundTrip(i);
  }

  /** Python's `int(text)` on an optional sign followed by decimal digits. */
  function ParseInt(text: string): Option<int> {
    if |text| > 0 && (text[0] == '-' || text[0] == '+') then
      var body := text[1..];
      if |body| > 0 && AllDigits(body)
      then Some(if text[0] == '-' then 0 - DigitsValue(body) else DigitsValue(body))
      else None
    else if |text| > 0 && AllDigits(text) then Some(DigitsValue(text))
    else None
  }

  /** `update_k_value_from_input(text)`: `max(1, int(text))`, or None when the
      text is not an integer. */
  function UpdateKValueFromInput(text: string): (k: Option<int>)
    ensures k.Some? <==> ParseInt(text).Some?
    ensures k.Some? ==> k.value >= 1 && (k.value == ParseInt(text).value || (k.value == 1 && ParseInt(text).value < 1))
  {
    match ParseInt(text)
    case Some(n) => Some(if n < 1 then 1 else n)
    case None => None
  }

  /** The text box only ever holds digits: the empty text is refused, and the
      digits of a number n give back max(1, n). */
  lemma KInputOfDigits(n: nat)
    ensures UpdateKValueFromInput("") == None
    ensures UpdateKValueFromInput(NatToDigits(n)) == Some(if n < 1 then 1 else n)
  {
    DigitsRoundTrip(n);
  }
}
