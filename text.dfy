/**
 * The .NET string operations the token scan relies on, with ordinal
 * (character-by-character) comparison.
 */
module Text {

  /** `s.IndexOfAny(start, a, b)`: the first position at or after `start` holding `a` or `b`, or -1. */
  function IndexOfAny(s: string, start: nat, a: char, b: char): (r: int)
    requires start <= |s|
    ensures r == -1 || start <= r < |s|
    ensures r != -1 ==> s[r] == a || s[r] == b
    ensures forall i :: start <= i < |s| && (r == -1 || i < r) ==> s[i] != a && s[i] != b
    decreases |s| - start
  {
    if start == |s| then -1
    else if s[start] == a || s[start] == b then start
    else IndexOfAny(s, start + 1, a, b)
  }

  /** `s.IndexOf(c)`: the first position holding `c`, or -1. */
  function IndexOf(s: string, c: char): (r: int)
    ensures r == -1 <==> c !in s
    ensures r != -1 ==> 0 <= r < |s| && s[r] == c && c !in s[..r]
  {
    if s == [] then -1
    else if s[0] == c then 0
    else
      var k := IndexOf(s[1..], c);
      assert s == [s[0]] + s[1..];
      if k == -1 then -1
      else
        assert s[..k + 1] == [s[0]] + s[1..][..k];
        k + 1
  }

  /** `sub` occurs in `s` starting at position `j`. */
  predicate OccursAt(s: string, sub: string, j: int)
  {
    0 <= j && j + |sub| <= |s| && s[j..j + |sub|] == sub
  }

  /** The last occurrence of `sub` in `s` that starts at or before `j`, or -1. */
  function LastIndexOfFrom(s: string, sub: string, j: int): (r: int)
    requires j < |s|
    ensures r == -1 || (0 <= r <= j && OccursAt(s, sub, r))
    ensures forall k :: r < k <= j ==> !OccursAt(s, sub, k)
    decreases j + 1
  {
    if j < 0 then -1
    else if OccursAt(s, sub, j) then j
    else LastIndexOfFrom(s, sub, j - 1)
  }

  /** `s.LastIndexOf(sub)` for a non-empty `sub`: the start of its last occurrence in `s`, or -1. */
  function LastIndexOf(s: string, sub: string): (r: int)
    requires sub != []
    ensures r == -1 || OccursAt(s, sub, r)
    ensures forall k :: r < k ==> !OccursAt(s, sub, k)
  {
    LastIndexOfFrom(s, sub, |s| - 1)
  }

  /** `s.TrimEnd(c)`: `s` without the run of `c` at its end. */
  function TrimEnd(s: string, c: char): (r: string)
    ensures r <= s
    ensures r == [] || r[|r| - 1] != c
    ensures forall i :: |r| <= i < |s| ==> s[i] == c
    decreases |s|
  {
    if s != [] && s[|s| - 1] == c then TrimEnd(s[..|s| - 1], c) else s
  }

  /** `s.TrimStart(c)`: `s` without the run of `c` at its start. */
  function TrimStart(s: string, c: char): (r: string)
    ensures |r| <= |s| && r == s[|s| - |r|..]
    ensures r == [] || r[0] != c
    ensures forall i :: 0 <= i < |s| - |r| ==> s[i] == c
    decreases |s|
  {
    if s != [] && s[0] == c then TrimStart(s[1..], c) else s
  }

  /** A prefix of a suffix of `s` occurs in `s` where the suffix starts. */
  lemma PrefixOfSuffixOccurs(s: string, t: string, r: string)
    requires |t| <= |s| && t == s[|s| - |t|..]
    requires r <= t
    ensures OccursAt(s, r, |s| - |t|)
  {
    var lo := |s| - |t|;
    forall i | 0 <= i < |r|
      ensures s[lo..lo + |r|][i] == r[i]
    {
      assert r[i] == t[i];
    }
  }

  /** A non-empty prefix of a string that does not start with `c` does not start with `c` either. */
  lemma PrefixStart(t: string, r: string, c: char)
    requires r <= t
    requires t == [] || t[0] != c
    ensures r == [] || r[0] != c
  {
    if r != [] {
      assert r[0] == t[0];
    }
  }

  /** Everything of `s` outside the occurrence of `r` at `lo` is the character `c`. */
  predicate SurroundedBy(s: string, r: string, lo: int, c: char)
  {
    OccursAt(s, r, lo)
    && (forall i :: 0 <= i < lo ==> s[i] == c)
    && (forall i :: lo + |r| <= i < |s| ==> s[i] == c)
  }

  /** `s.Trim(c)`: `s` without the runs of `c` at both ends. */
  function Trim(s: string, c: char): (r: string)
    ensures exists lo :: SurroundedBy(s, r, lo, c)
    ensures r == [] || (r[0] != c && r[|r| - 1] != c)
  {
    var t := TrimStart(s, c);
    var r := TrimEnd(t, c);
    var lo := |s| - |t|;
    PrefixOfSuffixOccurs(s, t, r);
    PrefixStart(t, r, c);
    forall i | lo + |r| <= i < |s|
      ensures s[i] == c
    {
      assert s[i] == t[i - lo];
    }
    assert SurroundedBy(s, r, lo, c);
    r
  }

  /** An occurrence in a prefix of `s` is an occurrence in `s` that ends within the prefix. */
  lemma OccursInPrefix(s: string, m: int, sub: string, j: int)
    requires 0 <= m <= |s|
    ensures OccursAt(s[..m], sub, j) <==> OccursAt(s, sub, j) && j + |sub| <= m
  {
    if 0 <= j && j + |sub| <= m {
      assert s[..m][j..j + |sub|] == s[j..j + |sub|];
    }
  }

  function Min(a: int, b: int): int { if a <= b then a else b }
}
