/**
  String helpers the parser relies on: the whitespace class, `Trim`, `TrimStart`,
  `TrimEnd`, single-character search and `Split` on one separator character.
  Strings are sequences of characters; nothing here depends on a culture or an encoding.
  The scans work on positions within one string rather than on ever shorter slices of it.
 */
module Text {

  /** Whitespace as `Char.IsWhiteSpace` (used by `String.Trim`) and the regular-expression
      class `\s` both define it: U+0009..U+000D, U+0085 and the Unicode separators
      (space, line and paragraph). */
  predicate IsSpace(c: char)
  {
    || ('\t' <= c <= '\r')
    || c == ' ' || c == '\U{0085}' || c == '\U{00A0}' || c == '\U{1680}'
    || ('\U{2000}' <= c <= '\U{200A}')
    || c == '\U{2028}' || c == '\U{2029}' || c == '\U{202F}' || c == '\U{205F}' || c == '\U{3000}'
  }

  predicate AllSpace(s: string)
  {
    forall i :: 0 <= i < |s| ==> IsSpace(s[i])
  }

  /** Every character of `s` from position `from` up to (not including) `to` is whitespace. */
  predicate SpaceBetween(s: string, from: int, to: int)
    requires 0 <= from && to <= |s|
  {
    forall i :: from <= i < to ==> IsSpace(s[i])
  }

  /** Neither the first nor the last character of `s` is whitespace. */
  predicate Unpadded(s: string)
  {
    s == [] || (!IsSpace(s[0]) && !IsSpace(s[|s| - 1]))
  }

  /** The first position at or after `i` that does not hold whitespace (or `|s|`). */
  function SkipSpace(s: string, i: nat): (j: nat)
    requires i <= |s|
    ensures i <= j <= |s| && SpaceBetween(s, i, j)
    ensures j < |s| ==> !IsSpace(s[j])
    decreases |s| - i
  {
    if i < |s| && IsSpace(s[i]) then SkipSpace(s, i + 1) else i
  }

  /** The position just after the last character of `s[lo..hi]` that is not whitespace
      (or `lo`). */
  function SkipSpaceBack(s: string, lo: nat, hi: nat): (j: nat)
    requires lo <= hi <= |s|
    ensures lo <= j <= hi && SpaceBetween(s, j, hi)
    ensures lo < j ==> !IsSpace(s[j - 1])
    decreases hi
  {
    if lo < hi && IsSpace(s[hi - 1]) then SkipSpaceBack(s, lo, hi - 1) else hi
  }

  /** `String.TrimStart()`: a suffix of `s` that does not start with whitespace; everything
      cut off is whitespace. */
  function TrimStart(s: string): (r: string)
    ensures |r| <= |s| && r == s[|s| - |r|..]
    ensures SpaceBetween(s, 0, |s| - |r|)
    ensures r == [] || !IsSpace(r[0])
  {
    s[SkipSpace(s, 0)..]
  }

  /** `String.TrimEnd()`: a prefix of `s` that does not end with whitespace; everything
      cut off is whitespace. */
  function TrimEnd(s: string): (r: string)
    ensures |r| <= |s| && r == s[..|r|]
    ensures SpaceBetween(s, |r|, |s|)
    ensures r == [] || !IsSpace(r[|r| - 1])
  {
    s[..SkipSpaceBack(s, 0, |s|)]
  }

  /** `r` is what is left of `s` once whitespace-only text of length `a` before it and
      whitespace-only text after it are cut off. */
  ghost predicate Strips(s: string, r: string, a: int)
  {
    && 0 <= a && a + |r| <= |s| && s[a..a + |r|] == r
    && SpaceBetween(s, 0, a) && SpaceBetween(s, a + |r|, |s|)
  }

  /** `String.Trim()`: `s` without its leading and trailing whitespace. */
  function Trim(s: string): (r: string)
    ensures Unpadded(r)
    ensures exists a :: Strips(s, r, a)
  {
    var a := SkipSpace(s, 0);
    var r := s[a..SkipSpaceBack(s, a, |s|)];
    assert Strips(s, r, a);
    r
  }

  /** `Trim` is the only way to strip whitespace from both ends so that neither end is
      whitespace any more. */
  lemma TrimUnique(s: string, r: string, a: int)
    requires Strips(s, r, a) && Unpadded(r)
    ensures Trim(s) == r
  {
    var a' := SkipSpace(s, 0);
    if r == [] {
      assert a' == |s|;
    } else {
      assert s[a] == r[0] && s[a + |r| - 1] == r[|r| - 1];
      assert a' == a;
      assert SkipSpaceBack(s, a, |s|) == a + |r|;
    }
  }

  /** Trimming keeps only characters of the text: a character absent from `s` is absent
      from `Trim(s)`. */
  lemma TrimInside(s: string, c: char)
    requires c !in s
    ensures c !in Trim(s)
  {
    var r := Trim(s);
    var a :| Strips(s, r, a);
    assert forall k :: 0 <= k < |r| ==> r[k] == s[a + k];
  }

  /** A run of whitespace inside `s` splits the text before its end into what precedes it
      and the run itself. */
  lemma SpaceRun(s: string, from: int, to: int)
    requires 0 <= from <= to <= |s| && SpaceBetween(s, from, to)
    ensures AllSpace(s[from..to]) && s[..to] == s[..from] + s[from..to]
  {
    assert forall i :: 0 <= i < to - from ==> s[from..to][i] == s[from + i];
  }

  /** The first position at or after `i` that holds `c` (or `|s|`). */
  function IndexFrom(s: string, c: char, i: nat): (j: nat)
    requires i <= |s|
    ensures i <= j <= |s|
    ensures j < |s| ==> s[j] == c
    ensures forall k :: i <= k < j ==> s[k] != c
    decreases |s| - i
  {
    if i == |s| || s[i] == c then i else IndexFrom(s, c, i + 1)
  }

  /** The position of the first `c` in `s`, or `|s|` when there is none. */
  function IndexOf(s: string, c: char): (i: nat)
    ensures i <= |s|
    ensures i < |s| ==> s[i] == c
    ensures forall k :: 0 <= k < i ==> s[k] != c
  {
    IndexFrom(s, c, 0)
  }

  /** The position of the last `c` in `s[..j]`, or -1 when there is none. */
  function LastIndexBefore(s: string, c: char, j: nat): (i: int)
    requires j <= |s|
    ensures -1 <= i < j
    ensures 0 <= i ==> s[i] == c
    ensures forall k :: i < k < j ==> s[k] != c
  {
    if j == 0 then -1
    else if s[j - 1] == c then j - 1
    else LastIndexBefore(s, c, j - 1)
  }

  /** The position of the last `c` in `s`, or -1 when there is none. */
  function LastIndexOf(s: string, c: char): (j: int)
    ensures -1 <= j < |s|
    ensures 0 <= j ==> s[j] == c
    ensures forall k :: j < k < |s| ==> s[k] != c
  {
    LastIndexBefore(s, c, |s|)
  }

  /** The pieces joined back together, with `sep` between neighbours. */
  function Join(parts: seq<string>, sep: char): string
    requires |parts| >= 1
  {
    if |parts| == 1 then parts[0] else parts[0] + [sep] + Join(parts[1..], sep)
  }

  /** `String.Split(sep)`: the maximal `sep`-free pieces of `s`, empty ones included. */
  function Split(s: string, sep: char): (parts: seq<string>)
    ensures |parts| >= 1
    ensures forall i :: 0 <= i < |parts| ==> sep !in parts[i]
    ensures Join(parts, sep) == s
    decreases |s|
  {
    var i := IndexOf(s, sep);
    if i == |s| then
      assert s[..i] == s;
      [s]
    else
      var rest := Split(s[i + 1..], sep);
      assert s == s[..i] + [sep] + s[i + 1..];
      [s[..i]] + rest
  }

  /** Splitting undoes joining pieces that do not contain the separator. */
  lemma {:induction false} SplitJoin(parts: seq<string>, sep: char)
    requires |parts| >= 1
    requires forall i :: 0 <= i < |parts| ==> sep !in parts[i]
    ensures Split(Join(parts, sep), sep) == parts
  {
    var p := parts[0];
    if |parts| == 1 {
      SplitWhole(p, sep);
    } else {
      var rest := parts[1..];
      assert Join(parts, sep) == p + [sep] + Join(rest, sep);
      SplitAtFirst(p, Join(rest, sep), sep);
      SplitJoin(rest, sep);
      assert parts == [p] + rest;
    }
  }

  /** Text without the separator is one piece. */
  lemma SplitWhole(p: string, sep: char)
    requires sep !in p
    ensures Split(p, sep) == [p]
  {
    assert IndexOf(p, sep) == |p|;
  }

  /** The first separator ends the first piece. */
  lemma SplitAtFirst(p: string, tail: string, sep: char)
    requires sep !in p
    ensures Split(p + [sep] + tail, sep) == [p] + Split(tail, sep)
  {
    var s := p + [sep] + tail;
    assert s[|p|] == sep;
    assert forall k :: 0 <= k < |p| ==> s[k] == p[k];
    assert IndexOf(s, sep) == |p|;
    assert s[..|p|] == p;
    assert s[|p| + 1..] == tail;
  }
}
