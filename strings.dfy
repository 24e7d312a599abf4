/**
 * The ASCII part of the Python string primitives the script relies on:
 * `str.isspace` (which is also what `\s` matches in a str pattern),
 * `str.lower`, `str.strip`, and the lexicographic order of `<` on str.
 */
module Strings {

  /** The ASCII characters for which `str.isspace()` holds: tab, line feed,
      vertical tab, form feed, carriage return, the four separators 0x1C-0x1F and space. */
  const Whitespace: set<char> :=
    {'\t', '\n', '\U{0B}', '\U{0C}', '\r', '\U{1C}', '\U{1D}', '\U{1E}', '\U{1F}', ' '}

  predicate IsDigit(c: char) { '0' <= c <= '9' }
  predicate IsUpper(c: char) { 'A' <= c <= 'Z' }
  predicate IsLower(c: char) { 'a' <= c <= 'z' }

  /** A cased character in the sense of `str.title()`, restricted to ASCII. */
  predicate IsLetter(c: char) { IsUpper(c) || IsLower(c) }

  function ToLower(c: char): (r: char)
    ensures IsLetter(c) <==> IsLetter(r)
    ensures IsLetter(c) ==> IsLower(r)
    ensures !IsLetter(c) ==> r == c
    ensures IsLower(c) ==> r == c
    ensures IsUpper(c) ==> r as int - 'a' as int == c as int - 'A' as int
  {
    if IsUpper(c) then (c as int + 32) as char else c
  }

  function ToUpper(c: char): (r: char)
    ensures IsLetter(c) <==> IsLetter(r)
    ensures IsLetter(c) ==> IsUpper(r)
    ensures !IsLetter(c) ==> r == c
    ensures IsUpper(c) ==> r == c
    ensures IsLower(c) ==> r as int - 'A' as int == c as int - 'a' as int
    ensures ToLower(r) == ToLower(c)
  {
    if IsLower(c) then (c as int - 32) as char else c
  }

  /** `str.lower()` over ASCII. */
  function Lower(s: string): (r: string)
    ensures |r| == |s| && forall i :: 0 <= i < |s| ==> r[i] == ToLower(s[i])
    ensures forall i :: 0 <= i < |r| ==> !IsUpper(r[i])
  {
    seq(|s|, i requires 0 <= i < |s| => ToLower(s[i]))
  }

  /** The first index at or after `i` whose character is not in `d`, or `|s|`. */
  function SkipFrom(s: string, d: set<char>, i: nat): (n: nat)
    requires i <= |s|
    ensures i <= n <= |s| && (n == |s| || s[n] !in d)
    ensures forall k :: i <= k < n ==> s[k] in d
    decreases |s| - i
  {
    if i < |s| && s[i] in d then SkipFrom(s, d, i + 1) else i
  }

  /** The last index at or before `j` such that the character before it is not in `d`, or 0. */
  function SkipBackFrom(s: string, d: set<char>, j: nat): (n: nat)
    requires j <= |s|
    ensures n <= j && (n == 0 || s[n - 1] !in d)
    ensures forall k :: n <= k < j ==> s[k] in d
  {
    if j > 0 && s[j - 1] in d then SkipBackFrom(s, d, j - 1) else j
  }

  /** `s.lstrip(chars)`: the longest suffix of `s` that does not start with a character of `d`. */
  function StripLeft(s: string, d: set<char>): (r: string)
    ensures |r| <= |s| && r == s[|s| - |r|..]
    ensures forall k :: 0 <= k < |s| - |r| ==> s[k] in d
    ensures r == [] || r[0] !in d
  {
    s[SkipFrom(s, d, 0)..]
  }

  /** `s.rstrip(chars)`: the longest prefix of `s` that does not end with a character of `d`. */
  function StripRight(s: string, d: set<char>): (r: string)
    ensures |r| <= |s| && r == s[..|r|]
    ensures forall k :: |r| <= k < |s| ==> s[k] in d
    ensures r == [] || r[|r| - 1] !in d
  {
    s[..SkipBackFrom(s, d, |s|)]
  }

  /** `s.strip(chars)`: leading characters of `d` removed, then trailing ones. */
  function Strip(s: string, d: set<char>): (r: string)
    ensures |r| <= |s|
    ensures r == [] || (r[0] !in d && r[|r| - 1] !in d)
  {
    StripRight(StripLeft(s, d), d)
  }

  /** A string that neither starts nor ends with a character of `d` is its own strip. */
  lemma StripUnchanged(s: string, d: set<char>)
    requires s == [] || (s[0] !in d && s[|s| - 1] !in d)
    ensures Strip(s, d) == s
  {
    if s != [] {
      assert SkipFrom(s, d, 0) == 0;
      assert SkipBackFrom(s, d, |s|) == |s|;
    }
  }

  /** `Strip` keeps exactly one contiguous piece of `s`: everything cut away on
      either side is in `d`, and the piece kept neither starts nor ends in `d`. */
  lemma StripIsSlice(s: string, d: set<char>)
    ensures var r := Strip(s, d);
      exists i, j :: 0 <= i <= j <= |s| && r == s[i..j]
        && (forall k :: 0 <= k < i ==> s[k] in d)
        && (forall k :: j <= k < |s| ==> s[k] in d)
        && (r == [] || (r[0] !in d && r[|r| - 1] !in d))
  {
    var l := StripLeft(s, d);
    var r := StripRight(l, d);
    var i := |s| - |l|;
    var j := i + |r|;
    assert r == s[i..j];
    forall k | j <= k < |s| ensures s[k] in d {
      assert s[k] == l[k - i];
    }
  }

  /** Python's `a < b` on str: code-point lexicographic order, a proper prefix first. */
  predicate LexLess(a: string, b: string)
    ensures |a| < |b| && a == b[..|a|] ==> LexLess(a, b)
    decreases |a|
  {
    if a == [] then b != []
    else b != [] && (if a[0] == b[0] then LexLess(a[1..], b[1..]) else a[0] < b[0])
  }

  lemma {:induction false} LexIrreflexive(a: string)
    ensures !LexLess(a, a)
    decreases |a|
  {
    if a != [] { LexIrreflexive(a[1..]); }
  }

  /** Any two strings are equal or ordered one way. */
  lemma {:induction false} LexTotal(a: string, b: string)
    ensures a == b || LexLess(a, b) || LexLess(b, a)
    decreases |a|
  {
    if a != [] && b != [] && a[0] == b[0] {
      LexTotal(a[1..], b[1..]);
      if a[1..] == b[1..] { assert a == [a[0]] + a[1..] && b == [b[0]] + b[1..]; }
    }
  }

  lemma {:induction false} LexAsymmetric(a: string, b: string)
    requires LexLess(a, b)
    ensures !LexLess(b, a)
    decreases |a|
  {
    if a != [] && a[0] == b[0] { LexAsymmetric(a[1..], b[1..]); }
  }

  lemma {:induction false} LexTransitive(a: string, b: string, c: string)
    requires LexLess(a, b) && LexLess(b, c)
    ensures LexLess(a, c)
    decreases |a|
  {
    if a != [] && a[0] == b[0] && b[0] == c[0] {
      LexTransitive(a[1..], b[1..], c[1..]);
    }
  }
}
