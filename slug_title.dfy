/**
 * `slug_title_from_filename`: the fallback title derived from a file name.
 * `Path(name).stem` drops the last suffix, `re.sub(r'^\d{4}[-_]?', '', ...)`
 * drops a leading four-digit year and one optional separator, `-` and `_`
 * become spaces, and `str.title()` capitalises each word. Path names follow
 * the POSIX rules of `pathlib`.
 */
module Slug {
  import opened Strings

  /** The greatest index below `j` holding `c`, or -1 (`str.rfind` on `s[..j]`). */
  function FindLast(s: string, c: char, j: nat): (r: int)
    requires j <= |s|
    ensures -1 <= r < j && (r >= 0 ==> s[r] == c)
    ensures forall k :: r < k < j ==> s[k] != c
  {
    if j == 0 then -1 else if s[j - 1] == c then j - 1 else FindLast(s, c, j - 1)
  }

  /** `PurePosixPath(s).name`: the last path component that is neither empty nor `.`,
      or `""` when there is none. */
  function PathName(s: string): (r: string)
    ensures forall k :: 0 <= k < |r| ==> r[k] != '/'
    ensures r != "."
    decreases |s|
  {
    var i := FindLast(s, '/', |s|);
    if i < 0 then (if s == "." then "" else s)
    else
      var comp := s[i + 1..];
      if comp == "" || comp == "." then PathName(s[..i]) else comp
  }

  /** A plain directory entry name is its own path name. */
  lemma PlainNameIsPathName(s: string)
    requires forall k :: 0 <= k < |s| ==> s[k] != '/'
    requires s != "."
    ensures PathName(s) == s
  {
    assert FindLast(s, '/', |s|) == -1;
  }

  /** Where the suffix of a name starts: its last dot, unless that dot is the first
      or the last character (then there is no suffix). */
  function SuffixStart(n: string): (r: nat)
    ensures r <= |n|
  {
    var i := FindLast(n, '.', |n|);
    if 0 < i < |n| - 1 then i else |n|
  }

  /** `Path(name).suffix`. */
  function Suffix(name: string): (r: string)
    ensures r == [] || (|r| >= 2 && r[0] == '.')
  {
    var n := PathName(name);
    n[SuffixStart(n)..]
  }

  /** `Path(name).stem`. */
  function Stem(name: string): (r: string)
    ensures |r| <= |PathName(name)| && r == PathName(name)[..|r|]
  {
    var n := PathName(name);
    n[..SuffixStart(n)]
  }

  /** The stem and the suffix put back together give the name; the suffix is empty,
      or a dot followed by at least one character and no further dot; and the stem is
      never left empty by cutting the suffix. The suffix is cut exactly when the last
      dot of the name is neither its first nor its last character. */
  lemma StemSuffixSplit(name: string)
    ensures Stem(name) + Suffix(name) == PathName(name)
    ensures var x := Suffix(name);
      x == "" || (|x| >= 2 && x[0] == '.' && forall k :: 1 <= k < |x| ==> x[k] != '.')
    ensures Suffix(name) != "" ==> Stem(name) != ""
    ensures var n := PathName(name); var i := FindLast(n, '.', |n|);
      0 < i < |n| - 1 ==> Suffix(name) == n[i..] && Stem(name) == n[..i]
    ensures var n := PathName(name); var i := FindLast(n, '.', |n|);
      !(0 < i < |n| - 1) ==> Suffix(name) == "" && Stem(name) == n
  {
    var n := PathName(name);
    var i := SuffixStart(n);
    assert n[..i] + n[i..] == n;
  }

  /** `re.sub(r'^\d{4}[-_]?', '', s)`: one leading run of four digits is removed,
      with the `-` or `_` right after it, if any. */
  function StripYear(s: string): (r: string)
    ensures |r| <= |s| && r == s[|s| - |r|..]
    ensures |s| - |r| == 0 || |s| - |r| == 4 || |s| - |r| == 5
    ensures |s| - |r| == 0 <==> !(|s| >= 4 && forall k :: 0 <= k < 4 ==> IsDigit(s[k]))
    ensures |s| - |r| == 5 <==> |s| >= 5 && (forall k :: 0 <= k < 4 ==> IsDigit(s[k])) && (s[4] == '-' || s[4] == '_')
  {
    if |s| >= 4 && IsDigit(s[0]) && IsDigit(s[1]) && IsDigit(s[2]) && IsDigit(s[3]) then
      if |s| >= 5 && (s[4] == '-' || s[4] == '_') then s[5..] else s[4..]
    else s
  }

  /** `.replace('-', ' ').replace('_', ' ')`. */
  function SeparatorsToSpaces(s: string): (r: string)
    ensures |r| == |s|
    ensures forall k :: 0 <= k < |s| ==> r[k] == if s[k] == '-' || s[k] == '_' then ' ' else s[k]
  {
    seq(|s|, k requires 0 <= k < |s| => if s[k] == '-' || s[k] == '_' then ' ' else s[k])
  }

  /** One character of `str.title()`: lower case after a cased character, title case otherwise. */
  function TitleChar(c: char, previousCased: bool): (r: char)
    ensures IsLetter(r) <==> IsLetter(c)
    ensures !IsLetter(c) ==> r == c
    ensures ToLower(r) == ToLower(c)
    ensures IsLetter(c) ==> (IsUpper(r) <==> !previousCased)
  {
    if previousCased then ToLower(c) else ToUpper(c)
  }

  /** Whether the character before index `i` of `s` is cased; `previousCased` stands
      for the character before the start. */
  predicate CasedBefore(s: string, i: nat, previousCased: bool)
    requires i < |s|
  {
    if i == 0 then previousCased else IsLetter(s[i - 1])
  }

  /** Whether index `i` of `s` starts a word for `str.title()`: it is the first character,
      or the character before it is not cased. */
  predicate StartsWord(s: string, i: nat)
    requires i < |s|
  {
    !CasedBefore(s, i, false)
  }

  function TitleFrom(s: string, previousCased: bool): (r: string)
    ensures |r| == |s|
    ensures forall i :: 0 <= i < |s| ==> r[i] == TitleChar(s[i], CasedBefore(s, i, previousCased))
  {
    if s == [] then []
    else [TitleChar(s[0], previousCased)] + TitleFrom(s[1..], IsLetter(s[0]))
  }

  /** `str.title()` over ASCII: a letter that starts a word becomes upper case, every
      other letter lower case, and the rest is unchanged. */
  function TitleCase(s: string): (r: string)
    ensures |r| == |s|
    ensures forall i :: 0 <= i < |s| ==> (IsLetter(r[i]) <==> IsLetter(s[i]))
    ensures forall i :: 0 <= i < |s| && !IsLetter(s[i]) ==> r[i] == s[i]
    ensures forall i :: 0 <= i < |s| && IsLetter(s[i]) ==>
      ToLower(r[i]) == ToLower(s[i]) && (IsUpper(r[i]) <==> StartsWord(s, i))
  {
    TitleFrom(s, false)
  }

  /** A title-cased string is left as it is by `str.title()`. */
  lemma TitleCaseIdempotent(s: string)
    ensures TitleCase(TitleCase(s)) == TitleCase(s)
  {
    var t := TitleCase(s);
    var u := TitleCase(t);
    forall i | 0 <= i < |s| ensures u[i] == t[i] {
      if IsLetter(t[i]) {
        assert StartsWord(t, i) == StartsWord(s, i);
      }
    }
  }

  /** `slug_title_from_filename(name)`. */
  function SlugTitle(name: string): (r: string)
    ensures forall i :: 0 <= i < |r| ==> r[i] != '-' && r[i] != '_'
    ensures forall i :: 0 <= i < |r| && IsLetter(r[i]) ==> (IsUpper(r[i]) <==> StartsWord(r, i))
    ensures var words := SeparatorsToSpaces(StripYear(Stem(name)));
      |r| == |words| && Lower(r) == Lower(words)
  {
    var words := SeparatorsToSpaces(StripYear(Stem(name)));
    var r := TitleCase(words);
    assert forall i :: 0 <= i < |r| ==> StartsWord(r, i) == StartsWord(words, i);
    r
  }

  /** Words are capitalised independently: a non-letter resets `str.title()`. */
  lemma {:induction false} TitleFromSplit(a: string, c: char, b: string, previousCased: bool)
    requires !IsLetter(c)
    ensures TitleFrom(a + [c] + b, previousCased) == TitleFrom(a, previousCased) + [c] + TitleFrom(b, false)
    decreases |a|
  {
    if a == [] {
      assert a + [c] + b == [c] + b;
      assert ([c] + b)[1..] == b;
    } else {
      assert (a + [c] + b)[1..] == a[1..] + [c] + b;
      TitleFromSplit(a[1..], c, b, IsLetter(a[0]));
    }
  }

  /** A run of non-letters after a non-letter is left as it is. */
  lemma {:induction false} NonLettersUnchanged(s: string)
    requires forall i :: 0 <= i < |s| ==> !IsLetter(s[i])
    ensures TitleFrom(s, false) == s
    decreases |s|
  {
    if s != [] {
      NonLettersUnchanged(s[1..]);
    }
  }

  /** Lower-case letters after a letter stay lower case. */
  lemma {:induction false} LowerAfterLetter(s: string)
    requires forall i :: 0 <= i < |s| ==> IsLower(s[i])
    ensures TitleFrom(s, true) == s
    decreases |s|
  {
    if s != [] {
      LowerAfterLetter(s[1..]);
    }
  }

  /** A lower-case word at a word start gets its first letter capitalised. */
  lemma WordTitle(w: string)
    requires w != [] && forall i :: 0 <= i < |w| ==> IsLower(w[i])
    ensures TitleFrom(w, false) == [ToUpper(w[0])] + w[1..]
  {
    LowerAfterLetter(w[1..]);
  }

  /** The stem of a plain name whose only dot is at `i`, not first and not last. */
  lemma StemAtDot(n: string, i: nat)
    requires forall k :: 0 <= k < |n| ==> n[k] != '/'
    requires 0 < i < |n| - 1 && n[i] == '.' && forall k :: i < k < |n| ==> n[k] != '.'
    ensures Stem(n) == n[..i]
  {
    PlainNameIsPathName(n);
  }

  /** Space-separated lower-case words: each is capitalised on its own. */
  lemma SpacedWordsTitle(a: string, b: string)
    requires a != [] && forall i :: 0 <= i < |a| ==> IsLower(a[i])
    ensures TitleFrom(a + [' '] + b, false) == [ToUpper(a[0])] + a[1..] + [' '] + TitleFrom(b, false)
  {
    TitleFromSplit(a, ' ', b, false);
    WordTitle(a);
  }

  lemma GreatPostWords()
    ensures "my" + [' '] + ("great" + [' '] + "post") == "my great post"
  {
  }

  lemma GreatPostCapitals()
    ensures TitleFrom("my" + [' '] + ("great" + [' '] + "post"), false)
      == [ToUpper('m')] + "y" + [' '] + ([ToUpper('g')] + "reat" + [' '] + ([ToUpper('p')] + "ost"))
  {
    SpacedWordsTitle("great", "post");
    SpacedWordsTitle("my", "great" + [' '] + "post");
    WordTitle("post");
  }

  lemma GreatPostLetters()
    ensures [ToUpper('m')] + "y" + [' '] + ([ToUpper('g')] + "reat" + [' '] + ([ToUpper('p')] + "ost")) == "My Great Post"
  {
  }

  lemma GreatPostTitle()
    ensures TitleCase("my great post") == "My Great Post"
  {
    GreatPostWords();
    GreatPostCapitals();
    GreatPostLetters();
  }

  lemma DatedNameStem()
    ensures Stem("2026-my-great-post.md") == "2026-my-great-post"
  {
    var n := "2026-my-great-post.md";
    StemAtDot(n, 18);
    assert n[..18] == "2026-my-great-post";
  }

  lemma DatedNameWords()
    ensures SeparatorsToSpaces(StripYear(Stem("2026-my-great-post.md"))) == "my great post"
  {
    DatedNameStem();
    DatedNameYear();
    DatedNameSeparators();
  }

  lemma DatedNameYear()
    ensures StripYear("2026-my-great-post") == "my-great-post"
  {
  }

  lemma DatedNameSeparators()
    ensures SeparatorsToSpaces("my-great-post") == "my great post"
  {
  }

  /** A dated post name loses its year and separator and becomes capitalised words. */
  lemma DatedNameExample()
    ensures SlugTitle("2026-my-great-post.md") == "My Great Post"
  {
    DatedNameWords();
    GreatPostTitle();
  }

  lemma NotesWords()
    ensures "notes" + [' '] + "2026" == "notes 2026"
  {
  }

  lemma NotesCapitals()
    ensures TitleFrom("notes" + [' '] + "2026", false) == [ToUpper('n')] + "otes" + [' '] + "2026"
  {
    SpacedWordsTitle("notes", "2026");
    NonLettersUnchanged("2026");
  }

  lemma NotesLetters()
    ensures [ToUpper('n')] + "otes" + [' '] + "2026" == "Notes 2026"
  {
  }

  lemma NotesTitle()
    ensures TitleCase("notes 2026") == "Notes 2026"
  {
    NotesWords();
    NotesCapitals();
    NotesLetters();
  }

  lemma TrailingYearStem()
    ensures Stem("notes_2026.md") == "notes_2026"
  {
    var n := "notes_2026.md";
    StemAtDot(n, 10);
    assert n[..10] == "notes_2026";
  }

  lemma TrailingYearWords()
    ensures SeparatorsToSpaces(StripYear(Stem("notes_2026.md"))) == "notes 2026"
  {
    TrailingYearStem();
    assert StripYear("notes_2026") == "notes_2026";
    assert SeparatorsToSpaces("notes_2026") == "notes 2026";
  }

  /** Digits that do not open the stem are kept. */
  lemma TrailingYearExample()
    ensures SlugTitle("notes_2026.md") == "Notes 2026"
  {
    TrailingYearWords();
    NotesTitle();
  }

  /** A year that is only the stem leaves an empty title. */
  lemma YearOnlyNameExample()
    ensures SlugTitle("2026.md") == ""
  {
    YearOnlyStem();
    assert StripYear("2026") == "";
  }

  lemma YearOnlyStem()
    ensures Stem("2026.md") == "2026"
  {
    StemAtDot("2026.md", 4);
  }
}
