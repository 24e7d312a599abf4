/**
 * `parse_front_matter`: find the first `---` ... `---` block of a document
 * (the pattern FRONT_MATTER_RE, searched with `re.MULTILINE`), split its body
 * into lines and keep the `title`, `date` and `summary` assignments
 * (the pattern KV_RE, matched case-insensitively against each stripped line).
 * Both patterns are written out by hand over positions of the text.
 */
module FrontMatter {
  import opened Wrappers
  import opened Strings

  // ---------------------------------------------------------------------
  // FRONT_MATTER_RE = ^---\s*\n([\s\S]*?)\n---\s*\n   (searched, MULTILINE)
  // ---------------------------------------------------------------------

  /** `^` under `re.MULTILINE`: the start of the text or just after a line feed. */
  predicate AtLineStart(t: string, p: int)
  {
    0 <= p <= |t| && (p == 0 || t[p - 1] == '\n')
  }

  /** The literal `---` stands at position `p`. */
  predicate Dashes(t: string, p: int)
  {
    0 <= p && p + 3 <= |t| && t[p] == '-' && t[p + 1] == '-' && t[p + 2] == '-'
  }

  predicate AllSpace(t: string, i: int, j: int)
    requires 0 <= i <= j <= |t|
  {
    forall k :: i <= k < j ==> t[k] in Whitespace
  }

  /** `^---\s*\n` matches `t[p..q]`: the body then starts at `q`. */
  predicate OpensAt(t: string, p: int, q: int)
  {
    AtLineStart(t, p) && Dashes(t, p) && p + 4 <= q <= |t|
    && AllSpace(t, p + 3, q) && t[q - 1] == '\n'
  }

  /** `\n---\s*\n` matches from position `e`: a line feed, the dashes, and a run
      of whitespace that reaches a line feed (so a newline must follow the closing dashes). */
  predicate ClosesAt(t: string, e: int)
  {
    0 <= e && Dashes(t, e + 1) && t[e] == '\n' && NewlineAhead(t, e + 4)
  }

  /** `\s*\n` matches from `i`: `t[i..k]` is whitespace ending in a line feed for some `k`. */
  predicate NewlineAhead(t: string, i: int)
    requires 0 <= i <= |t|
  {
    exists k :: i < k <= |t| && SpaceToNewline(t, i, k)
  }

  predicate SpaceToNewline(t: string, i: int, k: int)
    requires 0 <= i < k <= |t|
  {
    AllSpace(t, i, k) && t[k - 1] == '\n'
  }

  /** The whole pattern matches at `p`, with body `t[q..e]`. */
  predicate Match(t: string, p: int, q: int, e: int)
  {
    OpensAt(t, p, q) && q <= e && ClosesAt(t, e)
  }

  /** End of the run of whitespace starting at `i`: where the greedy `\s*` stops. */
  function SpaceRunEnd(t: string, i: nat): (r: nat)
    requires i <= |t|
    ensures i <= r <= |t| && AllSpace(t, i, r)
    ensures r == |t| || t[r] !in Whitespace
    decreases |t| - i
  {
    if i < |t| && t[i] in Whitespace then SpaceRunEnd(t, i + 1) else i
  }

  /** The lazy body `([\s\S]*?)` tries the shortest body first: the least `e >= from`
      where the closing delimiter matches. */
  function FirstClose(t: string, from: nat): (r: Option<nat>)
    ensures r.Some? ==> from <= r.value && ClosesAt(t, r.value)
    ensures r.Some? ==> forall e :: from <= e < r.value ==> !ClosesAt(t, e)
    ensures r.None? ==> forall e :: from <= e ==> !ClosesAt(t, e)
    decreases |t| - from
  {
    if from + 4 > |t| then None
    else if ClosesAt(t, from) then Some(from)
    else FirstClose(t, from + 1)
  }

  /** The greedy `\s*` after the opening dashes gives characters back one at a
      time: the ends `q` of `\s*\n` are tried from `hi` down, and the first with a
      closing delimiter at or after it wins. Returns the pair (q, e). */
  function OpenFrom(t: string, p: nat, hi: nat): (r: Option<(nat, nat)>)
    requires AtLineStart(t, p) && Dashes(t, p)
    requires p + 3 <= hi <= |t| && AllSpace(t, p + 3, hi)
    ensures r.Some? ==> r.value.0 <= hi && Match(t, p, r.value.0, r.value.1)
    ensures r.Some? ==> forall e :: Match(t, p, r.value.0, e) ==> r.value.1 <= e
    ensures r.Some? ==> forall q, e :: r.value.0 < q <= hi && Match(t, p, q, e) ==> false
    ensures r.None? ==> forall q, e :: q <= hi ==> !Match(t, p, q, e)
    decreases hi
  {
    if hi < p + 4 then None
    else if t[hi - 1] == '\n' && FirstClose(t, hi).Some? then Some((hi, FirstClose(t, hi).value))
    else OpenFrom(t, p, hi - 1)
  }

  /** `search` tries every start position from `from` on, in order. Returns (p, q, e). */
  function SearchFrom(t: string, from: nat): (r: Option<(nat, nat, nat)>)
    ensures r.Some? ==> from <= r.value.0 && Match(t, r.value.0, r.value.1, r.value.2)
    ensures r.Some? ==> forall p, q, e :: from <= p && Match(t, p, q, e) ==> r.value.0 <= p
    ensures r.Some? ==> forall q, e :: Match(t, r.value.0, q, e) ==> q <= r.value.1
    ensures r.Some? ==> forall e :: Match(t, r.value.0, r.value.1, e) ==> r.value.2 <= e
    ensures r.None? ==> forall p, q, e :: from <= p ==> !Match(t, p, q, e)
    decreases |t| - from
  {
    if from + 4 > |t| then None
    else if AtLineStart(t, from) && Dashes(t, from) then
      var hi := SpaceRunEnd(t, from + 3);
      match OpenFrom(t, from, hi)
      case Some(qe) => Some((from, qe.0, qe.1))
      case None => SearchFrom(t, from + 1)
    else SearchFrom(t, from + 1)
  }

  /** The block FRONT_MATTER_RE.search finds, as (start, body start, body end):
      the leftmost start, then the longest opening run, then the shortest body. */
  function FindBlock(t: string): (r: Option<(nat, nat, nat)>)
    ensures r.Some? ==> Match(t, r.value.0, r.value.1, r.value.2)
    ensures r.Some? ==> forall p, q, e :: Match(t, p, q, e) ==> r.value.0 <= p
    ensures r.Some? ==> forall q, e :: Match(t, r.value.0, q, e) ==> q <= r.value.1
    ensures r.Some? ==> forall e :: Match(t, r.value.0, r.value.1, e) ==> r.value.2 <= e
    ensures r.None? <==> forall p, q, e :: !Match(t, p, q, e)
  {
    SearchFrom(t, 0)
  }

  /** `m.group(1)`, the body of the block, when there is one. */
  function BlockBody(t: string): (r: Option<string>)
    ensures r.Some? ==> FindBlock(t).Some? && r.value == t[FindBlock(t).value.1..FindBlock(t).value.2]
    ensures r.Some? ==> exists p, q, e :: Match(t, p, q, e) && r.value == t[q..e]
    ensures r.None? <==> forall p, q, e :: !Match(t, p, q, e)
  {
    match FindBlock(t)
    case None => None
    case Some(m) => Some(t[m.1..m.2])
  }

  /** Without a line that starts with `---`, no block is found, whatever else the text holds. */
  lemma NoDashLineNoBlock(t: string)
    requires forall p :: AtLineStart(t, p) ==> !Dashes(t, p)
    ensures BlockBody(t) == None
  {
  }

  /** Two dashed lines with nothing between them are not a block: the body is
      followed by the line feed of the closing delimiter, so an empty block needs a
      blank line between the dashes. */
  lemma AdjacentDashLinesNoBlock()
    ensures BlockBody("---\n---\n") == None
  {
    var t := "---\n---\n";
    forall p, q, e ensures !Match(t, p, q, e) {
      if OpensAt(t, p, q) && ClosesAt(t, e) {
        assert p == 0 || p == 4;
        assert e == 3;
      }
    }
  }

  // ---------------------------------------------------------------------
  // str.splitlines()
  // ---------------------------------------------------------------------

  /** The ASCII line boundaries of `str.splitlines()`; a carriage return followed
      by a line feed counts as one boundary. */
  const LineBreaks: set<char> := {'\n', '\r', '\U{0B}', '\U{0C}', '\U{1C}', '\U{1D}', '\U{1E}'}

  function FirstBreak(s: string, i: nat): (r: nat)
    requires i <= |s|
    ensures i <= r <= |s| && (r < |s| ==> s[r] in LineBreaks)
    ensures forall k :: i <= k < r ==> s[k] !in LineBreaks
    decreases |s| - i
  {
    if i < |s| && s[i] !in LineBreaks then FirstBreak(s, i + 1) else i
  }

  /** `s.splitlines()`: the lines without their terminators; a final terminator
      does not open an empty last line. */
  function SplitLines(s: string): (r: seq<string>)
    ensures forall i, k :: 0 <= i < |r| && 0 <= k < |r[i]| ==> r[i][k] !in LineBreaks
    ensures r == [] <==> s == []
    decreases |s|
  {
    if s == [] then []
    else
      var b := FirstBreak(s, 0);
      if b == |s| then [s]
      else
        var next := if s[b] == '\r' && b + 1 < |s| && s[b + 1] == '\n' then b + 2 else b + 1;
        [s[..b]] + SplitLines(s[next..])
  }

  /** A non-empty text without line boundaries is one line. */
  lemma SplitLinesOneLine(s: string)
    requires s != [] && forall k :: 0 <= k < |s| ==> s[k] !in LineBreaks
    ensures SplitLines(s) == [s]
  {
    assert FirstBreak(s, 0) == |s|;
  }

  /** A line, then one boundary (`\r\n` or a single boundary character that is not
      a carriage return followed by a line feed), then the rest: the line comes first
      and the rest is split on its own. */
  lemma SplitLinesStep(line: string, sep: string, rest: string)
    requires forall k :: 0 <= k < |line| ==> line[k] !in LineBreaks
    requires sep == "\r\n" || (|sep| == 1 && sep[0] in LineBreaks && (sep[0] == '\r' ==> rest == [] || rest[0] != '\n'))
    ensures SplitLines(line + sep + rest) == [line] + SplitLines(rest)
  {
    var s := line + sep + rest;
    assert s[|line|] == sep[0];
    assert FirstBreak(s, 0) == |line|;
    assert s[..|line|] == line;
    if sep == "\r\n" {
      assert s[|line| + 1] == '\n';
      assert s[|line| + 2..] == rest;
    } else {
      assert s[|line| + 1..] == rest;
    }
  }

  // ---------------------------------------------------------------------
  // KV_RE = ^(title|date|summary)\s*:\s*(.*)$   (match, IGNORECASE)
  // ---------------------------------------------------------------------

  const Keys: set<string> := {"title", "date", "summary"}

  /** `s` starts with `key`, ignoring ASCII case. */
  predicate HasKeyPrefix(s: string, key: string)
  {
    |key| <= |s| && forall i :: 0 <= i < |key| ==> ToLower(s[i]) == key[i]
  }

  /** The key `s` starts with, if any; the three keys begin with different letters,
      so at most one alternative of `(title|date|summary)` can match. */
  function KeyPrefix(s: string): (r: Option<string>)
    ensures r.Some? ==> r.value in Keys && HasKeyPrefix(s, r.value)
    ensures r.None? ==> forall k :: k in Keys ==> !HasKeyPrefix(s, k)
  {
    if HasKeyPrefix(s, "title") then Some("title")
    else if HasKeyPrefix(s, "date") then Some("date")
    else if HasKeyPrefix(s, "summary") then Some("summary")
    else None
  }

  /** Two recognised keys that both prefix `s` are the same key. */
  lemma KeyPrefixUnique(s: string, k1: string, k2: string)
    requires k1 in Keys && k2 in Keys && HasKeyPrefix(s, k1) && HasKeyPrefix(s, k2)
    ensures k1 == k2
  {
    assert k1[0] == ToLower(s[0]) == k2[0];
  }

  /** No line feed anywhere in `s`. */
  predicate NoLineFeed(s: string)
  {
    forall k :: 0 <= k < |s| ==> s[k] != '\n'
  }

  /** Lower-casing the matched group 1 gives the key itself. */
  lemma LowerOfKeyPrefix(s: string, key: string)
    requires HasKeyPrefix(s, key)
    ensures Lower(s[..|key|]) == key
  {
    assert forall i :: 0 <= i < |key| ==> Lower(s[..|key|])[i] == ToLower(s[i]);
  }

  /** `(.*)$` without MULTILINE: `.` stops at a line feed, and `$` matches at the
      end of the text or just before a line feed that ends it. */
  function RestOfLine(v: string): (r: Option<string>)
    ensures r.Some? ==> '\n' !in r.value && (r.value == v || r.value + "\n" == v)
    ensures NoLineFeed(v) ==> r == Some(v)
    ensures |v| > 0 && v[|v| - 1] == '\n' && NoLineFeed(v[..|v| - 1]) ==> r == Some(v[..|v| - 1])
  {
    if '\n' !in v then Some(v)
    else if v[|v| - 1] == '\n' && '\n' !in v[..|v| - 1] then Some(v[..|v| - 1])
    else None
  }

  /** `KV_RE.match(s)`: groups 1 (the key as written) and 2 (the raw value). */
  function MatchKV(s: string): (r: Option<(string, string)>)
    ensures r.Some? ==> KeyPrefix(s).Some? && r.value.0 == s[..|KeyPrefix(s).value|]
  {
    match KeyPrefix(s)
    case None => None
    case Some(key) =>
      match ValueAfterKey(s[|key|..])
      case None => None
      case Some(v) => Some((s[..|key|], v))
  }

  /** `\s*:\s*(.*)$` matched against what follows the key: group 2. */
  function ValueAfterKey(rest: string): (r: Option<string>)
    ensures r.Some? ==> StripLeft(rest, Whitespace) != [] && StripLeft(rest, Whitespace)[0] == ':'
    ensures r.Some? ==> NoLineFeed(r.value) && (r.value == [] || r.value[0] !in Whitespace)
  {
    var afterKey := StripLeft(rest, Whitespace);
    if afterKey == [] || afterKey[0] != ':' then None
    else RestOfLine(StripLeft(afterKey[1..], Whitespace))
  }

  /** The key `key` of `s` is followed by optional whitespace and a colon at `j`. */
  predicate ColonAt(s: string, key: string, j: int)
  {
    HasKeyPrefix(s, key) && |key| <= j < |s| && AllSpace(s, |key|, j) && s[j] == ':'
  }

  /** On a line without a line feed that starts with a recognised key, KV_RE matches
      as soon as optional whitespace and a colon follow the key; group 2 is then what
      follows the colon, less its leading whitespace. */
  lemma MatchKVWhenColon(s: string, j: int)
    requires NoLineFeed(s) && KeyPrefix(s).Some? && ColonAt(s, KeyPrefix(s).value, j)
    ensures MatchKV(s) == Some((s[..|KeyPrefix(s).value|], StripLeft(s[j + 1..], Whitespace)))
  {
    ValueAfterSpacedColon(s, |KeyPrefix(s).value|, j);
    MatchKVOfValue(s, StripLeft(s[j + 1..], Whitespace));
  }

  /** Group 2 when whitespace from `n` up to a colon at `j` follows the key. */
  lemma ValueAfterSpacedColon(s: string, n: nat, j: int)
    requires NoLineFeed(s) && n <= j < |s| && AllSpace(s, n, j) && s[j] == ':'
    ensures ValueAfterKey(s[n..]) == Some(StripLeft(s[j + 1..], Whitespace))
  {
    var rest := s[n..];
    NoLineFeedSuffix(s, n);
    forall k | 0 <= k < j - n ensures rest[k] in Whitespace {
      assert rest[k] == s[n + k];
    }
    ValueAfterColon(rest, j - n);
    assert rest[j - n + 1..] == s[j + 1..];
  }

  /** KV_RE's match is read off group 2 of what follows the key. */
  lemma MatchKVOfValue(s: string, v: string)
    requires KeyPrefix(s).Some? && ValueAfterKey(s[|KeyPrefix(s).value|..]) == Some(v)
    ensures MatchKV(s) == Some((s[..|KeyPrefix(s).value|], v))
  {
  }

  /** After optional whitespace and a colon, group 2 is the rest less its leading whitespace. */
  lemma ValueAfterColon(rest: string, c: nat)
    requires NoLineFeed(rest) && c < |rest| && rest[c] == ':'
    requires forall k :: 0 <= k < c ==> rest[k] in Whitespace
    ensures ValueAfterKey(rest) == Some(StripLeft(rest[c + 1..], Whitespace))
  {
    StripToColon(rest, c);
    assert StripLeft(rest, Whitespace)[1..] == rest[c + 1..];
    NoLineFeedSuffix(rest, c + 1);
    var t := rest[c + 1..];
    var v := StripLeft(t, Whitespace);
    NoLineFeedSuffix(t, |t| - |v|);
  }

  lemma NoLineFeedSuffix(s: string, i: nat)
    requires NoLineFeed(s) && i <= |s|
    ensures NoLineFeed(s[i..])
  {
    forall k | 0 <= k < |s| - i ensures s[i..][k] != '\n' { assert s[i..][k] == s[i + k]; }
  }

  /** Stripping the whitespace in front of a colon leaves the text from the colon on. */
  lemma {:induction false} StripToColon(rest: string, c: nat)
    requires c < |rest| && rest[c] == ':'
    requires forall k :: 0 <= k < c ==> rest[k] in Whitespace
    ensures StripLeft(rest, Whitespace) == rest[c..]
    decreases c
  {
    assert ':' !in Whitespace;
    if c > 0 {
      assert rest[0] in Whitespace;
      StripToColon(rest[1..], c - 1);
      assert rest[1..][c - 1..] == rest[c..];
    }
  }

  /** Conversely, KV_RE matches only where a recognised key is followed by optional
      whitespace and a colon. */
  lemma MatchKVNeedsColon(s: string)
    requires MatchKV(s).Some?
    ensures KeyPrefix(s).Some? && exists j :: ColonAt(s, KeyPrefix(s).value, j)
  {
    var key := KeyPrefix(s).value;
    var rest := s[|key|..];
    var afterKey := StripLeft(rest, Whitespace);
    var c := |rest| - |afterKey|;
    assert afterKey[0] == rest[c] == s[|key| + c];
    assert ColonAt(s, key, |key| + c);
  }

  /** The key matches in any case and group 1 keeps the case as written; the
      whitespace around the colon is not part of the value. */
  lemma MixedCaseKeyExample()
    ensures MatchKV("Title : x") == Some(("Title", "x"))
  {
    var s := "Title : x";
    MixedCaseKey();
    assert ColonAt(s, "title", 6);
    MatchKVWhenColon(s, 6);
    assert s[..5] == "Title";
    assert s[7..] == " x";
    SpaceBeforeValue();
  }

  lemma MixedCaseKey()
    ensures KeyPrefix("Title : x") == Some("title")
  {
    assert HasKeyPrefix("Title : x", "title");
  }

  lemma SpaceBeforeValue()
    ensures StripLeft(" x", Whitespace) == "x"
  {
    assert SkipFrom(" x", Whitespace, 0) == 1;
  }

  // ---------------------------------------------------------------------
  // Values and the loop over the lines
  // ---------------------------------------------------------------------

  /** The value neither begins nor ends with a single quote. */
  predicate NoOuterQuote(v: string)
  {
    v == [] || (v[0] != '\'' && v[|v| - 1] != '\'')
  }

  /** `val.strip().strip('"').strip("'")`, each step once, in this order. */
  function CleanValue(raw: string): (r: string)
    ensures NoOuterQuote(r)
  {
    Strip(Strip(Strip(raw, Whitespace), {'"'}), {'\''})
  }

  /** Single quotes outside double quotes: only the single quotes go, since the
      double-quote pass ran first and found none at the ends. */
  lemma SingleOutsideDoubleExample()
    ensures CleanValue("'\"x\"'") == "\"x\""
  {
    var a := "'\"x\"'";
    StripUnchanged(a, Whitespace);
    StripUnchanged(a, {'"'});
    SingleQuotesStripped();
  }

  lemma SingleQuotesStripped()
    ensures Strip("'\"x\"'", {'\''}) == "\"x\""
  {
    var a := "'\"x\"'";
    assert SkipFrom(a, {'\''}, 0) == 1;
    assert a[1..] == "\"x\"'";
    assert SkipBackFrom("\"x\"'", {'\''}, 4) == 3;
  }

  /** Double quotes outside single quotes: both layers go. */
  lemma DoubleOutsideSingleExample()
    ensures CleanValue("\"'x'\"") == "x"
  {
    var b := "\"'x'\"";
    StripUnchanged(b, Whitespace);
    assert Strip(b, Whitespace) == b;
    DoubleQuotesStripped();
    assert Strip(Strip(b, Whitespace), {'"'}) == "'x'";
    InnerSingleQuotesStripped();
  }

  lemma DoubleQuotesStripped()
    ensures Strip("\"'x'\"", {'"'}) == "'x'"
  {
    var b := "\"'x'\"";
    assert SkipFrom(b, {'"'}, 0) == 1;
    assert b[1..] == "'x'\"";
    assert SkipBackFrom("'x'\"", {'"'}, 4) == 3;
  }

  lemma InnerSingleQuotesStripped()
    ensures Strip("'x'", {'\''}) == "x"
  {
    assert SkipFrom("'x'", {'\''}, 0) == 1;
    assert SkipBackFrom("x'", {'\''}, 2) == 1;
  }

  /** What one line of the body assigns, if anything: the lower-cased key and the
      cleaned value. An assignment sets one of the three keys, in lower case, to a
      value that neither begins nor ends with a single quote. */
  function Assignment(line: string): (r: Option<(string, string)>)
    ensures r.Some? ==> r.value.0 in Keys && NoOuterQuote(r.value.1)
  {
    var s := Strip(line, Whitespace);
    match MatchKV(s)
    case None => None
    case Some(kv) =>
      LowerOfKeyPrefix(s, KeyPrefix(s).value);
      Some((Lower(kv.0), CleanValue(kv.1)))
  }

  /** The `data` dict after `data[key] = val` has run for each assignment in turn.
      Every entry comes from one of the assignments. */
  function Apply(assigns: seq<Option<(string, string)>>): (r: map<string, string>)
    ensures forall k :: k in r ==> exists i :: 0 <= i < |assigns| && assigns[i] == Some((k, r[k]))
  {
    if assigns == [] then map[]
    else
      var data := Apply(assigns[..|assigns| - 1]);
      match assigns[|assigns| - 1]
      case None => data
      case Some(kv) => data[kv.0 := kv.1]
  }

  /** A key that some assignment sets maps to the value of the LAST assignment to it. */
  lemma {:induction false} LastAssignmentWins(assigns: seq<Option<(string, string)>>, i: nat, k: string)
    requires i < |assigns| && assigns[i].Some? && assigns[i].value.0 == k
    requires forall j :: i < j < |assigns| ==> assigns[j].None? || assigns[j].value.0 != k
    ensures k in Apply(assigns) && Apply(assigns)[k] == assigns[i].value.1
    decreases |assigns|
  {
    var init := assigns[..|assigns| - 1];
    if i < |assigns| - 1 {
      assert forall j :: 0 <= j < |init| ==> init[j] == assigns[j];
      LastAssignmentWins(init, i, k);
    }
  }

  /** A key that no assignment sets is absent. */
  lemma {:induction false} UnassignedKeyAbsent(assigns: seq<Option<(string, string)>>, k: string)
    requires forall j :: 0 <= j < |assigns| ==> assigns[j].None? || assigns[j].value.0 != k
    ensures k !in Apply(assigns)
    decreases |assigns|
  {
    if assigns != [] {
      var init := assigns[..|assigns| - 1];
      assert forall j :: 0 <= j < |init| ==> init[j] == assigns[j];
      UnassignedKeyAbsent(init, k);
    }
  }

  function AssignmentsOf(lines: seq<string>): (r: seq<Option<(string, string)>>)
    ensures |r| == |lines| && forall i :: 0 <= i < |lines| ==> r[i] == Assignment(lines[i])
  {
    seq(|lines|, i requires 0 <= i < |lines| => Assignment(lines[i]))
  }

  /** The dict the loop over the body's lines builds. */
  function ParseLines(lines: seq<string>): (r: map<string, string>)
    ensures forall k :: k in r ==> exists i :: 0 <= i < |lines| && Assignment(lines[i]) == Some((k, r[k]))
  {
    Apply(AssignmentsOf(lines))
  }

  /** Each parsed key is one of `title`, `date` and `summary`, in lower case, and its
      value neither begins nor ends with a single quote. */
  lemma ParsedEntries(lines: seq<string>)
    ensures forall k :: k in ParseLines(lines) ==> k in Keys && NoOuterQuote(ParseLines(lines)[k])
  {
    var assigns := AssignmentsOf(lines);
    forall k | k in Apply(assigns) ensures k in Keys && NoOuterQuote(Apply(assigns)[k]) {
      var v := Apply(assigns)[k];
      var i :| 0 <= i < |assigns| && assigns[i] == Some((k, v));
      assert assigns[i] == Assignment(lines[i]);
    }
  }

  /** Lines that assign a key: the result maps it to the value of the last such line. */
  lemma LastLineWins(lines: seq<string>, i: nat, k: string)
    requires i < |lines| && Assignment(lines[i]).Some? && Assignment(lines[i]).value.0 == k
    requires forall j :: i < j < |lines| ==> Assignment(lines[j]).None? || Assignment(lines[j]).value.0 != k
    ensures k in ParseLines(lines) && ParseLines(lines)[k] == Assignment(lines[i]).value.1
  {
    LastAssignmentWins(AssignmentsOf(lines), i, k);
  }

  /** Lines with no recognised key and colon are ignored: a key no line assigns is absent. */
  lemma UnassignedLinesIgnored(lines: seq<string>, k: string)
    requires forall j :: 0 <= j < |lines| ==> Assignment(lines[j]).None? || Assignment(lines[j]).value.0 != k
    ensures k !in ParseLines(lines)
  {
    UnassignedKeyAbsent(AssignmentsOf(lines), k);
  }

  /** What `parse_front_matter(text)` returns. Every key is one of the three, with a
      value that neither begins nor ends with a single quote. */
  function HeaderOf(text: string): (r: map<string, string>)
    ensures forall k :: k in r ==> k in Keys && NoOuterQuote(r[k])
  {
    match BlockBody(text)
    case None => map[]
    case Some(body) =>
      ParsedEntries(SplitLines(body));
      ParseLines(SplitLines(body))
  }

  /** One more assignment extends the fold by one `data[key] = val` step. */
  lemma ApplyStep(assigns: seq<Option<(string, string)>>, i: nat)
    requires i < |assigns|
    ensures Apply(assigns[..i + 1]) == match assigns[i]
      case None => Apply(assigns[..i])
      case Some(kv) => Apply(assigns[..i])[kv.0 := kv.1]
  {
    assert assigns[..i + 1][..i] == assigns[..i];
  }

  /** The assignment of a line is read off KV_RE's match on the stripped line. */
  lemma AssignmentOfMatch(line: string)
    ensures Assignment(line) == match MatchKV(Strip(line, Whitespace))
      case None => None
      case Some(kv) => Some((Lower(kv.0), CleanValue(kv.1)))
  {
  }

  method ParseFrontMatter(text: string) returns (data: map<string, string>)
    ensures data == HeaderOf(text)
    ensures BlockBody(text).None? ==> data == map[]
    ensures (forall p :: AtLineStart(text, p) ==> !Dashes(text, p)) ==> data == map[]
    ensures forall k :: k in data ==> k in Keys
  {
    var m := FindBlock(text);
    if m.None? {
      return map[];
    }
    var fm := text[m.value.1..m.value.2];
    var lines := SplitLines(fm);
    ghost var assigns := AssignmentsOf(lines);
    data := map[];
    for i := 0 to |lines|
      invariant data == Apply(assigns[..i])
    {
      ApplyStep(assigns, i);
      AssignmentOfMatch(lines[i]);
      var k := MatchKV(Strip(lines[i], Whitespace));
      if k.Some? {
        var key := Lower(k.value.0);
        var val := CleanValue(k.value.1);
        data := data[key := val];
      }
    }
    assert assigns[..|lines|] == assigns;
  }
}
