# generate_index, modelled in Dafny

`scripts/generate_index.py` scans one `year-drafts/<YEAR>/` directory for
markdown drafts and builds an index of them. Each record holds four fields:
`file`, `title`, `date` and `summary`. The fields come from a YAML-like
front-matter header delimited by `---` lines, with a title derived from the file
name when the header does not give one.

This project models the script's logic and proves properties of it:

- the search of the header pattern `FRONT_MATTER_RE` (MULTILINE, a greedy
  whitespace run after the opening dashes, a lazy body);
- `str.splitlines`;
- the key/value pattern `KV_RE` (IGNORECASE) and the value cleaning;
- the file-name fallback title (`pathlib` stem, year prefix, separators, `str.title`);
- the filter and record loop of `gen_index`;
- the final `sorted(..., key=..., reverse=True)`.

Module layout, one file each:

- `Wrappers`: `Option`.
- `Strings`: the ASCII behaviour of `str.isspace`, `str.lower`, `str.strip` and
  the `<` order on `str`.
- `FrontMatter`: `parse_front_matter` (`ParseFrontMatter`, specified by `HeaderOf`).
- `Slug`: `slug_title_from_filename` (`SlugTitle`).
- `Ordering`: records, the sort key and Python's stable sort with `reverse=True`.
  The sort is modelled as a stable insertion sort. It is proved descending,
  a permutation and stable. It is also proved to be the only sequence with
  those three properties, so it is the list `sorted` returns.
- `GenIndex`: directory entries, the filter and record loop (`Scan`), and
  `GenerateIndex`. `GenerateIndex` returns the exit code and the sorted records.

How the environment is modelled:

- The directory listing is a sequence of `Entry` values: a name, whether the
  entry is a regular file, and the decoded text (`None` when reading fails).
  The listing is taken in the order `sorted(drafts_dir.iterdir())` yields.
- Whether the directory exists is a boolean parameter.
- `GenerateIndex` takes the ordering `Rule` as a parameter. `AsWritten` is the
  key of line 79. `ReadmeFirst` is the order the comment at line 78 asks for
  (see Findings).

Behaviour of the code that the model follows, where a reading of the script's
own description might suggest otherwise:

- The header need not open the text. `search` with MULTILINE finds a `---`
  line anywhere, so the first matching line start wins.
- Values lose runs of quotes, not one matching pair. `strip('"')` and then
  `strip("'")` each remove every leading and trailing quote of their kind, in
  that order. So `'"x"'` becomes `"x"` but `"'x'"` becomes `x`.
- The title can be empty. `2026.md` has the stem `2026`, and removing the year
  leaves nothing (`Slug.YearOnlyNameExample`).
- Two dash lines with nothing between them (`---\n---\n`) form no header,
  because the body is followed by the line feed of the closing delimiter.
- A record with no date has date `""`, which is the least string, so it sorts
  after every dated record of its group.
- README records come last, not first (see Findings).

## Model

| member | source | states |
|---|---|---|
| FrontMatter.FirstClose | scripts/generate_index.py:23 | the lazy body tries the shortest body first: the least end at or after the start where `\n---\s*\n` follows, or none when no end works |
| FrontMatter.OpenFrom | scripts/generate_index.py:23 | the greedy `\s*\n` after the opening dashes backs off from the longest run: the result is a match, no longer opening run has one, and its body is the shortest for that opening |
| FrontMatter.SearchFrom | scripts/generate_index.py:23 | search from a position finds the leftmost match start, then the longest opening run, then the shortest body; none means no match starts at or after the position |
| FrontMatter.FindBlock | scripts/generate_index.py:28 | `FRONT_MATTER_RE.search(text)`: the leftmost match, longest opening and shortest body among all matches of the pattern; none exactly when there is no match |
| FrontMatter.BlockBody | scripts/generate_index.py:31 | `m.group(1)`: present exactly when the pattern matches somewhere, and then the body of the match `search` selects (`FindBlock`: leftmost start, longest opening, shortest body) |
| FrontMatter.NoDashLineNoBlock | scripts/generate_index.py:28-30 | a text with no line starting with `---` has no block |
| FrontMatter.AdjacentDashLinesNoBlock | scripts/generate_index.py:23 | `---\n---\n` is not matched by the header pattern |
| FrontMatter.SplitLines | scripts/generate_index.py:33 | `splitlines()` pieces hold no line boundary, and there are no pieces exactly when the text is empty |
| FrontMatter.SplitLinesOneLine | scripts/generate_index.py:33 | a non-empty text without boundaries is a single line |
| FrontMatter.SplitLinesStep | scripts/generate_index.py:33 | a line, one boundary (`\r\n` counted once) and the rest split into that line followed by the lines of the rest |
| FrontMatter.KeyPrefix | scripts/generate_index.py:24 | the key alternative of `KV_RE` that matches case-insensitively at the start of the line, or none when none of `title`, `date` and `summary` does |
| FrontMatter.KeyPrefixUnique | scripts/generate_index.py:24 | at most one of the three keys can open a given line |
| FrontMatter.LowerOfKeyPrefix | scripts/generate_index.py:36 | the matched key text lower-cases to the key itself |
| FrontMatter.RestOfLine | scripts/generate_index.py:24 | `(.*)$` without MULTILINE: the rest of the line when it holds no line feed, the rest less its final line feed when that is its only one, and no match otherwise |
| FrontMatter.MatchKV | scripts/generate_index.py:24 | `KV_RE.match` succeeds only on a line that one of the three keys opens, and group 1 is that key as spelled in the line |
| FrontMatter.ValueAfterKey | scripts/generate_index.py:24 | `\s*:\s*(.*)$` after the key: it matches only when a colon follows optional whitespace, and group 2 then holds no line feed and does not start with whitespace |
| FrontMatter.MatchKVWhenColon | scripts/generate_index.py:24 | on a line without line feeds, when a key, optional whitespace and a colon open it, the line matches with group 2 the text after that colon less its leading whitespace |
| FrontMatter.MatchKVNeedsColon | scripts/generate_index.py:24 | a line matches only if a key, optional whitespace and a colon open it |
| FrontMatter.MixedCaseKeyExample | scripts/generate_index.py:24 | `Title : x` matches with key `Title` and value `x` (IGNORECASE) |
| FrontMatter.CleanValue | scripts/generate_index.py:37 | the cleaned value neither starts nor ends with a single quote |
| FrontMatter.SingleOutsideDoubleExample | scripts/generate_index.py:37 | `'"x"'` cleans to `"x"`: the double-quote pass finds none at the ends |
| FrontMatter.DoubleOutsideSingleExample | scripts/generate_index.py:37 | `"'x'"` cleans to `x`: both passes strip |
| FrontMatter.Assignment | scripts/generate_index.py:34-37 | a line that matches sets one of the three keys in lower case, to a value with no outer single quote |
| FrontMatter.Apply | scripts/generate_index.py:38 | every key of the dict comes from an assignment setting it to that value |
| FrontMatter.LastAssignmentWins | scripts/generate_index.py:33-38 | a key maps to the value of its last assignment |
| FrontMatter.UnassignedKeyAbsent | scripts/generate_index.py:33-38 | a key no assignment sets is absent |
| FrontMatter.ParsedEntries | scripts/generate_index.py:33-38 | every parsed key is `title`, `date` or `summary`, with a value that has no outer single quote |
| FrontMatter.ParseLines | scripts/generate_index.py:32-38 | the dict the loop over the lines builds: every entry it holds is what some line assigns |
| FrontMatter.LastLineWins | scripts/generate_index.py:33-38 | when several lines assign a key, the last line's value is kept |
| FrontMatter.UnassignedLinesIgnored | scripts/generate_index.py:33-38 | a key that no line assigns is absent from the result |
| FrontMatter.HeaderOf | scripts/generate_index.py:27-39 | `parse_front_matter(text)`: every key it returns is one of the three, with a value that has no outer single quote |
| FrontMatter.ParseFrontMatter | scripts/generate_index.py:27-39 | the loop over the body's lines builds the dict the specification function gives; it is empty when there is no block or no dashed line, and its keys are the three names |
| Strings.ToLower | scripts/generate_index.py:36 | `lower()` maps each upper-case letter to the lower-case letter at the same alphabet position and leaves every other character unchanged |
| Strings.Lower | scripts/generate_index.py:36 | `str.lower()` lower-cases each character in place and leaves no upper-case letter |
| Strings.ToUpper | scripts/generate_index.py:47 | the capital `title()` gives a letter at a word start: the upper-case letter at the same alphabet position, and every other character unchanged |
| Strings.StripLeft | scripts/generate_index.py:37 | `lstrip(chars)` returns a suffix whose removed prefix is in the set, and which does not start with a character of the set |
| Strings.StripRight | scripts/generate_index.py:37 | `rstrip(chars)` returns a prefix whose removed suffix is in the set, and which does not end with a character of the set |
| Strings.Strip | scripts/generate_index.py:37 | `strip(chars)` returns a string no longer than its input that neither starts nor ends with a character of the set |
| Strings.StripIsSlice | scripts/generate_index.py:37 | `strip(chars)` keeps one contiguous slice, cuts only characters of the set on both sides, and the kept slice neither starts nor ends with one |
| Strings.StripUnchanged | scripts/generate_index.py:37 | a string whose ends are not in the set is unchanged by `strip` |
| Strings.LexLess | scripts/generate_index.py:79 | Python's `<` on str: a proper prefix is less than the longer string |
| Strings.LexIrreflexive | scripts/generate_index.py:79 | no date string is less than itself |
| Strings.LexTotal | scripts/generate_index.py:79 | any two date strings are equal or ordered one way |
| Strings.LexAsymmetric | scripts/generate_index.py:79 | str `<` is asymmetric |
| Strings.LexTransitive | scripts/generate_index.py:79 | str `<` is transitive |
| Slug.PathName | scripts/generate_index.py:43 | `Path(name).name` holds no `/` and is never `.` |
| Slug.PlainNameIsPathName | scripts/generate_index.py:43 | a directory entry name is its own path name |
| Slug.Suffix | scripts/generate_index.py:43 | `Path(name).suffix` is empty, or a dot and at least one more character |
| Slug.Stem | scripts/generate_index.py:43 | `Path(name).stem` is a prefix of the path name |
| Slug.StemSuffixSplit | scripts/generate_index.py:43 | stem plus suffix is the name; the suffix is cut exactly when the last dot is neither the first nor the last character, and is then the text from that dot; otherwise the suffix is empty and the stem is the whole name |
| Slug.StripYear | scripts/generate_index.py:45 | `^\d{4}[-_]?` removes nothing unless four digits open the text, and removes five characters exactly when a `-` or `_` follows them |
| Slug.SeparatorsToSpaces | scripts/generate_index.py:46 | each `-` and `_` becomes a space and nothing else changes |
| Slug.TitleChar | scripts/generate_index.py:47 | one character of `title()`: same letter, upper case exactly when the previous character is not cased |
| Slug.TitleFrom | scripts/generate_index.py:47 | each character is title-cased according to whether the character before it is cased |
| Slug.TitleCase | scripts/generate_index.py:47 | `title()`: the same letters up to case, upper case exactly at word starts, non-letters unchanged |
| Slug.TitleCaseIdempotent | scripts/generate_index.py:47 | `title()` of a title-cased string changes nothing |
| Slug.TitleFromSplit | scripts/generate_index.py:47 | a non-letter resets casing, so words are capitalised independently |
| Slug.NonLettersUnchanged | scripts/generate_index.py:47 | a run of non-letters is left unchanged by `title()` |
| Slug.LowerAfterLetter | scripts/generate_index.py:47 | lower-case letters after a cased character stay lower case |
| Slug.WordTitle | scripts/generate_index.py:47 | a lower-case word at a word start gets only its first letter capitalised |
| Slug.SlugTitle | scripts/generate_index.py:42-47 | the fallback title holds no `-` or `_`, capitalises exactly its word starts, and is the year-stripped stem with separators as spaces, up to case |
| Slug.DatedNameExample | scripts/generate_index.py:42-47 | `2026-my-great-post.md` gives `My Great Post` |
| Slug.TrailingYearExample | scripts/generate_index.py:42-47 | `notes_2026.md` gives `Notes 2026`: digits that do not open the stem are kept |
| Slug.YearOnlyNameExample | scripts/generate_index.py:42-47 | `2026.md` gives the empty title |
| Ordering.IsReadme | scripts/generate_index.py:79 | `e['file'].lower() == 'readme.md'` holds exactly for nine-character names that match `readme.md` letter by letter in any case |
| Ordering.KeyOf | scripts/generate_index.py:79 | the key lambda: the record's date, and group 0 for README as written (1 under the corrected rule), the other group for the rest |
| Ordering.KeyLess | scripts/generate_index.py:79 | tuple `<` on keys: a smaller group is less, a larger group is not, and equal groups compare by date |
| Ordering.KeyIrreflexive | scripts/generate_index.py:79 | the tuple key order is irreflexive |
| Ordering.KeyTotal | scripts/generate_index.py:79 | any two keys are equal or ordered one way |
| Ordering.KeyAsymmetric | scripts/generate_index.py:79 | the key order is asymmetric |
| Ordering.KeyAtLeastTransitive | scripts/generate_index.py:79 | "not less than" on keys is transitive |
| Ordering.Insert | scripts/generate_index.py:79 | inserting one record keeps the length, and the first element is the new record or the old first one |
| Ordering.Sort | scripts/generate_index.py:79 | `sorted(entries, key=..., reverse=True)` returns as many records as it is given; SortDescending, SortPermutes, SortStable and StableSortUnique state the rest |
| Ordering.SortDescending | scripts/generate_index.py:79 | the sorted list has non-increasing keys |
| Ordering.SortPermutes | scripts/generate_index.py:79 | the sorted list is a permutation of the records |
| Ordering.SortStable | scripts/generate_index.py:79 | records with equal keys keep their original relative order (`sorted` is stable under `reverse=True`) |
| Ordering.DescendingStableEqual | scripts/generate_index.py:79 | two descending lists that agree on the records of every key are equal |
| Ordering.StableSortUnique | scripts/generate_index.py:79 | any descending list that keeps each key's records in input order is the sorted list, so the model is the list `sorted` returns |
| Ordering.DatesDescend | scripts/generate_index.py:79 | within a group, dates do not increase |
| Ordering.ReadmeLast | scripts/generate_index.py:79 | with the key as written, a README record is followed only by README records |
| Ordering.ReadmeFirstHolds | scripts/generate_index.py:78 | with the intended rule, a README record is preceded only by README records |
| Ordering.ReadmeOrderExample | scripts/generate_index.py:78-79 | a README and a dated post come out post first as written, README first under the intended rule |
| GenIndex.MarkdownName | scripts/generate_index.py:59 | `p.suffix.lower() in ('.md', '.markdown')`: a markdown name has a three- or nine-character suffix and a non-empty stem |
| GenIndex.HiddenNameExample | scripts/generate_index.py:59 | `.md` is not a markdown name, since pathlib gives it no suffix |
| GenIndex.UpperCaseSuffixExample | scripts/generate_index.py:59 | `a.MD` is a markdown name, since the suffix is compared in lower case |
| GenIndex.Eligible | scripts/generate_index.py:59-65 | an entry that becomes a record is a regular file, was read, and has a non-empty stem |
| GenIndex.Field | scripts/generate_index.py:67-69 | `fm.get(key) or ''`: the value when the key is present, else the empty string |
| GenIndex.RecordOf | scripts/generate_index.py:66-70 | the record's file is the entry name; its title is the header title when that is non-empty, else the fallback title; date and summary are the header values, or empty when absent |
| GenIndex.Scan | scripts/generate_index.py:58-70 | the loop appends at most one record per entry |
| GenIndex.ScanSound | scripts/generate_index.py:58-70 | every record comes from an eligible entry (a file, `.md` or `.markdown` in any case, readable), through `RecordOf` |
| GenIndex.ScanComplete | scripts/generate_index.py:58-70 | every eligible entry contributes its record |
| GenIndex.ScanAppend | scripts/generate_index.py:58-70 | scanning two listings one after the other concatenates their records |
| GenIndex.SkippedEntry | scripts/generate_index.py:59-65 | a directory, a non-markdown name or an unreadable file contributes nothing |
| GenIndex.ScanKeepsOrder | scripts/generate_index.py:58 | before the sort, records follow the name order of the sorted listing |
| GenIndex.NoHeaderRecord | scripts/generate_index.py:66-69 | a text with no header gives the fallback title and empty date and summary |
| GenIndex.GenerateIndex | scripts/generate_index.py:50-84 | a missing directory gives code 2 and no records; otherwise code 0 and the loop's records, sorted: a permutation, README placed by the rule, dates descending within each group |

## Left out

- Filesystem access is not modelled. `Path.cwd`, `exists`/`is_dir`, `iterdir`,
  `is_file` and `read_text` become the `dirExists` parameter and the `Entry`
  fields.
- UTF-8 decoding is not modelled. Neither is the universal-newline translation
  `read_text` performs: `Entry.content` is the text after it.
- Sorting the directory listing is not modelled. The listing is given in
  sorted order, and `GenIndex.ScanKeepsOrder` states what that order yields.
- Writing `index.json` is not modelled. `json.dumps` and `write_text` (lines 81-82)
  are output formatting; `GenerateIndex` returns the records instead.
- Printing (lines 54, 64, 83) and reading `sys.argv` (lines 87-89) are I/O. The
  year only selects the directory (lines 51-52), so it is not modelled.
- The exception and its type in the read at lines 61-65 are not modelled: any
  failure is `content == None`.
- `sort_key` (lines 73-76) is never called, so it is not modelled.
- Non-ASCII behaviour is not modelled: `\s`, `\d`, `str.strip()`, `lower()`,
  `title()`, `splitlines()` and IGNORECASE case folding go beyond ASCII only
  in ways the model does not cover; in particular `splitlines()` also breaks at
  U+0085, U+2028 and U+2029, which `FrontMatter.SplitLines` does not treat as
  line boundaries. The model is exact on ASCII text.
- Windows path rules are not modelled, because the model follows POSIX `pathlib`.
  A name ending in a dot has no suffix, as in Python up to 3.13; the later rule
  that makes a final dot a suffix is not modelled.
- FrontMatter.SplitLines: its contract states only that the pieces hold no
  boundary and when there are none. How the pieces are cut is stated by
  `SplitLinesOneLine` and `SplitLinesStep`.

## Findings

| source | as written | input that shows it | evidently intended | confidence | as-written member | corrected member |
|---|---|---|---|---|---|---|
| scripts/generate_index.py:78-79 | the key gives README `0` and the rest `1`; with `reverse=True` README sorts after every other record | `README.md` with no date and `2026-a.md` dated `2026-01-01` come out as `2026-a.md`, then `README.md` | README first, then dates descending, as the comment at line 78 says | not executed | Ordering.ReadmeOrderExample | Ordering.ReadmeFirstHolds |

`Ordering.ReadmeLast` proves the as-written placement for all inputs.
`GenerateIndex` with `Rule.ReadmeFirst` gives the corrected order. With
`Rule.AsWritten` it gives the order the code produces.
