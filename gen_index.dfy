/**
 * The record loop of `gen_index`: walk the name-sorted directory listing, keep the
 * readable regular files whose suffix is `.md` or `.markdown` in any case, build one
 * record per file from its front matter with the fallbacks of the script, and order
 * the records with `sorted(..., reverse=True)`.
 */
module GenIndex {
  import opened Wrappers
  import opened Strings
  import opened FrontMatter
  import opened Slug
  import opened Ordering

  /** One directory entry: its name, whether it is a regular file, and its text, or
      `None` when reading it fails. */
  datatype Entry = Entry(name: string, isFile: bool, content: Option<string>)

  /** `p.suffix.lower() in ('.md', '.markdown')`. */
  predicate MarkdownName(name: string)
    ensures MarkdownName(name) ==> Stem(name) != "" && (|Suffix(name)| == 3 || |Suffix(name)| == 9)
  {
    StemSuffixSplit(name);
    Lower(Suffix(name)) == ".md" || Lower(Suffix(name)) == ".markdown"
  }

  /** A name that is only the suffix has no suffix, so `.md` is not a markdown name. */
  lemma HiddenNameExample()
    ensures !MarkdownName(".md")
  {
    PlainNameIsPathName(".md");
  }

  /** The suffix is compared in any case. */
  lemma UpperCaseSuffixExample()
    ensures MarkdownName("a.MD")
  {
    StemAtDot("a.MD", 1);
    assert Suffix("a.MD") == ".MD";
  }

  /** The entries that become records: readable regular files with a markdown name,
      which therefore have a non-empty stem. */
  predicate Eligible(e: Entry)
    ensures Eligible(e) ==> e.isFile && e.content.Some? && Stem(e.name) != ""
  {
    e.isFile && MarkdownName(e.name) && e.content.Some?
  }

  /** `fm.get(key) or ''`. */
  function Field(fm: map<string, string>, key: string): (r: string)
    ensures key in fm ==> r == fm[key]
    ensures key !in fm ==> r == ""
  {
    if key in fm then fm[key] else ""
  }

  /** The record for the file `name` with text `text`. */
  function RecordOf(name: string, text: string): (r: Record)
    ensures r.file == name
    ensures "title" in HeaderOf(text) && HeaderOf(text)["title"] != "" ==> r.title == HeaderOf(text)["title"]
    ensures r.title == SlugTitle(name) || ("title" in HeaderOf(text) && r.title == HeaderOf(text)["title"] != "")
    ensures r.title == "" ==> SlugTitle(name) == ""
    ensures "date" in HeaderOf(text) ==> r.date == HeaderOf(text)["date"]
    ensures "date" !in HeaderOf(text) ==> r.date == ""
    ensures "summary" in HeaderOf(text) ==> r.summary == HeaderOf(text)["summary"]
    ensures "summary" !in HeaderOf(text) ==> r.summary == ""
    ensures NoOuterQuote(r.date) && NoOuterQuote(r.summary)
  {
    var fm := HeaderOf(text);
    var title := if Field(fm, "title") != "" then Field(fm, "title") else SlugTitle(name);
    Record(name, title, Field(fm, "date"), Field(fm, "summary"))
  }

  /** The records of the entries that pass the filter, in listing order. */
  function Scan(listing: seq<Entry>): (r: seq<Record>)
    ensures |r| <= |listing|
  {
    if listing == [] then []
    else
      var init := Scan(listing[..|listing| - 1]);
      var e := listing[|listing| - 1];
      if Eligible(e) then init + [RecordOf(e.name, e.content.value)] else init
  }

  /** Every record comes from an eligible entry. */
  lemma {:induction false} ScanSound(listing: seq<Entry>, x: Record)
    requires x in Scan(listing)
    ensures exists i :: 0 <= i < |listing| && Eligible(listing[i]) && x == RecordOf(listing[i].name, listing[i].content.value)
    decreases |listing|
  {
    var init := listing[..|listing| - 1];
    var e := listing[|listing| - 1];
    if x in Scan(init) {
      ScanSound(init, x);
      var i :| 0 <= i < |init| && Eligible(init[i]) && x == RecordOf(init[i].name, init[i].content.value);
      assert init[i] == listing[i];
    } else {
      assert x == RecordOf(e.name, e.content.value);
    }
  }

  /** Scanning two listings one after the other gives the records of both. */
  lemma {:induction false} ScanAppend(a: seq<Entry>, b: seq<Entry>)
    ensures Scan(a + b) == Scan(a) + Scan(b)
    decreases |b|
  {
    if b == [] {
      assert a + b == a;
    } else {
      var b' := b[..|b| - 1];
      assert (a + b)[..|a + b| - 1] == a + b';
      ScanAppend(a, b');
    }
  }

  /** An entry the filter rejects, an unreadable one included, is skipped and the scan
      goes on with the rest. */
  lemma SkippedEntry(a: seq<Entry>, e: Entry, b: seq<Entry>)
    requires !Eligible(e)
    ensures Scan(a + [e] + b) == Scan(a + b)
  {
    ScanAppend(a + [e], b);
    ScanAppend(a, b);
    assert (a + [e])[..|a|] == a;
  }

  /** Every eligible entry yields its record. */
  lemma {:induction false} ScanComplete(listing: seq<Entry>, i: nat)
    requires i < |listing| && Eligible(listing[i])
    ensures RecordOf(listing[i].name, listing[i].content.value) in Scan(listing)
    decreases |listing|
  {
    var init := listing[..|listing| - 1];
    if i < |listing| - 1 {
      assert init[i] == listing[i];
      ScanComplete(init, i);
    }
  }

  /** When every entry name is below `bound`, so is every record's file name. */
  lemma ScanFileBefore(listing: seq<Entry>, bound: string, x: Record)
    requires forall i :: 0 <= i < |listing| ==> LexLess(listing[i].name, bound)
    requires x in Scan(listing)
    ensures LexLess(x.file, bound)
  {
    ScanSound(listing, x);
  }

  /** The records are in strictly ascending file name order. */
  predicate FilesAscending(r: seq<Record>)
  {
    forall i, j :: 0 <= i < j < |r| ==> LexLess(r[i].file, r[j].file)
  }

  /** Records in strictly ascending file order stay so when one with a greater file
      name is appended. */
  lemma AppendAscending(r0: seq<Record>, x: Record)
    requires forall y :: y in r0 ==> LexLess(y.file, x.file)
    requires FilesAscending(r0)
    ensures FilesAscending(r0 + [x])
  {
    var r := r0 + [x];
    forall i, j | 0 <= i < j < |r| ensures LexLess(r[i].file, r[j].file) {
      if j == |r0| {
        assert r[i] in r0;
      } else {
        assert r[i] == r0[i] && r[j] == r0[j];
      }
    }
  }

  /** With the listing in strictly ascending name order, as `sorted(iterdir())` gives it,
      the records come out in strictly ascending file order. */
  lemma {:induction false} ScanKeepsOrder(listing: seq<Entry>)
    requires forall i, j :: 0 <= i < j < |listing| ==> LexLess(listing[i].name, listing[j].name)
    ensures FilesAscending(Scan(listing))
    decreases |listing|
  {
    if listing != [] {
      var init := listing[..|listing| - 1];
      var e := listing[|listing| - 1];
      assert forall k :: 0 <= k < |init| ==> init[k] == listing[k];
      ScanKeepsOrder(init);
      if Eligible(e) {
        forall y | y in Scan(init) ensures LexLess(y.file, e.name) {
          ScanFileBefore(init, e.name, y);
        }
        AppendAscending(Scan(init), RecordOf(e.name, e.content.value));
      }
    }
  }

  /** A text without front matter gives the fallback title and empty date and summary. */
  lemma NoHeaderRecord(name: string, text: string)
    requires BlockBody(text).None?
    ensures RecordOf(name, text) == Record(name, SlugTitle(name), "", "")
  {
  }

  /** `gen_index`: exit code 2 and no records when the directory is missing, otherwise
      exit code 0 and the records in the order of `rule`. `AsWritten` is the key of the
      script; `ReadmeFirst` is the order its comment asks for. */
  method GenerateIndex(rule: Rule, dirExists: bool, listing: seq<Entry>) returns (code: int, index: seq<Record>)
    ensures !dirExists ==> code == 2 && index == []
    ensures dirExists ==> code == 0 && index == Sort(rule, Scan(listing))
    ensures dirExists ==> multiset(index) == multiset(Scan(listing))
    ensures rule == AsWritten ==> forall i, j :: 0 <= i < j < |index| && IsReadme(index[i]) ==> IsReadme(index[j])
    ensures rule == ReadmeFirst ==> forall i, j :: 0 <= i < j < |index| && IsReadme(index[j]) ==> IsReadme(index[i])
    ensures forall i, j :: 0 <= i < j < |index| && IsReadme(index[i]) == IsReadme(index[j]) ==>
      !LexLess(index[i].date, index[j].date)
  {
    if !dirExists {
      return 2, [];
    }
    var entries: seq<Record> := [];
    for i := 0 to |listing|
      invariant entries == Scan(listing[..i])
    {
      assert listing[..i + 1][..i] == listing[..i];
      var p := listing[i];
      if !p.isFile || !MarkdownName(p.name) {
        continue;
      }
      if p.content.None? {
        continue;
      }
      var text := p.content.value;
      var fm := ParseFrontMatter(text);
      var title := if Field(fm, "title") != "" then Field(fm, "title") else SlugTitle(p.name);
      var date := Field(fm, "date");
      var summary := Field(fm, "summary");
      entries := entries + [Record(p.name, title, date, summary)];
    }
    assert listing[..|listing|] == listing;
    SortPermutes(rule, entries);
    DatesDescend(rule, entries);
    if rule == AsWritten { ReadmeLast(entries); } else { ReadmeFirstHolds(entries); }
    return 0, Sort(rule, entries);
  }
}
