/**
 * The order of the index: `sorted(entries, key=..., reverse=True)` with the key
 * `(0 if README else 1, date)`. Python's sort is stable, also with `reverse=True`:
 * records whose keys are equal keep their relative order, and the others come in
 * descending key order. `Sort` is a stable insertion sort with that behaviour, and
 * `StableSortUnique` shows that any other descending, stable arrangement is the same
 * sequence, so `Sort` is the result of Python's `sorted`.
 */
module Ordering {
  import opened Strings

  /** One entry of the index, with the four fields written to `index.json`. */
  datatype Record = Record(file: string, title: string, date: string, summary: string)

  /** `e['file'].lower() == 'readme.md'`. */
  predicate IsReadme(r: Record)
    ensures IsReadme(r) <==> |r.file| == 9 && forall i :: 0 <= i < 9 ==> ToLower(r.file[i]) == "readme.md"[i]
  {
    Lower(r.file) == "readme.md"
  }

  /** Which group key orders the records: the one the script computes, or the one that
      puts README first as the comment above it says. */
  datatype Rule = AsWritten | ReadmeFirst

  datatype Key = Key(group: int, date: string)

  /** The key of a record: README records in group 0 as written (group 1 under the
      corrected rule), all others in the other group, and the record's date. */
  function KeyOf(rule: Rule, r: Record): (k: Key)
    ensures k.date == r.date
    ensures k.group == 0 || k.group == 1
    ensures k.group == 0 <==> (IsReadme(r) <==> rule == AsWritten)
  {
    match rule
    case AsWritten => Key(if IsReadme(r) then 0 else 1, r.date)
    case ReadmeFirst => Key(if IsReadme(r) then 1 else 0, r.date)
  }

  /** Python's `<` on the key tuple: by group, then by date. */
  predicate KeyLess(a: Key, b: Key)
    ensures a.group < b.group ==> KeyLess(a, b)
    ensures a.group > b.group ==> !KeyLess(a, b)
    ensures a.group == b.group ==> (KeyLess(a, b) <==> LexLess(a.date, b.date))
  {
    a.group < b.group || (a.group == b.group && LexLess(a.date, b.date))
  }

  lemma KeyIrreflexive(a: Key)
    ensures !KeyLess(a, a)
  {
    LexIrreflexive(a.date);
  }

  lemma KeyTotal(a: Key, b: Key)
    ensures a == b || KeyLess(a, b) || KeyLess(b, a)
  {
    LexTotal(a.date, b.date);
  }

  lemma KeyAsymmetric(a: Key, b: Key)
    requires KeyLess(a, b)
    ensures !KeyLess(b, a)
  {
    if a.group == b.group { LexAsymmetric(a.date, b.date); }
  }

  /** "Not less than" is transitive. */
  lemma KeyAtLeastTransitive(a: Key, b: Key, c: Key)
    requires !KeyLess(a, b) && !KeyLess(b, c)
    ensures !KeyLess(a, c)
  {
    KeyTotal(b, c);
    if KeyLess(a, c) && KeyLess(c, b) {
      if a.group == c.group && c.group == b.group { LexTransitive(a.date, c.date, b.date); }
    }
  }

  /** Every record's key is at least the key of every record after it. */
  predicate Descending(rule: Rule, s: seq<Record>)
  {
    forall i, j :: 0 <= i < j < |s| ==> !KeyLess(KeyOf(rule, s[i]), KeyOf(rule, s[j]))
  }

  /** The records of `s` whose key is `k`, in their order in `s`. */
  function WithKey(rule: Rule, s: seq<Record>, k: Key): (r: seq<Record>)
    ensures |r| <= |s|
  {
    if s == [] then []
    else (if KeyOf(rule, s[0]) == k then [s[0]] else []) + WithKey(rule, s[1..], k)
  }

  /** `x` placed before the first record of `s` whose key is not greater than its own. */
  function Insert(rule: Rule, x: Record, s: seq<Record>): (r: seq<Record>)
    ensures |r| == |s| + 1
    ensures r[0] == x || (s != [] && r[0] == s[0])
  {
    if s == [] then [x]
    else if KeyLess(KeyOf(rule, x), KeyOf(rule, s[0])) then [s[0]] + Insert(rule, x, s[1..])
    else [x] + s
  }

  /** `sorted(s, key=KeyOf, reverse=True)`. */
  function Sort(rule: Rule, s: seq<Record>): (r: seq<Record>)
    ensures |r| == |s|
  {
    if s == [] then [] else Insert(rule, s[0], Sort(rule, s[1..]))
  }

  /** A sequence that is descending between neighbours is descending throughout. */
  lemma {:induction false} AdjacentDescending(rule: Rule, s: seq<Record>)
    requires forall i :: 0 < i < |s| ==> !KeyLess(KeyOf(rule, s[i - 1]), KeyOf(rule, s[i]))
    ensures Descending(rule, s)
    decreases |s|
  {
    if s != [] {
      AdjacentDescending(rule, s[1..]);
      forall j | 1 <= j < |s| ensures !KeyLess(KeyOf(rule, s[0]), KeyOf(rule, s[j])) {
        if j > 1 {
          assert !KeyLess(KeyOf(rule, s[1]), KeyOf(rule, s[j])) by {
            assert s[1] == s[1..][0] && s[j] == s[1..][j - 1];
          }
          KeyAtLeastTransitive(KeyOf(rule, s[0]), KeyOf(rule, s[1]), KeyOf(rule, s[j]));
        }
      }
    }
  }

  lemma {:induction false} InsertDescending(rule: Rule, x: Record, s: seq<Record>)
    requires Descending(rule, s)
    ensures Descending(rule, Insert(rule, x, s))
    decreases |s|
  {
    var r := Insert(rule, x, s);
    if s != [] && KeyLess(KeyOf(rule, x), KeyOf(rule, s[0])) {
      InsertDescending(rule, x, s[1..]);
      var t := Insert(rule, x, s[1..]);
      assert r == [s[0]] + t;
      if s[1..] != [] && t[0] == s[1..][0] {
        assert !KeyLess(KeyOf(rule, s[0]), KeyOf(rule, s[1]));
      } else {
        KeyAsymmetric(KeyOf(rule, x), KeyOf(rule, s[0]));
      }
      forall i | 0 < i < |r| ensures !KeyLess(KeyOf(rule, r[i - 1]), KeyOf(rule, r[i])) {
        if i > 1 { assert r[i - 1] == t[i - 2] && r[i] == t[i - 1]; }
      }
      AdjacentDescending(rule, r);
    } else if s != [] {
      forall i | 0 < i < |r| ensures !KeyLess(KeyOf(rule, r[i - 1]), KeyOf(rule, r[i])) {
        if i > 1 { assert r[i - 1] == s[i - 2] && r[i] == s[i - 1]; }
      }
      AdjacentDescending(rule, r);
    }
  }

  /** The result of `Sort` is in descending key order. */
  lemma {:induction false} SortDescending(rule: Rule, s: seq<Record>)
    ensures Descending(rule, Sort(rule, s))
    decreases |s|
  {
    if s != [] {
      SortDescending(rule, s[1..]);
      InsertDescending(rule, s[0], Sort(rule, s[1..]));
    }
  }

  lemma {:induction false} InsertPermutes(rule: Rule, x: Record, s: seq<Record>)
    ensures multiset(Insert(rule, x, s)) == multiset(s) + multiset{x}
    decreases |s|
  {
    if s != [] && KeyLess(KeyOf(rule, x), KeyOf(rule, s[0])) {
      InsertPermutes(rule, x, s[1..]);
      assert s == [s[0]] + s[1..];
    }
  }

  /** `Sort` rearranges its input: the same records, each as often. */
  lemma {:induction false} SortPermutes(rule: Rule, s: seq<Record>)
    ensures multiset(Sort(rule, s)) == multiset(s)
    decreases |s|
  {
    if s != [] {
      SortPermutes(rule, s[1..]);
      InsertPermutes(rule, s[0], Sort(rule, s[1..]));
      assert s == [s[0]] + s[1..];
    }
  }

  /** The records `WithKey` keeps come from `s` and have key `k`. */
  lemma {:induction false} WithKeyMembers(rule: Rule, s: seq<Record>, k: Key)
    ensures forall y :: y in WithKey(rule, s, k) ==> y in s && KeyOf(rule, y) == k
    decreases |s|
  {
    if s != [] {
      WithKeyMembers(rule, s[1..], k);
    }
  }

  /** Filtering a record and then a sequence is filtering the two one after the other. */
  lemma WithKeyCons(rule: Rule, x: Record, b: seq<Record>, k: Key)
    ensures WithKey(rule, [x] + b, k) == WithKey(rule, [x], k) + WithKey(rule, b, k)
  {
    assert ([x] + b)[0] == x && ([x] + b)[1..] == b;
    assert [x][1..] == [];
  }

  lemma {:induction false} InsertStable(rule: Rule, x: Record, s: seq<Record>, k: Key)
    ensures WithKey(rule, Insert(rule, x, s), k) == WithKey(rule, [x], k) + WithKey(rule, s, k)
    decreases |s|
  {
    if s != [] && KeyLess(KeyOf(rule, x), KeyOf(rule, s[0])) {
      InsertStable(rule, x, s[1..], k);
      WithKeyCons(rule, s[0], Insert(rule, x, s[1..]), k);
      WithKeyCons(rule, s[0], s[1..], k);
      assert s == [s[0]] + s[1..];
      KeyIrreflexive(k);
    } else if s != [] {
      WithKeyCons(rule, x, s, k);
    }
  }

  /** `Sort` is stable: the records sharing any one key keep their order. */
  lemma {:induction false} SortStable(rule: Rule, s: seq<Record>, k: Key)
    ensures WithKey(rule, Sort(rule, s), k) == WithKey(rule, s, k)
    decreases |s|
  {
    if s != [] {
      SortStable(rule, s[1..], k);
      InsertStable(rule, s[0], Sort(rule, s[1..]), k);
    }
  }

  /** The first record of a descending sequence has the greatest key. */
  lemma FirstIsGreatest(rule: Rule, t: seq<Record>, y: Record)
    requires Descending(rule, t) && y in t
    ensures !KeyLess(KeyOf(rule, t[0]), KeyOf(rule, y))
  {
    var j :| 0 <= j < |t| && t[j] == y;
    if j == 0 { KeyIrreflexive(KeyOf(rule, y)); }
  }

  lemma EmptyWithKey(rule: Rule, t: seq<Record>, e: seq<Record>)
    requires t != [] && e == []
    ensures WithKey(rule, t, KeyOf(rule, t[0])) != WithKey(rule, e, KeyOf(rule, t[0]))
  {
  }

  /** Two descending sequences that agree on the records of every key are equal. */
  lemma {:induction false} DescendingStableEqual(rule: Rule, t1: seq<Record>, t2: seq<Record>)
    requires Descending(rule, t1) && Descending(rule, t2)
    requires forall k :: WithKey(rule, t1, k) == WithKey(rule, t2, k)
    ensures t1 == t2
    decreases |t1|
  {
    if t1 == [] || t2 == [] {
      if t1 != [] { EmptyWithKey(rule, t1, t2); }
      if t2 != [] { EmptyWithKey(rule, t2, t1); }
    } else {
      var k1, k2 := KeyOf(rule, t1[0]), KeyOf(rule, t2[0]);
      var w1 := WithKey(rule, t2, k1);
      assert w1 == WithKey(rule, t1, k1) && w1[0] == t1[0];
      WithKeyMembers(rule, t2, k1);
      FirstIsGreatest(rule, t2, w1[0]);
      var w2 := WithKey(rule, t1, k2);
      assert w2 == WithKey(rule, t2, k2) && w2[0] == t2[0];
      WithKeyMembers(rule, t1, k2);
      FirstIsGreatest(rule, t1, w2[0]);
      KeyTotal(k1, k2);
      assert t1[0] == t2[0];
      forall k ensures WithKey(rule, t1[1..], k) == WithKey(rule, t2[1..], k) {
        var h := if k1 == k then [t1[0]] else [];
        var x1, x2 := WithKey(rule, t1[1..], k), WithKey(rule, t2[1..], k);
        assert h + x1 == WithKey(rule, t1, k) == WithKey(rule, t2, k) == h + x2;
        assert (h + x1)[|h|..] == x1 && (h + x2)[|h|..] == x2;
      }
      DescendingStableEqual(rule, t1[1..], t2[1..]);
      assert t1 == [t1[0]] + t1[1..] && t2 == [t2[0]] + t2[1..];
    }
  }

  /** `Sort` is the only descending, stable rearrangement: whatever arrangement Python's
      `sorted(..., reverse=True)` produces, being descending and stable, is `Sort`. */
  lemma StableSortUnique(rule: Rule, s: seq<Record>, t: seq<Record>)
    requires Descending(rule, t)
    requires forall k :: WithKey(rule, t, k) == WithKey(rule, s, k)
    ensures t == Sort(rule, s)
  {
    SortDescending(rule, s);
    forall k ensures WithKey(rule, t, k) == WithKey(rule, Sort(rule, s), k) {
      SortStable(rule, s, k);
    }
    DescendingStableEqual(rule, t, Sort(rule, s));
  }

  /** Within one group (README or not) the dates never increase, under either rule. */
  lemma DatesDescend(rule: Rule, s: seq<Record>)
    ensures var t := Sort(rule, s);
      forall i, j :: 0 <= i < j < |t| && IsReadme(t[i]) == IsReadme(t[j]) ==> !LexLess(t[i].date, t[j].date)
  {
    SortDescending(rule, s);
  }

  /** As written, the key puts README (group 0) below every other file (group 1), and
      `reverse=True` then lists it after all of them. */
  lemma ReadmeLast(s: seq<Record>)
    ensures var t := Sort(AsWritten, s);
      forall i, j :: 0 <= i < j < |t| && IsReadme(t[i]) ==> IsReadme(t[j])
  {
    SortDescending(AsWritten, s);
  }

  /** With the group flags swapped, README comes before every other file. */
  lemma ReadmeFirstHolds(s: seq<Record>)
    ensures var t := Sort(ReadmeFirst, s);
      forall i, j :: 0 <= i < j < |t| && IsReadme(t[j]) ==> IsReadme(t[i])
  {
    SortDescending(ReadmeFirst, s);
  }

  /** A README and a dated post, in that order: the script lists the post first, although
      its comment promises README first; the corrected rule keeps README on top. */
  lemma ReadmeOrderExample()
    ensures var readme := Record("README.md", "Readme", "", "");
      var post := Record("2026-a.md", "A", "2026-01-01", "");
      Sort(AsWritten, [readme, post]) == [post, readme]
      && Sort(ReadmeFirst, [readme, post]) == [readme, post]
  {
    var readme := Record("README.md", "Readme", "", "");
    var post := Record("2026-a.md", "A", "2026-01-01", "");
    assert Lower("README.md") == "readme.md";
    assert Lower("2026-a.md") != "readme.md" by { assert Lower("2026-a.md")[0] == '2'; }
    assert [readme, post][1..] == [post];
    assert [post][1..] == [];
    assert Sort(AsWritten, [post]) == [post] && Sort(ReadmeFirst, [post]) == [post];
  }
}
