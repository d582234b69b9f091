/**
 * The index the crawler writes next to the pages: a markdown table with one row per
 * crawled page, in ascending title order, stable among equal titles as Python's
 * `sorted` is.
 */
module IndexFile {
  import opened Text

  /** One crawled page as `run` collects it: `{'title': ..., 'url': ..., 'file': ...}`. */
  datatype PageResult = PageResult(title: string, url: string, file: string)

  /** The name of the index file inside the output folder. */
  const INDEX_NAME: string := "index.md"

  /** The three header lines `generate_index` writes before the rows. */
  const HEADING: string := "# Documentation Index\n\n"
  const TABLE_HEAD: string := "| Title | Original URL | Local File |\n"
  const TABLE_RULE: string := "|-------|--------------|------------|\n"
  const INDEX_HEADER: string := HEADING + TABLE_HEAD + TABLE_RULE

  /** `a < b` on Python strings. */
  predicate Less(a: string, b: string) {
    Below(a, b) && a != b
  }

  /** Puts `x` behind every entry whose title is not greater than its own. */
  function Insert(x: PageResult, s: seq<PageResult>): (r: seq<PageResult>)
    ensures multiset(r) == multiset(s) + multiset{x}
    decreases |s|
  {
    if s == [] then [x]
    else if Less(x.title, s[0].title) then [x] + s
    else
      assert s == [s[0]] + s[1..];
      [s[0]] + Insert(x, s[1..])
  }

  /** `sorted(results, key=lambda x: x['title'])`, as a stable insertion sort. */
  function SortByTitle(results: seq<PageResult>): (sorted: seq<PageResult>)
    ensures multiset(sorted) == multiset(results)
    decreases |results|
  {
    if results == [] then []
    else
      var front := results[..|results| - 1];
      var last := results[|results| - 1];
      assert results == front + [last];
      Insert(last, SortByTitle(front))
  }

  /** Titles ascend. */
  ghost predicate TitleSorted(s: seq<PageResult>) {
    forall i, j :: 0 <= i < j < |s| ==> Below(s[i].title, s[j].title)
  }

  lemma {:induction false} InsertSorted(x: PageResult, s: seq<PageResult>)
    requires TitleSorted(s)
    ensures TitleSorted(Insert(x, s))
    decreases |s|
  {
    if s != [] {
      if Less(x.title, s[0].title) {
        forall j | 0 <= j < |s|
          ensures Below(x.title, s[j].title)
        {
          if j > 0 {
            BelowTransitive(x.title, s[0].title, s[j].title);
          }
        }
        SortedCons(x, s);
      } else {
        BelowTotal(x.title, s[0].title);
        InsertSorted(x, s[1..]);
        var tail := Insert(x, s[1..]);
        InsertAbove(x, s);
        SortedCons(s[0], tail);
        assert Insert(x, s) == [s[0]] + tail;
      }
    }
  }

  /** An entry not above any entry of a sorted list can head it. */
  lemma SortedCons(h: PageResult, s: seq<PageResult>)
    requires TitleSorted(s)
    requires forall j :: 0 <= j < |s| ==> Below(h.title, s[j].title)
    ensures TitleSorted([h] + s)
  {
    var r := [h] + s;
    forall i, j | 0 <= i < j < |r|
      ensures Below(r[i].title, r[j].title)
    {
      assert r[j] == s[j - 1];
      if i > 0 {
        assert r[i] == s[i - 1];
      }
    }
  }

  /** Inserting behind the head of a sorted list keeps the head below every entry. */
  lemma InsertAbove(x: PageResult, s: seq<PageResult>)
    requires TitleSorted(s) && s != [] && Below(s[0].title, x.title)
    ensures forall j :: 0 <= j < |Insert(x, s[1..])| ==> Below(s[0].title, Insert(x, s[1..])[j].title)
  {
    var tail := Insert(x, s[1..]);
    forall j | 0 <= j < |tail|
      ensures Below(s[0].title, tail[j].title)
    {
      assert tail[j] in multiset(tail);
      if tail[j] != x {
        assert tail[j] in multiset(s[1..]);
        var k :| 0 <= k < |s[1..]| && s[1..][k] == tail[j];
        assert s[k + 1] == tail[j];
      }
    }
  }

  /** The index lists the results in ascending title order. */
  lemma {:induction false} SortByTitleSorted(results: seq<PageResult>)
    ensures TitleSorted(SortByTitle(results))
    decreases |results|
  {
    if results != [] {
      var front := results[..|results| - 1];
      SortByTitleSorted(front);
      InsertSorted(results[|results| - 1], SortByTitle(front));
    }
  }

  /** The entries titled `t`, in order. */
  function WithTitle(s: seq<PageResult>, t: string): seq<PageResult>
    decreases |s|
  {
    if s == [] then []
    else (if s[0].title == t then [s[0]] else []) + WithTitle(s[1..], t)
  }

  lemma {:induction false} WithTitleAppend(a: seq<PageResult>, b: seq<PageResult>, t: string)
    ensures WithTitle(a + b, t) == WithTitle(a, t) + WithTitle(b, t)
    decreases |a|
  {
    if a == [] {
      assert a + b == b;
    } else {
      assert (a + b)[0] == a[0] && (a + b)[1..] == a[1..] + b;
      WithTitleAppend(a[1..], b, t);
      var h: seq<PageResult> := if a[0].title == t then [a[0]] else [];
      AppendAssoc(h, WithTitle(a[1..], t), WithTitle(b, t));
    }
  }

  /** No entry of a sorted list that starts above `t` is titled `t`. */
  lemma {:induction false} WithTitleAbove(s: seq<PageResult>, t: string)
    requires TitleSorted(s) && s != [] && Less(t, s[0].title)
    ensures WithTitle(s, t) == []
    decreases |s|
  {
    var k := 0;
    while k < |s|
      invariant 0 <= k <= |s|
      invariant forall j :: 0 <= j < k ==> s[j].title != t
    {
      if s[k].title == t {
        if k > 0 {
          BelowAntisymmetric(s[0].title, t);
        }
        assert false;
      }
      k := k + 1;
    }
    WithTitleNone(s, t);
  }

  lemma {:induction false} WithTitleNone(s: seq<PageResult>, t: string)
    requires forall j :: 0 <= j < |s| ==> s[j].title != t
    ensures WithTitle(s, t) == []
    decreases |s|
  {
    if s != [] {
      WithTitleNone(s[1..], t);
    }
  }

  /** Inserting puts the new entry behind every entry with the same title. */
  lemma {:induction false} InsertStable(x: PageResult, s: seq<PageResult>, t: string)
    requires TitleSorted(s)
    ensures WithTitle(Insert(x, s), t) == WithTitle(s, t) + (if x.title == t then [x] else [])
    decreases |s|
  {
    if s == [] {
      assert Insert(x, s) == [x];
      assert WithTitle([x], t) == (if x.title == t then [x] else []) + WithTitle([], t);
    } else if Less(x.title, s[0].title) {
      InsertStableFront(x, s, t);
    } else {
      assert TitleSorted(s[1..]);
      InsertStable(x, s[1..], t);
      InsertStableBehind(x, s, t);
    }
  }

  lemma InsertStableFront(x: PageResult, s: seq<PageResult>, t: string)
    requires TitleSorted(s) && s != [] && Less(x.title, s[0].title)
    ensures WithTitle(Insert(x, s), t) == WithTitle(s, t) + (if x.title == t then [x] else [])
  {
    assert Insert(x, s) == [x] + s;
    assert ([x] + s)[1..] == s;
    assert WithTitle([x] + s, t) == (if x.title == t then [x] else []) + WithTitle(s, t);
    if x.title == t {
      WithTitleAbove(s, t);
    }
  }

  lemma InsertStableBehind(x: PageResult, s: seq<PageResult>, t: string)
    requires s != [] && !Less(x.title, s[0].title)
    requires WithTitle(Insert(x, s[1..]), t) == WithTitle(s[1..], t) + (if x.title == t then [x] else [])
    ensures WithTitle(Insert(x, s), t) == WithTitle(s, t) + (if x.title == t then [x] else [])
  {
    var r := Insert(x, s);
    var tail := Insert(x, s[1..]);
    var t0: seq<PageResult> := if s[0].title == t then [s[0]] else [];
    var tx: seq<PageResult> := if x.title == t then [x] else [];
    assert r == [s[0]] + tail;
    assert r[0] == s[0] && r[1..] == tail;
    assert WithTitle(r, t) == t0 + WithTitle(tail, t);
    assert WithTitle(s, t) == t0 + WithTitle(s[1..], t);
    AppendAssoc(t0, WithTitle(s[1..], t), tx);
  }

  /** Stability: the entries sharing a title keep the order they were collected in. */
  lemma {:induction false} SortByTitleStable(results: seq<PageResult>, t: string)
    ensures WithTitle(SortByTitle(results), t) == WithTitle(results, t)
    decreases |results|
  {
    if results != [] {
      var front := results[..|results| - 1];
      var last := results[|results| - 1];
      var sortedFront := SortByTitle(front);
      assert SortByTitle(results) == Insert(last, sortedFront);
      SortByTitleStable(front, t);
      SortByTitleSorted(front);
      InsertStable(last, sortedFront, t);
      assert WithTitle([last], t) == (if last.title == t then [last] else []) + WithTitle([], t);
      WithTitleAppend(front, [last], t);
      LastSplit(results);
    }
  }

  /** A markdown link whose label and target are both `x`: `[x](x)`. */
  function Link(x: string): string {
    "[" + x + "]" + "(" + x + ")"
  }

  /** One table row: `| title | [url](url) | [file](file) |`. */
  function Row(r: PageResult): string {
    "| " + r.title + " | " + Link(r.url) + " | " + Link(r.file) + " |\n"
  }

  /** The rows of `s`, one after the other. */
  function Rows(s: seq<PageResult>): string
    decreases |s|
  {
    if s == [] then "" else Row(s[0]) + Rows(s[1..])
  }

  lemma {:induction false} RowsSnoc(s: seq<PageResult>, r: PageResult)
    ensures Rows(s + [r]) == Rows(s) + Row(r)
    decreases |s|
  {
    if s == [] {
      assert Rows([r]) == Row(r) + Rows([]);
    } else {
      assert (s + [r])[1..] == s[1..] + [r];
      RowsSnoc(s[1..], r);
    }
  }

  /** The rows of a prefix one longer end in the row of the next entry. */
  lemma RowsStep(s: seq<PageResult>, i: nat)
    requires i < |s|
    ensures Rows(s[..i + 1]) == Rows(s[..i]) + Row(s[i])
  {
    RowsSnoc(s[..i], s[i]);
    assert s[..i + 1] == s[..i] + [s[i]];
  }

  /** The text of `index.md`: the header, then the results sorted by title. */
  function IndexText(results: seq<PageResult>): (text: string)
    ensures StartsWith(text, INDEX_HEADER)
  {
    INDEX_HEADER + Rows(SortByTitle(results))
  }

  /** The `file` of each entry, in order. */
  function Files(s: seq<PageResult>): (files: seq<string>)
    ensures |files| == |s|
    ensures forall k :: 0 <= k < |s| ==> files[k] == s[k].file
  {
    seq(|s|, k requires 0 <= k < |s| => s[k].file)
  }
}
