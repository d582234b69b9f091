/**
 * The crawler and the exporter meet at `index.md`: the crawler writes one table row
 * per page with a `[file](file)` link, and the exporter reads the pages back in the
 * order of those links. This module proves that the exporter recovers the crawler's
 * title order when the entries are plain enough for the link pattern.
 */
module RoundTrip {
  import opened Wrappers
  import opened Text
  import opened Export
  import opened IndexFile

  /**
   * An entry whose row the link pattern reads as exactly one link, to its file: the
   * title and URL hold no `[`, the URL is no `.md` link itself and holds no `]`, and
   * the file name holds no `]` or `)` and ends in `.md` after at least one character.
   */
  predicate Linkable(r: PageResult) {
    && '[' !in r.title
    && '[' !in r.url && ']' !in r.url
    && !(|r.url| >= 4 && EndsWith(r.url, MD_SUFFIX))
    && ']' !in r.file && ')' !in r.file
    && |r.file| >= 4 && EndsWith(r.file, MD_SUFFIX)
  }

  /** Text without `[` is skipped by the scan. */
  lemma {:induction false} SkipPlain(a: string, b: string)
    requires '[' !in a
    ensures FindRefs(a + b) == FindRefs(b)
    decreases |a|
  {
    if a == [] {
      assert a + b == b;
    } else {
      assert a[0] in a;
      assert (a + b)[0] == a[0] != '[';
      assert MatchRef(a + b) == None;
      assert FindRefs(a + b) == FindRefs((a + b)[1..]);
      assert (a + b)[1..] == a[1..] + b;
      assert forall x :: x in a[1..] ==> x in a;
      SkipPlain(a[1..], b);
    }
  }

  /** A link followed by more text, with the concatenations grouped to the right. */
  lemma LinkNested(x: string, rest: string)
    ensures Link(x) + rest == "[" + (x + ("]" + ("(" + (x + (")" + rest)))))
  {
    calc {
      Link(x) + rest;
      { AppendAssoc("[" + x + "]" + "(" + x, ")", rest); }
      ("[" + x + "]" + "(" + x) + (")" + rest);
      { AppendAssoc("[" + x + "]" + "(", x, ")" + rest); }
      ("[" + x + "]" + "(") + (x + (")" + rest));
      { AppendAssoc("[" + x + "]", "(", x + (")" + rest)); }
      ("[" + x + "]") + ("(" + (x + (")" + rest)));
      { AppendAssoc("[" + x, "]", "(" + (x + (")" + rest))); }
      ("[" + x) + ("]" + ("(" + (x + (")" + rest))));
      { AppendAssoc("[", x, "]" + ("(" + (x + (")" + rest)))); }
      "[" + (x + ("]" + ("(" + (x + (")" + rest)))));
    }
  }

  /** A row followed by more text, with the concatenations grouped to the right. */
  lemma RowNested(r: PageResult, rest: string)
    ensures Row(r) + rest
      == "| " + (r.title + (" | " + (Link(r.url) + (" | " + (Link(r.file) + (" |\n" + rest))))))
  {
    var t, u, f := r.title, Link(r.url), Link(r.file);
    calc {
      Row(r) + rest;
      { AppendAssoc("| " + t + " | " + u + " | " + f, " |\n", rest); }
      ("| " + t + " | " + u + " | " + f) + (" |\n" + rest);
      { AppendAssoc("| " + t + " | " + u + " | ", f, " |\n" + rest); }
      ("| " + t + " | " + u + " | ") + (f + (" |\n" + rest));
      { AppendAssoc("| " + t + " | " + u, " | ", f + (" |\n" + rest)); }
      ("| " + t + " | " + u) + (" | " + (f + (" |\n" + rest)));
      { AppendAssoc("| " + t + " | ", u, " | " + (f + (" |\n" + rest))); }
      ("| " + t + " | ") + (u + (" | " + (f + (" |\n" + rest))));
      { AppendAssoc("| " + t, " | ", u + (" | " + (f + (" |\n" + rest)))); }
      ("| " + t) + (" | " + (u + (" | " + (f + (" |\n" + rest)))));
      { AppendAssoc("| ", t, " | " + (u + (" | " + (f + (" |\n" + rest))))); }
      "| " + (t + (" | " + (u + (" | " + (f + (" |\n" + rest))))));
    }
  }

  /** The `[url](url)` link is skipped whole: its label is not a `.md` name. */
  lemma UrlLinkSkipped(url: string, rest: string)
    requires '[' !in url && ']' !in url && !(|url| >= 4 && EndsWith(url, MD_SUFFIX))
    ensures FindRefs(Link(url) + rest) == FindRefs(rest)
  {
    LinkNested(url, rest);
    var w := "(" + (url + (")" + rest));
    var t := "[" + (url + ("]" + w));
    assert t[1..] == url + ("]" + w);
    IndexOfAt(url, "]" + w, ']');
    assert t[1..|url| + 1] == url;
    MatchRefNotMd(t, |url|);
    calc {
      FindRefs(t);
      FindRefs(url + ("]" + w));
      { SkipPlain(url, "]" + w); }
      FindRefs("]" + w);
      { SkipPlain("]", w); }
      FindRefs(w);
      { SkipPlain("(", url + (")" + rest)); }
      FindRefs(url + (")" + rest));
      { SkipPlain(url, ")" + rest); }
      FindRefs(")" + rest);
      { SkipPlain(")", rest); }
      FindRefs(rest);
    }
  }

  /** The pattern does not match where the bracketed label is not a `.md` name. */
  lemma MatchRefNotMd(t: string, j: nat)
    requires t != [] && t[0] == '['
    requires IndexOf(t[1..], ']') == Some(j)
    requires !IsMdName(t[1..j + 1])
    ensures MatchRef(t) == None
  {
  }

  /** The `[file](file)` link is one match, to `file`, and the scan resumes behind it. */
  lemma FileLinkMatch(file: string, rest: string)
    requires ']' !in file && ')' !in file && |file| >= 4 && EndsWith(file, MD_SUFFIX)
    ensures FindRefs(Link(file) + rest) == [file] + FindRefs(rest)
  {
    LinkNested(file, rest);
    var t := "[" + (file + ("]" + ("(" + (file + (")" + rest)))));
    MatchRefLink(t, file, file, rest);
    assert t[|file| + |file| + 4..] == rest;
  }

  /** A row contributes the link to its file and nothing else. */
  lemma RowRefs(r: PageResult, rest: string)
    requires Linkable(r)
    ensures FindRefs(Row(r) + rest) == [r.file] + FindRefs(rest)
  {
    RowNested(r, rest);
    var y4 := " | " + (Link(r.file) + (" |\n" + rest));
    var y2 := " | " + (Link(r.url) + y4);
    calc {
      FindRefs(Row(r) + rest);
      FindRefs("| " + (r.title + y2));
      { SkipPlain("| ", r.title + y2); }
      FindRefs(r.title + y2);
      { SkipPlain(r.title, y2); }
      FindRefs(y2);
      { SkipPlain(" | ", Link(r.url) + y4); }
      FindRefs(Link(r.url) + y4);
      { UrlLinkSkipped(r.url, y4); }
      FindRefs(y4);
      { SkipPlain(" | ", Link(r.file) + (" |\n" + rest)); }
      FindRefs(Link(r.file) + (" |\n" + rest));
      { FileLinkMatch(r.file, " |\n" + rest); }
      [r.file] + FindRefs(" |\n" + rest);
      { SkipPlain(" |\n", rest); }
      [r.file] + FindRefs(rest);
    }
  }

  /** The rows contribute their files' links, in row order. */
  lemma {:induction false} RowsRefs(s: seq<PageResult>)
    requires forall k :: 0 <= k < |s| ==> Linkable(s[k])
    ensures FindRefs(Rows(s)) == Files(s)
    decreases |s|
  {
    if s == [] {
      assert FindRefs("") == [];
    } else {
      RowsRefs(s[1..]);
      RowRefs(s[0], Rows(s[1..]));
      assert Files(s) == [s[0].file] + Files(s[1..]);
    }
  }

  lemma HeaderPlain()
    ensures '[' !in INDEX_HEADER
  {
    assert '[' !in HEADING;
    assert '[' !in TABLE_HEAD;
    assert '[' !in TABLE_RULE;
  }

  /** The links of the index text are the files of the results in title order. */
  lemma IndexTextRefs(results: seq<PageResult>)
    requires forall r :: r in results ==> Linkable(r)
    ensures FindRefs(IndexText(results)) == Files(SortByTitle(results))
  {
    var sorted := SortByTitle(results);
    forall k | 0 <= k < |sorted|
      ensures Linkable(sorted[k])
    {
      assert sorted[k] in multiset(results);
    }
    RowsRefs(sorted);
    HeaderPlain();
    SkipPlain(INDEX_HEADER, Rows(sorted));
  }

  /** Names that all exist and are not the index are all listed, in order. */
  lemma {:induction false} ListedAll(refs: seq<string>, fs: Dir)
    requires forall k :: 0 <= k < |refs| ==> refs[k] in fs && refs[k] != INDEX_FILE
    ensures Listed(refs, fs) == refs
    decreases |refs|
  {
    if refs != [] {
      var front := refs[..|refs| - 1];
      ListedAll(front, fs);
      LastSplit(refs);
    }
  }

  /**
   * A folder whose `index.md` is the crawler's index text for at least one linkable
   * result is exported in the crawler's title order, skipping the files that are
   * missing and the index itself.
   */
  lemma ExportFollowsIndex(fs: Dir, results: seq<PageResult>)
    requires results != []
    requires forall r :: r in results ==> Linkable(r)
    requires INDEX_FILE in fs && fs[INDEX_FILE] == Some(IndexText(results))
    ensures PageOrder(fs) == Listed(Files(SortByTitle(results)), fs)
  {
    IndexTextRefs(results);
    var sorted := SortByTitle(results);
    assert |sorted| == |results| by {
      assert |multiset(sorted)| == |multiset(results)|;
    }
    assert IndexRefs(fs) == Some(Files(sorted));
    PageOrderFromIndex(fs);
  }

  /**
   * When every crawled file is still in the folder and none is the index, the export
   * order is exactly the crawler's title order.
   */
  lemma ExportOrderIsTitleOrder(fs: Dir, results: seq<PageResult>)
    requires results != []
    requires forall r :: r in results ==> Linkable(r)
    requires forall r :: r in results ==> r.file in fs && r.file != INDEX_FILE
    requires INDEX_FILE in fs && fs[INDEX_FILE] == Some(IndexText(results))
    ensures PageOrder(fs) == Files(SortByTitle(results))
  {
    ExportFollowsIndex(fs, results);
    SortedFilesPresent(fs, results);
    ListedAll(Files(SortByTitle(results)), fs);
  }

  /** Sorting keeps the entries, so every sorted file is still present. */
  lemma SortedFilesPresent(fs: Dir, results: seq<PageResult>)
    requires forall r :: r in results ==> r.file in fs && r.file != INDEX_FILE
    ensures var files := Files(SortByTitle(results));
      forall k :: 0 <= k < |files| ==> files[k] in fs && files[k] != INDEX_FILE
  {
    var sorted := SortByTitle(results);
    forall k | 0 <= k < |sorted|
      ensures sorted[k].file in fs && sorted[k].file != INDEX_FILE
    {
      assert sorted[k] in multiset(results);
    }
  }

  /** An index without results links nothing, so the export falls back to alphabetical order. */
  lemma EmptyIndexIsAlphabetical(fs: Dir)
    requires INDEX_FILE in fs && fs[INDEX_FILE] == Some(IndexText([]))
    ensures PageOrder(fs) == Alphabetical(fs)
  {
    assert IndexText([]) == INDEX_HEADER;
    HeaderPlain();
    PageOrderBracketFree(fs);
  }
}
