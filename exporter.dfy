/**
 * Export of a crawled output folder: the reading order of its markdown pages (taken
 * from the links in `index.md`, or alphabetical), the merge of those pages into one
 * document, and the output paths of the merged markdown and PDF files.
 *
 * The folder is a map from entry name to content; an entry whose content is None
 * exists but cannot be read as text (a sub-directory, a permission error, bad UTF-8).
 */
module Export {
  import opened Wrappers
  import opened Text

  type Dir = map<string, Option<string>>

  const INDEX_FILE: string := "index.md"
  const MD_SUFFIX: string := ".md"
  const PDF_SUFFIX: string := ".pdf"
  /** The default names of the merged outputs. */
  const MERGED_MD: string := "merged.md"
  const MERGED_PDF: string := "merged.pdf"
  /** What `merge` puts between two pages. */
  const SEPARATOR: string := "\n\n---\n\n"

  datatype ExportError =
    | NoMarkdownFiles(message: string)
    | MissingDependency(message: string)

  /** A file the exporter writes: where, and what. */
  datatype Written = Written(path: string, content: string)

  /* ---------- the link pattern of index.md ---------- */

  /** What `[^\]]+\.md` and `[^\)]+\.md` both demand: at least one character, then `.md`. */
  predicate IsMdName(s: string) {
    |s| >= 4 && EndsWith(s, MD_SUFFIX)
  }

  /**
   * The pattern `\[([^\]]+\.md)\]\([^\)]+\.md\)` tried at the start of `t`. Its
   * character classes exclude the delimiter that follows them, so a match is
   * determined: the name runs to the first `]`, the target to the first `)`, and
   * each must be a `.md` name. Gives the captured name and the length of the match.
   */
  function MatchRef(t: string): (m: Option<(string, nat)>)
    ensures m.Some? ==> 0 < m.value.1 <= |t|
    ensures m.Some? ==> var name := m.value.0;
      IsMdName(name) && ']' !in name && |name| + 2 <= |t|
  {
    if t == [] || t[0] != '[' then None
    else
      match IndexOf(t[1..], ']')
      case None => None
      case Some(j) =>
        var name := t[1..j + 1];
        assert name == t[1..][..j];
        if !IsMdName(name) then None
        else
          match MatchTarget(t[j + 2..])
          case None => None
          case Some(n) => Some((name, j + 2 + n))
  }

  /** The `\([^\)]+\.md\)` part, tried at the start of `t`: the length it spans. */
  function MatchTarget(t: string): (n: Option<nat>)
    ensures n.Some? ==> 6 <= n.value <= |t| && t[0] == '(' && t[n.value - 1] == ')'
    ensures n.Some? ==> var target := t[1..n.value - 1]; IsMdName(target) && ')' !in target
  {
    if t == [] || t[0] != '(' then None
    else
      match IndexOf(t[1..], ')')
      case None => None
      case Some(k) =>
        assert t[1..k + 1] == t[1..][..k];
        if IsMdName(t[1..k + 1]) then Some(k + 2) else None
  }

  /**
   * A match is `[label](target)` and nothing more: a `.md` label without `]` in
   * brackets, then a `.md` target without `)` in parentheses.
   */
  lemma MatchRefShape(t: string)
    ensures var m := MatchRef(t); m.Some? ==> var name := m.value.0; var n := m.value.1;
      && IsMdName(name) && ']' !in name
      && |name| + 8 <= n <= |t|
      && t[0] == '[' && t[1..|name| + 1] == name && t[|name| + 1] == ']' && t[|name| + 2] == '('
      && t[n - 1] == ')'
      && var target := t[|name| + 3..n - 1];
         IsMdName(target) && ')' !in target
  {
    if MatchRef(t).Some? {
      var j := IndexOf(t[1..], ']').value;
      var m := MatchTarget(t[j + 2..]).value;
      assert MatchRef(t) == Some((t[1..j + 1], j + 2 + m));
      ShapeAt(t, j, m);
    }
  }

  /** The shape found by the two scans, stated at their positions. */
  lemma ShapeAt(t: string, j: nat, m: nat)
    requires t != [] && t[0] == '['
    requires IndexOf(t[1..], ']') == Some(j) && MatchTarget(t[j + 2..]) == Some(m)
    ensures j + 2 + m <= |t| && |t[1..j + 1]| == j && ']' !in t[1..j + 1]
    ensures t[j + 1] == ']' && t[j + 2] == '(' && t[j + 2 + m - 1] == ')'
    ensures var target := t[j + 3..j + 2 + m - 1]; IsMdName(target) && ')' !in target
  {
    var rest := t[j + 2..];
    assert t[1..j + 1] == t[1..][..j];
    assert t[j + 1] == t[1..][j];
    assert t[j + 2] == rest[0];
    assert t[j + 2 + m - 1] == rest[m - 1];
    assert t[j + 3..j + 2 + m - 1] == rest[1..m - 1];
  }

  /**
   * Conversely, a `.md` label without `]` in brackets, followed by a `.md` target
   * without `)` in parentheses, is a match of exactly that length.
   */
  lemma MatchRefLink(t: string, name: string, target: string, rest: string)
    requires t == "[" + (name + ("]" + ("(" + (target + (")" + rest)))))
    requires ']' !in name && IsMdName(name)
    requires ')' !in target && IsMdName(target)
    ensures MatchRef(t) == Some((name, |name| + |target| + 4))
  {
    var w := "(" + (target + (")" + rest));
    DelimitedAt(t, '[', name, ']', w);
    DelimitedAt(w, '(', target, ')', rest);
    TargetFound(w, target);
    LabelFound(t, name, target);
  }

  /** The label scan of MatchRef, stated by what it finds. */
  lemma LabelFound(t: string, name: string, target: string)
    requires t != [] && t[0] == '['
    requires IndexOf(t[1..], ']') == Some(|name|) && t[1..|name| + 1] == name && IsMdName(name)
    requires MatchTarget(t[|name| + 2..]) == Some(|target| + 2)
    ensures MatchRef(t) == Some((name, |name| + |target| + 4))
  {
    assert name == t[1..][..|name|];
  }

  /** The target scan of MatchRef, stated by what it finds. */
  lemma TargetFound(t: string, target: string)
    requires t != [] && t[0] == '('
    requires IndexOf(t[1..], ')') == Some(|target|) && t[1..|target| + 1] == target && IsMdName(target)
    ensures MatchTarget(t) == Some(|target| + 2)
  {
  }

  /** In `open x close rest` with no `close` inside `x`, the first `close` ends `x`. */
  lemma DelimitedAt(t: string, open: char, x: string, close: char, rest: string)
    requires t == [open] + (x + ([close] + rest)) && close !in x
    ensures t != [] && t[0] == open && IndexOf(t[1..], close) == Some(|x|)
    ensures t[1..|x| + 1] == x && t[|x| + 2..] == rest
  {
    assert t[1..] == x + ([close] + rest);
    IndexOfAt(x, [close] + rest, close);
  }

  /**
   * `re.findall` of the link pattern: the captured labels, left to right. After a
   * match the scan resumes behind it, otherwise one character further on.
   */
  function FindRefs(t: string): (refs: seq<string>)
    ensures forall k :: 0 <= k < |refs| ==> IsMdName(refs[k]) && ']' !in refs[k]
    decreases |t|
  {
    if t == [] then []
    else
      match MatchRef(t)
      case Some((name, n)) => [name] + FindRefs(t[n..])
      case None => FindRefs(t[1..])
  }

  /** A text without `[` holds no link. */
  lemma {:induction false} FindRefsNoBracket(t: string)
    requires '[' !in t
    ensures FindRefs(t) == []
    decreases |t|
  {
    if t != [] {
      assert t[0] in t;
      assert forall x :: x in t[1..] ==> x in t;
      FindRefsNoBracket(t[1..]);
    }
  }

  /* ---------- alphabetical order ---------- */

  /** `m` is the first of `s` in string order. */
  predicate IsLeast(m: string, s: set<string>) {
    m in s && forall x :: x in s ==> Below(m, x)
  }

  lemma {:induction false} LeastExists(s: set<string>)
    requires s != {}
    ensures exists m :: IsLeast(m, s)
    decreases |s|
  {
    var y :| y in s;
    BelowTotal(y, y);
    if s == {y} {
      assert IsLeast(y, s);
    } else {
      LeastExists(s - {y});
      var m :| IsLeast(m, s - {y});
      BelowTotal(m, y);
      if Below(m, y) {
        assert IsLeast(m, s);
      } else {
        forall x | x in s
          ensures Below(y, x)
        {
          if x != y {
            BelowTransitive(y, m, x);
          }
        }
        assert IsLeast(y, s);
      }
    }
  }

  lemma LeastUnique(s: set<string>)
    ensures forall m, m' :: IsLeast(m, s) && IsLeast(m', s) ==> m == m'
  {
    forall m, m' | IsLeast(m, s) && IsLeast(m', s)
      ensures m == m'
    {
      BelowAntisymmetric(m, m');
    }
  }

  /** Ascending in string order, without repeats. */
  ghost predicate StrictlySorted(r: seq<string>) {
    forall i, j :: 0 <= i < j < |r| ==> Below(r[i], r[j]) && r[i] != r[j]
  }

  /** `sorted(names)`: the names of a directory listing in ascending string order. */
  function SortedNames(names: set<string>): (r: seq<string>)
    ensures |r| == |names|
    ensures forall x :: x in r <==> x in names
    ensures StrictlySorted(r)
    decreases |names|
  {
    if names == {} then []
    else
      LeastExists(names);
      LeastUnique(names);
      var m :| IsLeast(m, names);
      [m] + SortedNames(names - {m})
  }

  /** What the alphabetical fallback keeps: markdown files other than the index. */
  predicate IsPage(name: string) {
    EndsWith(name, MD_SUFFIX) && name != INDEX_FILE
  }

  /** The names of `names` that are pages, in their order. */
  function Pages(names: seq<string>): (r: seq<string>)
    ensures |r| <= |names|
    ensures forall x :: x in r <==> x in names && IsPage(x)
    decreases |names|
  {
    if names == [] then []
    else
      var last := names[|names| - 1];
      var front := names[..|names| - 1];
      assert names == front + [last];
      Pages(front) + (if IsPage(last) then [last] else [])
  }

  /** One more name of the listing is kept exactly when it is a page. */
  lemma PagesStep(names: seq<string>, i: nat)
    requires i < |names|
    ensures IsPage(names[i]) ==> Pages(names[..i + 1]) == Pages(names[..i]) + [names[i]]
    ensures !IsPage(names[i]) ==> Pages(names[..i + 1]) == Pages(names[..i])
  {
    assert names[..i + 1][..i] == names[..i];
  }

  /** Filtering keeps a listing sorted. */
  lemma {:induction false} PagesSorted(names: seq<string>)
    requires StrictlySorted(names)
    ensures StrictlySorted(Pages(names))
    decreases |names|
  {
    if names != [] {
      var last := names[|names| - 1];
      var front := names[..|names| - 1];
      assert StrictlySorted(front);
      PagesSorted(front);
      forall x | x in Pages(front)
        ensures Below(x, last) && x != last
      {
        var k :| 0 <= k < |front| && front[k] == x;
        assert names[k] == x;
      }
    }
  }

  /**
   * `_get_alphabetical_order`: every markdown file of the folder except the index,
   * each once, in ascending string order.
   */
  function Alphabetical(fs: Dir): (order: seq<string>)
    ensures forall x :: x in order <==> x in fs && IsPage(x)
    ensures StrictlySorted(order)
  {
    PagesSorted(SortedNames(fs.Keys));
    Pages(SortedNames(fs.Keys))
  }

  /**
   * The fallback order is the page filter applied to the sorted listing. This only
   * exposes `Alphabetical`'s definition to `Exporter.AlphabeticalOrder`, whose loop
   * builds the filtered list.
   */
  lemma AlphabeticalIsFiltered(fs: Dir)
    ensures Alphabetical(fs) == Pages(SortedNames(fs.Keys))
  {
  }

  /* ---------- page order ---------- */

  /** The labels of `refs` that name an existing entry other than the index, in order. */
  function Listed(refs: seq<string>, fs: Dir): (r: seq<string>)
    ensures |r| <= |refs|
    ensures forall x :: x in r <==> x in refs && x in fs && x != INDEX_FILE
    ensures forall x :: multiset(r)[x] == if x != INDEX_FILE && x in fs then multiset(refs)[x] else 0
    decreases |refs|
  {
    if refs == [] then []
    else
      var last := refs[|refs| - 1];
      var front := refs[..|refs| - 1];
      assert refs == front + [last];
      Listed(front, fs) + (if last != INDEX_FILE && last in fs then [last] else [])
  }

  /** One more link is kept exactly when it names an existing entry other than the index. */
  lemma ListedStep(refs: seq<string>, i: nat, fs: Dir)
    requires i < |refs|
    ensures refs[i] != INDEX_FILE && refs[i] in fs ==> Listed(refs[..i + 1], fs) == Listed(refs[..i], fs) + [refs[i]]
    ensures !(refs[i] != INDEX_FILE && refs[i] in fs) ==> Listed(refs[..i + 1], fs) == Listed(refs[..i], fs)
  {
    assert refs[..i + 1][..i] == refs[..i];
  }

  /** Filtering the links of two runs of text is filtering each run, in order. */
  lemma {:induction false} ListedAppend(a: seq<string>, b: seq<string>, fs: Dir)
    ensures Listed(a + b, fs) == Listed(a, fs) + Listed(b, fs)
    decreases |b|
  {
    if b == [] {
      assert a + b == a;
      assert Listed(b, fs) == [];
    } else {
      ListedAppend(a, b[..|b| - 1], fs);
      ListedAppendStep(a, b, fs);
    }
  }

  /** The step of ListedAppend: one more link at the end of `b`. */
  lemma ListedAppendStep(a: seq<string>, b: seq<string>, fs: Dir)
    requires b != []
    requires Listed(a + b[..|b| - 1], fs) == Listed(a, fs) + Listed(b[..|b| - 1], fs)
    ensures Listed(a + b, fs) == Listed(a, fs) + Listed(b, fs)
  {
    var last := b[|b| - 1];
    var tail := if last != INDEX_FILE && last in fs then [last] else [];
    AppendDropLast(a, b);
    ListedSnoc(a + b, fs);
    ListedSnoc(b, fs);
    AppendAssoc(Listed(a, fs), Listed(b[..|b| - 1], fs), tail);
  }

  /** The last link is kept exactly when it names an existing entry other than the index. */
  lemma ListedSnoc(refs: seq<string>, fs: Dir)
    requires refs != []
    ensures var last := refs[|refs| - 1];
      Listed(refs, fs) == Listed(refs[..|refs| - 1], fs) + (if last != INDEX_FILE && last in fs then [last] else [])
  {
  }

  /** The links of a readable `index.md`; None when it is missing or unreadable. */
  function IndexRefs(fs: Dir): (refs: Option<seq<string>>)
    ensures refs.Some? <==> INDEX_FILE in fs && fs[INDEX_FILE].Some?
  {
    if INDEX_FILE in fs && fs[INDEX_FILE].Some? then Some(FindRefs(fs[INDEX_FILE].value)) else None
  }

  /**
   * `get_page_order`: the order `index.md` links the pages in, when it can be read
   * and links at least one `.md` file; the alphabetical order otherwise. Either way
   * every name is an existing markdown file other than the index.
   */
  function PageOrder(fs: Dir): (order: seq<string>)
    ensures forall x :: x in order ==> x in fs && EndsWith(x, MD_SUFFIX) && x != INDEX_FILE
  {
    var refs := IndexRefs(fs);
    if refs.None? || refs.value == [] then Alphabetical(fs) else Listed(refs.value, fs)
  }

  /** Without a usable index the order is exactly the alphabetical list of pages. */
  lemma PageOrderWithoutIndex(fs: Dir)
    requires IndexRefs(fs).None? || IndexRefs(fs).value == []
    ensures PageOrder(fs) == Alphabetical(fs)
    ensures forall x :: x in PageOrder(fs) <==> x in fs && IsPage(x)
  {
  }

  /** An index without any `[` links nothing, so the order falls back to alphabetical. */
  lemma PageOrderBracketFree(fs: Dir)
    requires INDEX_FILE in fs && fs[INDEX_FILE].Some? && '[' !in fs[INDEX_FILE].value
    ensures IndexRefs(fs) == Some([])
    ensures PageOrder(fs) == Alphabetical(fs)
  {
    FindRefsNoBracket(fs[INDEX_FILE].value);
  }

  /**
   * With an index that links something, the order is the linked names that exist,
   * duplicates and all, in link order; unlisted files are left out.
   */
  lemma PageOrderFromIndex(fs: Dir)
    requires IndexRefs(fs).Some? && IndexRefs(fs).value != []
    ensures PageOrder(fs) == Listed(IndexRefs(fs).value, fs)
    ensures forall x :: x in PageOrder(fs) <==> x in IndexRefs(fs).value && x in fs && x != INDEX_FILE
  {
  }

  /* ---------- merge ---------- */

  /** The stripped texts of the pages of `order` that can be read, in order. */
  function Readable(order: seq<string>, fs: Dir): (texts: seq<string>)
    ensures |texts| <= |order|
    decreases |order|
  {
    if order == [] then []
    else
      var last := order[|order| - 1];
      var front := order[..|order| - 1];
      var texts := Readable(front, fs);
      if last in fs && fs[last].Some? then texts + [Strip(fs[last].value)] else texts
  }

  /** One more page contributes its stripped text exactly when it can be read. */
  lemma ReadableStep(order: seq<string>, i: nat, fs: Dir)
    requires i < |order|
    ensures order[i] in fs && fs[order[i]].Some?
      ==> Readable(order[..i + 1], fs) == Readable(order[..i], fs) + [Strip(fs[order[i]].value)]
    ensures !(order[i] in fs && fs[order[i]].Some?) ==> Readable(order[..i + 1], fs) == Readable(order[..i], fs)
  {
    assert order[..i + 1][..i] == order[..i];
  }

  /** One page gives its stripped text when it can be read, and nothing otherwise. */
  lemma ReadableOne(p: string, fs: Dir)
    ensures p in fs && fs[p].Some? ==> Readable([p], fs) == [Strip(fs[p].value)]
    ensures !(p in fs && fs[p].Some?) ==> Readable([p], fs) == []
  {
    assert [p][..0] == [];
  }

  /** Merging the pages of two runs reads each run, in order. */
  lemma {:induction false} ReadableAppend(a: seq<string>, b: seq<string>, fs: Dir)
    ensures Readable(a + b, fs) == Readable(a, fs) + Readable(b, fs)
    decreases |b|
  {
    if b == [] {
      assert a + b == a;
    } else {
      var front := b[..|b| - 1];
      var last := b[|b| - 1];
      assert (a + b)[..|a + b| - 1] == a + front;
      assert (a + b)[|a + b| - 1] == last;
      ReadableAppend(a, front, fs);
    }
  }

  /** Every page that can be read contributes its stripped text. */
  lemma {:induction false} ReadableAll(order: seq<string>, fs: Dir)
    requires forall x :: x in order ==> x in fs && fs[x].Some?
    ensures |Readable(order, fs)| == |order|
    ensures forall k :: 0 <= k < |order| ==> Readable(order, fs)[k] == Strip(fs[order[k]].value)
    decreases |order|
  {
    if order != [] {
      var front := order[..|order| - 1];
      FrontReadable(order, fs);
      ReadableAll(front, fs);
      SnocTexts(order, Readable(front, fs), fs);
    }
  }

  /** The pages before the last one, and the last one, are all readable. */
  lemma FrontReadable(order: seq<string>, fs: Dir)
    requires order != []
    requires forall x :: x in order ==> x in fs && fs[x].Some?
    ensures forall x :: x in order[..|order| - 1] ==> x in fs && fs[x].Some?
    ensures order[|order| - 1] in fs && fs[order[|order| - 1]].Some?
  {
    assert order[|order| - 1] in order;
  }

  /** Appending the last page's text to the front's texts keeps the texts aligned with the pages. */
  lemma SnocTexts(order: seq<string>, front: seq<string>, fs: Dir)
    requires forall x :: x in order ==> x in fs && fs[x].Some?
    requires order != [] && |front| == |order| - 1
    requires order[|order| - 1] in fs && fs[order[|order| - 1]].Some?
    requires front == Readable(order[..|order| - 1], fs)
    requires forall k :: 0 <= k < |front| ==> front[k] == Strip(fs[order[k]].value)
    ensures |Readable(order, fs)| == |order|
    ensures forall k :: 0 <= k < |order| ==> Readable(order, fs)[k] == Strip(fs[order[k]].value)
  {
    var texts := Readable(order, fs);
    var tail := Strip(fs[order[|order| - 1]].value);
    assert texts == front + [tail];
    forall k | 0 <= k < |order|
      ensures texts[k] == Strip(fs[order[k]].value)
    {
      if k < |front| {
        assert texts[k] == front[k];
      } else {
        assert texts[k] == tail;
      }
    }
  }

  /** The merged text of one page is that page's stripped text, without a separator. */
  lemma MergeOne(text: string)
    ensures Join([Strip(text)], SEPARATOR) == Strip(text)
  {
  }

  /** Merging two more pages' texts puts exactly one separator between them. */
  lemma MergeTwo(texts: seq<string>, a: string, b: string)
    requires texts != []
    ensures Join(texts + [a, b], SEPARATOR) == Join(texts, SEPARATOR) + SEPARATOR + a + SEPARATOR + b
  {
    JoinSnoc(texts, a, SEPARATOR);
    assert texts + [a, b] == (texts + [a]) + [b];
    JoinSnoc(texts + [a], b, SEPARATOR);
  }

  /**
   * One step of the merge loop: appending a page's text, preceded by the separator
   * when something came before, extends the join of the texts so far by that page.
   */
  lemma MergeStep(pieces: seq<string>, before: seq<string>, content: string)
    requires pieces == [] <==> before == []
    requires Join(pieces, "") == Join(before, SEPARATOR)
    ensures pieces != [] ==> Join(pieces + [SEPARATOR, content], "") == Join(before + [content], SEPARATOR)
    ensures pieces == [] ==> Join([content], "") == Join(before + [content], SEPARATOR)
  {
    if pieces != [] {
      JoinSnoc(pieces, SEPARATOR, "");
      JoinSnoc(pieces + [SEPARATOR], content, "");
      assert pieces + [SEPARATOR, content] == pieces + [SEPARATOR] + [content];
      JoinSnoc(before, content, SEPARATOR);
    } else {
      assert before + [content] == [content];
    }
  }

  /** The output of `export_merged_md`: `output_path` when given and non-empty. */
  function MergedMdPath(inputDir: string, outputPath: Option<string>): (path: string)
    ensures outputPath.Some? && outputPath.value != "" ==> path == outputPath.value
    ensures (outputPath.None? || outputPath.value == "") ==> path == PathJoin(inputDir, MERGED_MD)
    ensures (outputPath.None? || outputPath.value == "") ==> EndsWith(path, MERGED_MD)
  {
    if outputPath.Some? && outputPath.value != "" then outputPath.value else PathJoin(inputDir, MERGED_MD)
  }

  /**
   * `rsplit(".", 1)[0] + ".pdf"` unless the path already ends in `.pdf`: the text
   * after the last dot anywhere in the path is replaced, or `.pdf` is appended.
   */
  function ForcePdf(path: string): (r: string)
    ensures EndsWith(r, PDF_SUFFIX)
    ensures EndsWith(path, PDF_SUFFIX) ==> r == path
    ensures !EndsWith(path, PDF_SUFFIX) && '.' !in path ==> r == path + PDF_SUFFIX
    ensures !EndsWith(path, PDF_SUFFIX) && '.' in path ==>
      var i := LastIndexOf(path, '.').value;
      r == path[..i] + PDF_SUFFIX && path[i] == '.' && '.' !in path[i + 1..]
  {
    if EndsWith(path, PDF_SUFFIX) then path
    else
      match LastIndexOf(path, '.')
      case None => path + PDF_SUFFIX
      case Some(i) => path[..i] + PDF_SUFFIX
  }

  /** Forcing the extension twice is forcing it once. */
  lemma ForcePdfIdempotent(path: string)
    ensures ForcePdf(ForcePdf(path)) == ForcePdf(path)
  {
  }

  /** A markdown path keeps its stem: `out.md` becomes `out.pdf`. */
  lemma ForcePdfReplacesExtension(stem: string)
    requires '.' !in stem
    ensures ForcePdf(stem + MD_SUFFIX) == stem + PDF_SUFFIX
    ensures ForcePdf(stem) == stem + PDF_SUFFIX
  {
    var p := stem + MD_SUFFIX;
    assert p[|p| - 1] == 'd';
    assert p[..|p| - 1] == stem + ".m";
    assert (stem + ".m")[..|stem| + 1] == stem + ".";
    assert LastIndexOf(stem + ".", '.') == Some(|stem|);
    assert LastIndexOf(stem + ".m", '.') == Some(|stem|);
    assert LastIndexOf(p, '.') == Some(|stem|);
    assert p[..|stem|] == stem;
    if |stem| >= 4 {
      assert stem[|stem| - 4] in stem;
    }
  }

  /**
   * The last dot may sit in a directory name: an extensionless file in a dotted
   * directory loses the rest of its path.
   */
  lemma ForcePdfDottedDirectory()
    ensures ForcePdf("a.b/c") == "a.pdf"
  {
    var p := "a.b/c";
    assert p[..4] == "a.b/" && p[..3] == "a.b" && p[..2] == "a.";
    assert LastIndexOf("a.", '.') == Some(1);
    assert LastIndexOf("a.b", '.') == Some(1);
    assert LastIndexOf("a.b/", '.') == Some(1);
    assert LastIndexOf(p, '.') == Some(1);
  }

  /** The output of `export_pdf`: `output_path` or `merged.pdf`, forced to end in `.pdf`. */
  function PdfPath(inputDir: string, outputPath: Option<string>): (path: string)
    ensures EndsWith(path, PDF_SUFFIX)
    ensures outputPath.Some? && outputPath.value != "" ==> path == ForcePdf(outputPath.value)
    ensures (outputPath.None? || outputPath.value == "") ==> path == PathJoin(inputDir, MERGED_PDF)
  {
    var chosen := if outputPath.Some? && outputPath.value != "" then outputPath.value else PathJoin(inputDir, MERGED_PDF);
    assert (outputPath.None? || outputPath.value == "") ==> EndsWith(chosen, PDF_SUFFIX) by {
      if outputPath.None? || outputPath.value == "" {
        assert EndsWith(MERGED_PDF, PDF_SUFFIX);
        EndsWithTransitive(chosen, MERGED_PDF, PDF_SUFFIX);
      }
    }
    ForcePdf(chosen)
  }

  function NoFilesMessage(inputDir: string): string {
    "No markdown files found in " + inputDir
  }

  const MD2PDF_MESSAGE: string := "PDF export requires md2pdf. Install with: pip install docs-crawler[pdf]"

  /** The exporter of one crawled folder (`Exporter`). */
  class Exporter {
    const inputDir: string
    const outputPath: Option<string>

    /** `Exporter.__init__`. */
    constructor (inputDir: string, outputPath: Option<string>)
      ensures this.inputDir == inputDir && this.outputPath == outputPath
    {
      this.inputDir := inputDir;
      this.outputPath := outputPath;
    }

    /** `_get_alphabetical_order`: the sorted listing, filtered to the pages. */
    method AlphabeticalOrder(fs: Dir) returns (files: seq<string>)
      ensures files == Alphabetical(fs)
    {
      var names := SortedNames(fs.Keys);
      files := KeepPages(names);
      AlphabeticalIsFiltered(fs);
    }

    /** The loop of `_get_alphabetical_order`: keeps the `.md` names other than the index, in order. */
    static method KeepPages(names: seq<string>) returns (files: seq<string>)
      ensures files == Pages(names)
    {
      files := [];
      var i := 0;
      while i < |names|
        invariant 0 <= i <= |names|
        invariant files == Pages(names[..i])
      {
        PagesStep(names, i);
        var name := names[i];
        if EndsWith(name, MD_SUFFIX) && name != INDEX_FILE {
          files := files + [name];
        }
        i := i + 1;
      }
      PrefixAll(names);
    }

    /**
     * `get_page_order`: the index's links filtered to existing non-index entries, or
     * the alphabetical fallback when the index is missing, unreadable or links nothing.
     */
    method GetPageOrder(fs: Dir) returns (files: seq<string>)
      ensures files == PageOrder(fs)
      ensures forall x :: x in files ==> x in fs && EndsWith(x, MD_SUFFIX) && x != INDEX_FILE
    {
      if INDEX_FILE !in fs || fs[INDEX_FILE].None? {
        files := AlphabeticalOrder(fs);
        return;
      }
      var matches := FindRefs(fs[INDEX_FILE].value);
      if |matches| == 0 {
        files := AlphabeticalOrder(fs);
        return;
      }
      files := [];
      var i := 0;
      assert matches[..0] == [];
      assert Listed([], fs) == [];
      while i < |matches|
        invariant 0 <= i <= |matches|
        invariant files == Listed(matches[..i], fs)
      {
        ListedStep(matches, i, fs);
        var filename := matches[i];
        if filename != INDEX_FILE && filename in fs {
          files := files + [filename];
          assert files == Listed(matches[..i + 1], fs);
        } else {
          assert files == Listed(matches[..i + 1], fs);
        }
        i := i + 1;
      }
      assert matches[..|matches|] == matches;
    }

    /**
     * `merge`: fails exactly when there is no page to merge; otherwise the stripped
     * texts of the readable pages joined by the separator, unreadable pages skipped.
     */
    method Merge(fs: Dir) returns (merged: Result<string, ExportError>)
      ensures merged.Failure? <==> PageOrder(fs) == []
      ensures merged.Failure? ==> merged.error == NoMarkdownFiles(NoFilesMessage(inputDir))
      ensures merged.Success? ==> merged.value == Join(Readable(PageOrder(fs), fs), SEPARATOR)
    {
      var files := GetPageOrder(fs);
      if |files| == 0 {
        return Failure(NoMarkdownFiles(NoFilesMessage(inputDir)));
      }
      var pieces: seq<string> := [];
      var i := 0;
      while i < |files|
        invariant 0 <= i <= |files|
        invariant |pieces| == 0 <==> |Readable(files[..i], fs)| == 0
        invariant Join(pieces, "") == Join(Readable(files[..i], fs), SEPARATOR)
      {
        ReadableStep(files, i, fs);
        var filename := files[i];
        if filename in fs && fs[filename].Some? {
          var content := Strip(fs[filename].value);
          MergeStep(pieces, Readable(files[..i], fs), content);
          if pieces != [] {
            pieces := pieces + [SEPARATOR, content];
          } else {
            pieces := [content];
          }
        }
        i := i + 1;
      }
      assert files[..|files|] == files;
      merged := Success(Join(pieces, ""));
    }

    /** `export_merged_md`: writes the merge to `output_path` or `merged.md` in the folder. */
    method ExportMergedMd(fs: Dir) returns (result: Result<Written, ExportError>)
      ensures result.Failure? <==> PageOrder(fs) == []
      ensures result.Failure? ==> result.error == NoMarkdownFiles(NoFilesMessage(inputDir))
      ensures result.Success? ==> result.value.path == MergedMdPath(inputDir, outputPath)
      ensures result.Success? ==> result.value.content == Join(Readable(PageOrder(fs), fs), SEPARATOR)
    {
      var merged := Merge(fs);
      if merged.Failure? {
        return Failure(merged.error);
      }
      result := Success(Written(MergedMdPath(inputDir, outputPath), merged.value));
    }

    /**
     * `export_pdf`: needs the converter before anything else; then merges and writes
     * to a path that always ends in `.pdf`. The PDF rendering itself is a parameter
     * of the converter and not modelled: `content` is the markdown handed to it.
     */
    method ExportPdf(fs: Dir, converterAvailable: bool) returns (result: Result<Written, ExportError>)
      ensures !converterAvailable ==> result == Failure(MissingDependency(MD2PDF_MESSAGE))
      ensures converterAvailable ==> (result.Failure? <==> PageOrder(fs) == [])
      ensures converterAvailable && result.Failure? ==> result.error == NoMarkdownFiles(NoFilesMessage(inputDir))
      ensures result.Success? ==> EndsWith(result.value.path, PDF_SUFFIX)
      ensures result.Success? ==> result.value.path == PdfPath(inputDir, outputPath)
      ensures result.Success? ==> result.value.content == Join(Readable(PageOrder(fs), fs), SEPARATOR)
    {
      if !converterAvailable {
        return Failure(MissingDependency(MD2PDF_MESSAGE));
      }
      var merged := Merge(fs);
      if merged.Failure? {
        return Failure(merged.error);
      }
      result := Success(Written(PdfPath(inputDir, outputPath), merged.value));
    }
  }
}
