/**
 * The string-level rules of the crawler: the folder named after the site's domain,
 * the sitemap location and its `/docs/` filter, the file name of a page, the bounded
 * retry of a page fetch, the title, the choice of the content root and the clean-up
 * of the converted markdown. Parsing, rendering and the browser are parameters.
 */
module CrawlRules {
  import opened Wrappers
  import opened Text

  const MAX_RETRIES: nat := 3
  const DEFAULT_FOLDER: string := "default"
  const NO_TITLE: string := "No Title"
  const SITEMAP_PATH: string := "/sitemap.xml"
  const DOCS_MARKER: string := "/docs/"
  const MD_SUFFIX: string := ".md"
  /** The stem a page gets when its path is empty after stripping. */
  const INDEX_STEM: string := "index"
  /** A content root qualifies with more stripped-text characters than this. */
  const MIN_CONTENT_LENGTH: nat := 100
  /** The content selectors, tried in this order. */
  const CONTENT_SELECTORS: seq<string> :=
    ["article", "[role=\"main\"]", ".docs-content", ".content", ".markdown-body", "main", ".main-content"]

  /* ---------- folder, sitemap, file name ---------- */

  /**
   * `extract_subdomain` on the URL's hostname: the second-to-last dot-separated label,
   * the hostname itself when it has no dot, and `default` when there is no hostname
   * or it is empty. The result never contains a dot.
   */
  function ExtractSubdomain(hostname: Option<string>): (folder: string)
    ensures hostname.None? || hostname.value == "" ==> folder == DEFAULT_FOLDER
    ensures hostname.Some? && hostname.value != "" && '.' !in hostname.value ==> folder == hostname.value
    ensures '.' !in folder
  {
    if hostname.None? || hostname.value == "" then DEFAULT_FOLDER
    else
      var parts := Split(hostname.value, '.');
      assert '.' !in hostname.value ==> parts == [hostname.value] by {
        if '.' !in hostname.value {
          SplitNone(hostname.value, '.');
        }
      }
      if |parts| >= 2 then parts[|parts| - 2] else parts[0]
  }

  /** A hostname made of two or more labels gives its second-to-last label. */
  lemma ExtractSubdomainOfLabels(labels: seq<string>)
    requires |labels| >= 2
    requires forall k :: 0 <= k < |labels| ==> '.' !in labels[k]
    ensures ExtractSubdomain(Some(Join(labels, "."))) == labels[|labels| - 2]
  {
    var host := Join(labels, ".");
    SplitJoin(labels, '.');
    assert Split(host, '.') == labels;
    assert |Split(host, '.')| >= 2 && |Split("", '.')| == 1;
  }

  /**
   * The examples the folder rule is documented with, and a two-label public suffix,
   * where the rule names the suffix's first label rather than the site.
   */
  lemma ExtractSubdomainExamples()
    ensures ExtractSubdomain(Some("code.claude.com")) == "claude"
    ensures ExtractSubdomain(Some("antigravity.google")) == "antigravity"
    ensures ExtractSubdomain(Some("localhost")) == "localhost"
    ensures ExtractSubdomain(Some("bbc.co.uk")) == "co"
  {
    var labels := ["code", "claude", "com"];
    assert Join(labels[2..], ".") == "com";
    assert Join(labels[1..], ".") == "claude" + "." + "com";
    assert Join(labels, ".") == "code.claude.com";
    ExtractSubdomainOfLabels(labels);
    var google := ["antigravity", "google"];
    assert Join(google[1..], ".") == "google";
    assert Join(google, ".") == "antigravity.google";
    ExtractSubdomainOfLabels(google);
    var uk := ["bbc", "co", "uk"];
    assert Join(uk[2..], ".") == "uk";
    assert Join(uk[1..], ".") == "co" + "." + "uk";
    assert Join(uk, ".") == "bbc.co.uk";
    ExtractSubdomainOfLabels(uk);
    assert '.' !in "localhost";
  }

  /**
   * The sitemap location: the explicit URL when given and non-empty, else the base URL
   * followed by `/sitemap.xml` when that is non-empty, else none.
   */
  function SitemapUrlFor(baseUrl: Option<string>, sitemapUrl: Option<string>): (url: Option<string>)
    ensures sitemapUrl.Some? && sitemapUrl.value != "" ==> url == sitemapUrl
    ensures (sitemapUrl.None? || sitemapUrl.value == "") && baseUrl.Some? && baseUrl.value != ""
      ==> url == Some(baseUrl.value + SITEMAP_PATH)
    ensures url.None? <==> (sitemapUrl.None? || sitemapUrl.value == "") && (baseUrl.None? || baseUrl.value == "")
  {
    if sitemapUrl.Some? && sitemapUrl.value != "" then sitemapUrl
    else if baseUrl.Some? && baseUrl.value != "" then Some(baseUrl.value + SITEMAP_PATH)
    else None
  }

  /** The `<loc>` URLs whose path contains `/docs/`, in document order. */
  function DocsFilter(locs: seq<string>, pathOf: string -> string): (urls: seq<string>)
    ensures |urls| <= |locs|
    ensures forall u :: u in urls <==> u in locs && Contains(pathOf(u), DOCS_MARKER)
    decreases |locs|
  {
    if locs == [] then []
    else
      var last := locs[|locs| - 1];
      var front := locs[..|locs| - 1];
      assert locs == front + [last];
      DocsFilter(front, pathOf) + (if Contains(pathOf(last), DOCS_MARKER) then [last] else [])
  }

  /** The filter works piece by piece, so it keeps the document order. */
  lemma {:induction false} DocsFilterAppend(a: seq<string>, b: seq<string>, pathOf: string -> string)
    ensures DocsFilter(a + b, pathOf) == DocsFilter(a, pathOf) + DocsFilter(b, pathOf)
    decreases |b|
  {
    if b == [] {
      assert a + b == a;
    } else {
      var front := b[..|b| - 1];
      assert (a + b)[..|a + b| - 1] == a + front;
      assert (a + b)[|a + b| - 1] == b[|b| - 1];
      DocsFilterAppend(a, front, pathOf);
    }
  }

  /** `fetch_sitemap`: empty without a sitemap URL or when the fetch or parse fails. */
  function FetchSitemap(sitemapUrl: Option<string>, sitemap: string -> Option<seq<string>>, pathOf: string -> string): (urls: seq<string>)
    ensures sitemapUrl.None? || sitemapUrl.value == "" ==> urls == []
    ensures sitemapUrl.Some? && sitemapUrl.value != "" && sitemap(sitemapUrl.value).None? ==> urls == []
    ensures sitemapUrl.Some? && sitemapUrl.value != "" && sitemap(sitemapUrl.value).Some?
      ==> urls == DocsFilter(sitemap(sitemapUrl.value).value, pathOf)
    ensures sitemapUrl.Some? && sitemapUrl.value != "" && sitemap(sitemapUrl.value).Some?
      ==> forall u :: u in urls <==> u in sitemap(sitemapUrl.value).value && Contains(pathOf(u), DOCS_MARKER)
  {
    if sitemapUrl.None? || sitemapUrl.value == "" then []
    else
      match sitemap(sitemapUrl.value)
      case None => []
      case Some(locs) => DocsFilter(locs, pathOf)
  }

  /**
   * The file a page is saved to: its URL path without leading and trailing `/`, inner
   * `/` turned into `_`, `index` when nothing is left, and `.md` appended.
   */
  function FileNameFor(path: string): (name: string)
    ensures '/' !in name
    ensures EndsWith(name, MD_SUFFIX) && |name| >= 4
  {
    var slug := ReplaceChar(StripChar(path, '/'), '/', '_');
    var stem := if slug == "" then INDEX_STEM else slug;
    ReplaceCharRemoves(StripChar(path, '/'), '/', '_');
    stem + MD_SUFFIX
  }

  /** Any number of leading and trailing slashes leaves the file name as it is. */
  lemma FileNameIgnoresOuterSlashes(pre: string, path: string, post: string)
    requires forall k :: 0 <= k < |pre| ==> pre[k] == '/'
    requires forall k :: 0 <= k < |post| ==> post[k] == '/'
    requires path != [] ==> path[0] != '/' && path[|path| - 1] != '/'
    ensures FileNameFor(pre + path + post) == FileNameFor(path)
  {
    StripOuterSlashes(pre, path, post);
  }

  lemma StripOuterSlashes(pre: string, path: string, post: string)
    requires forall k :: 0 <= k < |pre| ==> pre[k] == '/'
    requires forall k :: 0 <= k < |post| ==> post[k] == '/'
    requires path != [] ==> path[0] != '/' && path[|path| - 1] != '/'
    ensures StripChar(pre + path + post, '/') == StripChar(path, '/') == path
  {
    assert pre + path + post == pre + (path + post);
    TrimLeftCharRun(pre, path + post, '/');
    if path == [] {
      assert path + post == post + [];
      TrimLeftCharRun(post, [], '/');
    } else {
      assert (path + post)[0] == path[0];
      TrimRightCharRun(path, post, '/');
    }
  }

  /** Slugging a path without `_` can be undone: the `_` are exactly the inner slashes. */
  lemma FileNameRecoversPath(path: string)
    requires path != [] && path[0] != '/' && path[|path| - 1] != '/' && '_' !in path
    ensures var name := FileNameFor(path);
      ReplaceChar(name[..|name| - |MD_SUFFIX|], '_', '/') == path
  {
    assert TrimLeftChar(path, '/') == path;
    assert StripChar(path, '/') == path;
    var slug := ReplaceChar(path, '/', '_');
    var name := slug + MD_SUFFIX;
    assert name[..|name| - |MD_SUFFIX|] == slug;
    ReplaceCharUndo(path, '/', '_');
  }

  /** Stripping the slashes off a slash-led segment gives the segment. */
  lemma StripSlashes(x: string)
    requires x != [] && x[0] != '/' && x[|x| - 1] != '/'
    ensures StripChar("/" + x, '/') == x
  {
    TrimLeftCharCons(x, '/');
    assert TrimLeftChar(x, '/') == x;
  }

  /**
   * Slugging is not one-to-one: a nested path and the underscored one share a file
   * (and so do the site root and `/index`, see FileNameOfRoot).
   */
  lemma FileNameCollision()
    ensures FileNameFor("/a/b") == FileNameFor("/a_b") == "a_b.md"
  {
    StripSlashes("a/b");
    StripSlashes("a_b");
    assert "/" + "a/b" == "/a/b";
    assert "/" + "a_b" == "/a_b";
    assert ReplaceChar("a/b", '/', '_') == "a_b";
    assert ReplaceChar("a_b", '/', '_') == "a_b";
    assert "a_b" + MD_SUFFIX == "a_b.md";
  }

  /**
   * The site root and the page `/index` are both saved as `index.md`, the name the
   * index file is later written to.
   */
  lemma FileNameOfRoot()
    ensures FileNameFor("/") == "index.md"
    ensures FileNameFor("") == "index.md"
    ensures FileNameFor("/" + INDEX_STEM) == "index.md"
  {
    SlashOnlyName();
    assert '/' !in INDEX_STEM;
    FileNameOfSegment(INDEX_STEM);
    IndexStem();
  }

  lemma SlashOnlyName()
    ensures FileNameFor("/") == FileNameFor("") == "index.md"
  {
    assert TrimLeftChar("", '/') == "";
    assert TrimLeftChar("/", '/') == "" by {
      TrimLeftCharCons("", '/');
      assert ['/'] + "" == "/";
    }
    assert TrimRightChar("", '/') == "";
    assert StripChar("/", '/') == "" && StripChar("", '/') == "";
    assert ReplaceChar("", '/', '_') == "";
    IndexStem();
  }

  lemma IndexStem()
    ensures INDEX_STEM + MD_SUFFIX == "index.md"
  {
  }

  /** A single slash-led segment is saved under its own name. */
  lemma FileNameOfSegment(x: string)
    requires x != [] && '/' !in x
    ensures FileNameFor("/" + x) == x + MD_SUFFIX
  {
    assert x[0] in x && x[|x| - 1] in x;
    StripSlashes(x);
    ReplaceCharAbsent(x, '/', '_');
  }

  /* ---------- fetching with retries ---------- */

  /**
   * The first of the attempts `from`, ..., MAX_RETRIES - 1 that yields content, where
   * `attempt(k)` is None when navigation, waiting or reading the page raised.
   */
  function FirstSuccess(attempt: nat -> Option<string>, from: nat): (k: Option<nat>)
    ensures k.Some? ==> from <= k.value < MAX_RETRIES && attempt(k.value).Some?
    ensures k.Some? ==> forall j :: from <= j < k.value ==> attempt(j).None?
    ensures k.None? ==> forall j :: from <= j < MAX_RETRIES ==> attempt(j).None?
    decreases MAX_RETRIES - from
  {
    if from >= MAX_RETRIES then None
    else if attempt(from).Some? then Some(from)
    else FirstSuccess(attempt, from + 1)
  }

  /** The page content the retry loop ends with. */
  function Fetched(attempt: nat -> Option<string>): (content: Option<string>)
    ensures content.None? <==> forall j :: 0 <= j < MAX_RETRIES ==> attempt(j).None?
  {
    match FirstSuccess(attempt, 0)
    case None => None
    case Some(k) => attempt(k)
  }

  /**
   * The retry loop: at most MAX_RETRIES attempts, stopping at the first that yields
   * content; None after the last failure. `attempts` is how many were made.
   */
  method FetchWithRetries(attempt: nat -> Option<string>) returns (content: Option<string>, attempts: nat)
    ensures 1 <= attempts <= MAX_RETRIES
    ensures content == Fetched(attempt)
    ensures content.Some? ==> content == attempt(attempts - 1)
    ensures forall j :: 0 <= j < attempts - 1 ==> attempt(j).None?
    ensures content.None? ==> attempts == MAX_RETRIES
  {
    var k := 0;
    while k < MAX_RETRIES
      invariant 0 <= k <= MAX_RETRIES
      invariant forall j :: 0 <= j < k ==> attempt(j).None?
      invariant FirstSuccess(attempt, k) == FirstSuccess(attempt, 0)
    {
      var outcome := attempt(k);
      if outcome.Some? {
        return outcome, k + 1;
      }
      if k == MAX_RETRIES - 1 {
        return None, MAX_RETRIES;
      }
      k := k + 1;
    }
    return None, MAX_RETRIES;
  }

  /* ---------- title and content root ---------- */

  /** The `<title>` text stripped, or `No Title` when the page has none. */
  function TitleOf(titleText: Option<string>): (title: string)
    ensures titleText.None? ==> title == NO_TITLE
    ensures titleText.Some? ==> title == Strip(titleText.value)
    ensures Strip(title) == title
  {
    if titleText.Some? then
      StripIdempotent(titleText.value);
      Strip(titleText.value)
    else
      StripTrimmed(NO_TITLE);
      NO_TITLE
  }

  /** The element the markdown is made from. */
  datatype Root =
      /** The match of `CONTENT_SELECTORS[index]`. */
    | Selected(index: nat)
    | Body
    | NoRoot

  /** A selector's match, given by its stripped-text length, is long enough to win. */
  predicate Qualifies(candidate: Option<nat>) {
    candidate.Some? && candidate.value > MIN_CONTENT_LENGTH
  }

  /** The first qualifying candidate at or after `from`. */
  function FirstQualifying(matches: seq<Option<nat>>, from: nat): (i: Option<nat>)
    ensures i.Some? ==> from <= i.value < |matches| && Qualifies(matches[i.value])
    ensures i.Some? ==> forall k :: from <= k < i.value ==> !Qualifies(matches[k])
    ensures i.None? ==> forall k :: from <= k < |matches| ==> !Qualifies(matches[k])
    decreases |matches| - from
  {
    if from >= |matches| then None
    else if Qualifies(matches[from]) then Some(from)
    else FirstQualifying(matches, from + 1)
  }

  /**
   * The content root for the selectors' matches in order (None where a selector
   * matches nothing): the first match longer than MIN_CONTENT_LENGTH; failing that the
   * last selector's match, however short; failing that `<body>`; failing that none.
   */
  function SelectRoot(matches: seq<Option<nat>>, hasBody: bool): (root: Root)
    ensures root.Selected? ==> root.index < |matches| && matches[root.index].Some?
    ensures root.Selected? && Qualifies(matches[root.index]) ==> forall k :: 0 <= k < root.index ==> !Qualifies(matches[k])
    ensures root.Selected? && !Qualifies(matches[root.index]) ==> root.index == |matches| - 1 && forall k :: 0 <= k < |matches| ==> !Qualifies(matches[k])
    ensures root.Body? <==> hasBody && (forall k :: 0 <= k < |matches| ==> !Qualifies(matches[k])) && (matches == [] || matches[|matches| - 1].None?)
    ensures root.NoRoot? <==> !hasBody && (forall k :: 0 <= k < |matches| ==> !Qualifies(matches[k])) && (matches == [] || matches[|matches| - 1].None?)
  {
    match FirstQualifying(matches, 0)
    case Some(i) => Selected(i)
    case None =>
      if matches != [] && matches[|matches| - 1].Some? then Selected(|matches| - 1)
      else if hasBody then Body
      else NoRoot
  }

  /** The selector loop: stops at a qualifying match, otherwise keeps the last one tried. */
  method ChooseRoot(matches: seq<Option<nat>>, hasBody: bool) returns (root: Root)
    ensures root == SelectRoot(matches, hasBody)
  {
    var element: Option<nat> := None;
    var index := 0;
    var i := 0;
    while i < |matches|
      invariant 0 <= i <= |matches|
      invariant forall k :: 0 <= k < i ==> !Qualifies(matches[k])
      invariant i == 0 ==> element.None?
      invariant i > 0 ==> index == i - 1 && element == matches[index]
      invariant FirstQualifying(matches, i) == FirstQualifying(matches, 0)
    {
      element := matches[i];
      index := i;
      if element.Some? && element.value > MIN_CONTENT_LENGTH {
        return Selected(index);
      }
      i := i + 1;
    }
    if element.Some? {
      root := Selected(index);
    } else if hasBody {
      root := Body;
    } else {
      root := NoRoot;
    }
  }

  /** With the selectors of the crawler, a short `.main-content` match beats `<body>`. */
  lemma ShortLastMatchBeatsBody(short: nat)
    requires short <= MIN_CONTENT_LENGTH
    ensures SelectRoot([None, None, None, None, None, None, Some(short)], true) == Selected(|CONTENT_SELECTORS| - 1)
  {
    var m: seq<Option<nat>> := [None, None, None, None, None, None, Some(short)];
    assert forall k :: 0 <= k < |m| ==> !Qualifies(m[k]);
  }

  /* ---------- blank-line collapse ---------- */

  /** No two neighbouring lines are both whitespace-only. */
  ghost predicate NoAdjacentBlank(lines: seq<string>) {
    forall i :: 0 < i < |lines| ==> !(IsBlank(lines[i - 1]) && IsBlank(lines[i]))
  }

  /**
   * The lines the collapse keeps: a line is dropped exactly when it and the line
   * before it in the input are both whitespace-only.
   */
  function Collapse(lines: seq<string>): (r: seq<string>)
    ensures |r| <= |lines|
    ensures lines != [] ==> r != [] && r[0] == lines[0] && IsBlank(r[|r| - 1]) == IsBlank(lines[|lines| - 1])
    ensures NoAdjacentBlank(r)
    decreases |lines|
  {
    if |lines| <= 1 then lines
    else
      var front := lines[..|lines| - 1];
      var last := lines[|lines| - 1];
      if IsBlank(last) && IsBlank(front[|front| - 1]) then Collapse(front) else Collapse(front) + [last]
  }

  /** One more line is kept unless both it and the line before it are blank. */
  lemma CollapseStep(lines: seq<string>, i: nat)
    requires i < |lines|
    ensures i > 0 && IsBlank(lines[i]) && IsBlank(lines[i - 1]) ==> Collapse(lines[..i + 1]) == Collapse(lines[..i])
    ensures !(i > 0 && IsBlank(lines[i]) && IsBlank(lines[i - 1])) ==> Collapse(lines[..i + 1]) == Collapse(lines[..i]) + [lines[i]]
  {
    var p := lines[..i + 1];
    assert p[..|p| - 1] == lines[..i] && p[|p| - 1] == lines[i];
    if i == 0 {
      assert Collapse(lines[..i]) + [lines[i]] == [lines[i]] == p;
    } else {
      assert lines[..i][i - 1] == lines[i - 1];
    }
  }

  /** The non-blank lines of `lines`, in order. */
  function NonBlank(lines: seq<string>): seq<string>
    decreases |lines|
  {
    if lines == [] then []
    else
      var last := lines[|lines| - 1];
      NonBlank(lines[..|lines| - 1]) + (if IsBlank(last) then [] else [last])
  }

  /** The collapse keeps every non-blank line, in order. */
  lemma {:induction false} CollapseKeepsNonBlank(lines: seq<string>)
    ensures NonBlank(Collapse(lines)) == NonBlank(lines)
    decreases |lines|
  {
    if |lines| > 1 {
      var front := lines[..|lines| - 1];
      var last := lines[|lines| - 1];
      CollapseKeepsNonBlank(front);
      if !(IsBlank(last) && IsBlank(front[|front| - 1])) {
        var c := Collapse(front) + [last];
        assert c[..|c| - 1] == Collapse(front);
      }
    }
  }

  /** Lines without neighbouring blanks are left as they are. */
  lemma {:induction false} CollapseIdentity(lines: seq<string>)
    requires NoAdjacentBlank(lines)
    ensures Collapse(lines) == lines
    decreases |lines|
  {
    if |lines| > 1 {
      var front := lines[..|lines| - 1];
      assert NoAdjacentBlank(front) by {
        forall i | 0 < i < |front|
          ensures !(IsBlank(front[i - 1]) && IsBlank(front[i]))
        {
          assert front[i - 1] == lines[i - 1] && front[i] == lines[i];
        }
      }
      CollapseIdentity(front);
      assert !(IsBlank(lines[|lines| - 2]) && IsBlank(lines[|lines| - 1]));
      assert front[|front| - 1] == lines[|lines| - 2];
      LastSplit(lines);
    }
  }

  /** The whole clean-up: collapse the lines, join them, strip the text. */
  function Normalize(markdown: string): (text: string)
    ensures Strip(text) == text
  {
    var text := Strip(Join(Collapse(Split(markdown, '\n')), "\n"));
    StripIdempotent(Join(Collapse(Split(markdown, '\n')), "\n"));
    text
  }

  /** Dropping leading whitespace does not create neighbouring blank lines. */
  lemma {:induction false} TrimLeftNoAdjacent(s: string)
    requires NoAdjacentBlank(Split(s, '\n'))
    ensures NoAdjacentBlank(Split(TrimLeft(s), '\n'))
    decreases |s|
  {
    if s != [] && IsSpace(s[0]) {
      var rest := Split(s[1..], '\n');
      var p := Split(s, '\n');
      if s[0] == '\n' {
        assert p == [""] + rest;
        forall i | 0 < i < |rest|
          ensures !(IsBlank(rest[i - 1]) && IsBlank(rest[i]))
        {
          assert rest[i - 1] == p[i] && rest[i] == p[i + 1];
        }
      } else {
        assert p == [[s[0]] + rest[0]] + rest[1..];
        assert p[0] == [s[0]] + rest[0];
        BlankCons(s[0], rest[0]);
        forall i | 0 < i < |rest|
          ensures !(IsBlank(rest[i - 1]) && IsBlank(rest[i]))
        {
          assert rest[i] == p[i];
          assert !(IsBlank(p[i - 1]) && IsBlank(p[i]));
          if i > 1 {
            assert rest[i - 1] == p[i - 1];
          }
        }
      }
      TrimLeftNoAdjacent(s[1..]);
    }
  }

  /** Dropping trailing whitespace does not create neighbouring blank lines. */
  lemma {:induction false} TrimRightNoAdjacent(s: string)
    requires NoAdjacentBlank(Split(s, '\n'))
    ensures NoAdjacentBlank(Split(TrimRight(s), '\n'))
    decreases |s|
  {
    if s != [] && IsSpace(s[|s| - 1]) {
      var t := s[..|s| - 1];
      var w := s[|s| - 1];
      assert s == t + [w];
      var q := Split(t, '\n');
      var p := Split(s, '\n');
      if w == '\n' {
        SplitSnocSep(t, '\n');
        assert forall i :: 0 <= i < |q| ==> q[i] == p[i];
      } else {
        SplitSnocChar(t, w, '\n');
        BlankSnoc(q[|q| - 1], w);
        assert forall i :: 0 <= i < |q| - 1 ==> q[i] == p[i];
        assert p[|q| - 1] == q[|q| - 1] + [w];
      }
      TrimRightNoAdjacent(t);
    }
  }

  /** The cleaned text has no neighbouring blank lines either. */
  lemma NormalizeNoAdjacentBlank(markdown: string)
    ensures NoAdjacentBlank(Split(Normalize(markdown), '\n'))
  {
    var c := Collapse(Split(markdown, '\n'));
    assert forall k :: 0 <= k < |c| ==> '\n' !in c[k] by {
      CollapseLinesFrom(Split(markdown, '\n'));
    }
    SplitJoin(c, '\n');
    var j := Join(c, "\n");
    TrimLeftNoAdjacent(j);
    TrimRightNoAdjacent(TrimLeft(j));
  }

  /** The collapse keeps only lines of its input. */
  lemma {:induction false} CollapseLinesFrom(lines: seq<string>)
    requires forall k :: 0 <= k < |lines| ==> '\n' !in lines[k]
    ensures forall k :: 0 <= k < |Collapse(lines)| ==> '\n' !in Collapse(lines)[k]
    decreases |lines|
  {
    if |lines| > 1 {
      CollapseLinesFrom(lines[..|lines| - 1]);
    }
  }

  /** Cleaning a cleaned text changes nothing. */
  lemma NormalizeIdempotent(markdown: string)
    ensures Normalize(Normalize(markdown)) == Normalize(markdown)
  {
    var t := Normalize(markdown);
    NormalizeNoAdjacentBlank(markdown);
    CollapseIdentity(Split(t, '\n'));
    JoinSplit(t, '\n');
  }

  /**
   * The blank-line loop of `convert_to_markdown`: a line is skipped when it and the
   * previous input line are both whitespace-only; the kept lines are joined and the
   * result stripped.
   */
  method NormalizeBlankLines(markdown: string) returns (text: string)
    ensures text == Normalize(markdown)
  {
    var lines := Split(markdown, '\n');
    var cleaned: seq<string> := [];
    var prevEmpty := false;
    for i := 0 to |lines|
      invariant cleaned == Collapse(lines[..i])
      invariant prevEmpty <==> i > 0 && IsBlank(lines[i - 1])
    {
      CollapseStep(lines, i);
      var line := lines[i];
      var isEmpty := Strip(line) == "";
      if !(isEmpty && prevEmpty) {
        cleaned := cleaned + [line];
        prevEmpty := isEmpty;
      }
    }
    PrefixAll(lines);
    text := Strip(Join(cleaned, "\n"));
  }

  /* ---------- conversion ---------- */

  /**
   * What the parser makes of a page: the text of its first `<title>` if any, the
   * stripped-text length of each content selector's first match (None where nothing
   * matches), and whether it has a `<body>`.
   */
  datatype PageView = PageView(titleText: Option<string>, matches: seq<Option<nat>>, hasBody: bool)

  /** The markdown of a page: empty without a root, otherwise the rendering of the root cleaned up. */
  function Converted(view: PageView, render: Root -> string): (markdown: string)
    ensures SelectRoot(view.matches, view.hasBody).NoRoot? ==> markdown == ""
  {
    var root := SelectRoot(view.matches, view.hasBody);
    if root.NoRoot? then "" else Normalize(render(root))
  }

  /** The markdown of a page is stripped and has no neighbouring blank lines. */
  lemma ConvertedClean(view: PageView, render: Root -> string)
    ensures Strip(Converted(view, render)) == Converted(view, render)
    ensures NoAdjacentBlank(Split(Converted(view, render), '\n'))
  {
    var root := SelectRoot(view.matches, view.hasBody);
    if root.NoRoot? {
      assert Split("", '\n') == [""];
    } else {
      NormalizeNoAdjacentBlank(render(root));
    }
  }

  /** `convert_to_markdown`: the title, then the root, then the cleaned markdown. */
  method ConvertToMarkdown(view: PageView, render: Root -> string) returns (markdown: string, title: string)
    ensures title == TitleOf(view.titleText)
    ensures markdown == Converted(view, render)
  {
    title := if view.titleText.Some? then Strip(view.titleText.value) else NO_TITLE;
    var root := ChooseRoot(view.matches, view.hasBody);
    if root.NoRoot? {
      return "", title;
    }
    markdown := NormalizeBlankLines(render(root));
  }
}
