/**
 * The crawler object: it picks its output folder on the first page, downloads and
 * converts each URL of the sitemap (or of a given list), collects one result per
 * page that converted, and finally writes `index.md` into the output folder.
 *
 * The browser, the HTTP session and the HTML tools are not modelled; what they
 * answer is a parameter of type `Env`.
 */
module Crawling {
  import opened Wrappers
  import opened Text
  import opened CrawlRules
  import opened IndexFile

  /** The answers of the outside world. */
  datatype Env = Env(
    /** `urlparse(url).hostname` */
    hostOf: string -> Option<string>,
    /** `urlparse(url).path` */
    pathOf: string -> string,
    /** the rendered HTML on attempt `k` for a URL, None when that attempt raised */
    attempt: string -> nat -> Option<string>,
    /** what the HTML parser finds in a page */
    parse: string -> PageView,
    /** `markdownify` of the chosen root of a page */
    render: string -> Root -> string,
    /** the `<loc>` texts of the sitemap at a URL, None when fetching or parsing fails */
    sitemap: string -> Option<seq<string>>)

  /** A file the crawler writes: where, and what. */
  datatype FileWrite = FileWrite(path: string, content: string)

  /** The constants of the stand-alone script. */
  const BASE_URL: string := "https://antigravity.google"
  const SITEMAP_URL: string := BASE_URL + "/sitemap.xml"
  const SCRIPT_OUTPUT_DIR: string := "docs"
  const DEFAULT_OUTPUT_DIR: string := "output"

  /** The output folder name: the custom folder when it is non-empty, else the domain label. */
  function FolderFor(customFolder: Option<string>, url: string, env: Env): (folder: string)
    ensures customFolder.Some? && customFolder.value != "" ==> folder == customFolder.value
    ensures (customFolder.None? || customFolder.value == "") ==> folder == ExtractSubdomain(env.hostOf(url))
  {
    if customFolder.Some? && customFolder.value != "" then customFolder.value
    else ExtractSubdomain(env.hostOf(url))
  }

  /** The folder after a page is processed: chosen once, on the first page. */
  function SubdomainAfter(subdomain: Option<string>, customFolder: Option<string>, url: string, env: Env): (after: Option<string>)
    ensures after.Some?
    ensures subdomain.Some? ==> after == subdomain
    ensures subdomain.None? ==> after == Some(FolderFor(customFolder, url, env))
  {
    if subdomain.Some? then subdomain else Some(FolderFor(customFolder, url, env))
  }

  /** The HTML of a page after the retries; None when every attempt failed. */
  function Html(url: string, env: Env): (html: Option<string>)
    ensures html.None? <==> forall j :: 0 <= j < MAX_RETRIES ==> env.attempt(url)(j).None?
  {
    Fetched(env.attempt(url))
  }

  /**
   * What processing a URL gives: a result when some attempt produced non-empty HTML,
   * with the stripped title, the URL itself and the file name its path maps to.
   */
  function Outcome(url: string, env: Env): (result: Option<PageResult>)
    ensures result.Some? ==> result.value.url == url
  {
    var html := Html(url, env);
    if html.None? || html.value == "" then None
    else Some(PageResult(TitleOf(env.parse(html.value).titleText), url, FileNameFor(env.pathOf(url))))
  }

  /** A URL gives a result exactly when some attempt produced non-empty HTML. */
  lemma OutcomeWhenFetched(url: string, env: Env)
    ensures Outcome(url, env).Some? <==> exists j :: 0 <= j < MAX_RETRIES && env.attempt(url)(j).Some? && Html(url, env).value != ""
  {
  }

  /**
   * A result carries the stripped page title and a flat markdown file name derived
   * from the URL path alone.
   */
  lemma OutcomeResult(url: string, env: Env)
    requires Outcome(url, env).Some?
    ensures Html(url, env).Some? && Html(url, env).value != ""
    ensures var r := Outcome(url, env).value;
      && Strip(r.title) == r.title
      && (env.parse(Html(url, env).value).titleText.None? ==> r.title == NO_TITLE)
      && r.file == FileNameFor(env.pathOf(url))
      && '/' !in r.file && EndsWith(r.file, MD_SUFFIX)
  {
  }

  /** The file written for a URL into `subdir`, when the page converted. */
  function PageWrite(url: string, env: Env, subdir: string): (written: Option<FileWrite>)
    ensures written.Some? <==> Outcome(url, env).Some?
    ensures written.Some? ==> written.value.path == PathJoin(subdir, Outcome(url, env).value.file)
  {
    var result := Outcome(url, env);
    if result.None? then None
    else
      var html := Html(url, env).value;
      Some(FileWrite(PathJoin(subdir, result.value.file), Converted(env.parse(html), env.render(html))))
  }

  /** A written page is stripped and has no two neighbouring blank lines. */
  lemma PageWriteClean(url: string, env: Env, subdir: string)
    requires PageWrite(url, env, subdir).Some?
    ensures var content := PageWrite(url, env, subdir).value.content;
      Strip(content) == content && NoAdjacentBlank(Split(content, '\n'))
  {
    var html := Html(url, env).value;
    ConvertedClean(env.parse(html), env.render(html));
  }

  /** The results `run` collects for `urls`, in order: one per page that converted. */
  function Successes(urls: seq<string>, env: Env): (results: seq<PageResult>)
    ensures |results| <= |urls|
    decreases |urls|
  {
    if urls == [] then []
    else
      var front := urls[..|urls| - 1];
      var last := urls[|urls| - 1];
      Successes(front, env) + (if Outcome(last, env).Some? then [Outcome(last, env).value] else [])
  }

  /**
   * Every collected result is the outcome of one of the URLs, and every URL whose page
   * converted has its result collected.
   */
  lemma {:induction false} SuccessesMembers(urls: seq<string>, env: Env)
    ensures forall r :: r in Successes(urls, env) ==> r.url in urls && Outcome(r.url, env) == Some(r)
    ensures forall u :: u in urls && Outcome(u, env).Some? ==> Outcome(u, env).value in Successes(urls, env)
    decreases |urls|
  {
    if urls != [] {
      var front := urls[..|urls| - 1];
      var last := urls[|urls| - 1];
      assert urls == front + [last];
      SuccessesMembers(front, env);
    }
  }

  /** The page files `run` writes for `urls` into `subdir`, in order. */
  function Writes(urls: seq<string>, env: Env, subdir: string): (written: seq<FileWrite>)
    ensures |written| == |Successes(urls, env)|
    decreases |urls|
  {
    if urls == [] then []
    else
      var front := urls[..|urls| - 1];
      var last := urls[|urls| - 1];
      var w := PageWrite(last, env, subdir);
      assert urls == front + [last];
      Writes(front, env, subdir) + (if w.Some? then [w.value] else [])
  }

  lemma SuccessesStep(urls: seq<string>, i: nat, env: Env)
    requires i < |urls|
    ensures var u := urls[i];
      Successes(urls[..i + 1], env) == Successes(urls[..i], env) + (if Outcome(u, env).Some? then [Outcome(u, env).value] else [])
  {
    assert urls[..i + 1][..i] == urls[..i];
  }

  lemma WritesStep(urls: seq<string>, i: nat, env: Env, subdir: string)
    requires i < |urls|
    ensures var u := urls[i];
      Writes(urls[..i + 1], env, subdir) == Writes(urls[..i], env, subdir) + (if PageWrite(u, env, subdir).Some? then [PageWrite(u, env, subdir).value] else [])
  {
    assert urls[..i + 1][..i] == urls[..i];
  }

  class Crawler {
    const baseUrl: Option<string>
    const sitemapUrl: Option<string>
    const outputDir: string
    const customFolder: Option<string>
    /** The pages converted so far, in the order they were processed. */
    var results: seq<PageResult>
    /** The output folder name, chosen on the first page. */
    var subdomain: Option<string>
    /** `output_dir/subdomain`, set together with it. */
    var outputSubdir: Option<string>

    predicate Valid()
      reads this
    {
      (subdomain.Some? <==> outputSubdir.Some?) &&
      (subdomain.Some? ==> outputSubdir.value == PathJoin(outputDir, subdomain.value))
    }

    /** `Crawler(base_url, sitemap_url, output_dir, custom_folder)` of the package. */
    constructor(baseUrl: Option<string>, sitemapUrl: Option<string>, outputDir: string, customFolder: Option<string>)
      ensures Valid()
      ensures this.baseUrl == baseUrl && this.outputDir == outputDir && this.customFolder == customFolder
      ensures this.sitemapUrl == SitemapUrlFor(baseUrl, sitemapUrl)
      ensures results == [] && subdomain.None?
    {
      this.baseUrl := baseUrl;
      this.sitemapUrl := SitemapUrlFor(baseUrl, sitemapUrl);
      this.outputDir := outputDir;
      this.customFolder := customFolder;
      results := [];
      subdomain := None;
      outputSubdir := None;
    }

    /** `Crawler(custom_folder)` of the stand-alone script: fixed site, output under `docs`. */
    constructor Script(customFolder: Option<string>)
      ensures Valid()
      ensures baseUrl == Some(BASE_URL) && sitemapUrl == Some(SITEMAP_URL)
      ensures outputDir == SCRIPT_OUTPUT_DIR && this.customFolder == customFolder
      ensures results == [] && subdomain.None?
    {
      baseUrl := Some(BASE_URL);
      sitemapUrl := Some(SITEMAP_URL);
      outputDir := SCRIPT_OUTPUT_DIR;
      this.customFolder := customFolder;
      results := [];
      subdomain := None;
      outputSubdir := None;
    }

    /**
     * `process_url_with_playwright`: fixes the output folder on first use, then
     * downloads, converts and writes the page. The results list is left to the caller.
     */
    method ProcessUrl(url: string, env: Env) returns (result: Option<PageResult>, written: Option<FileWrite>)
      requires Valid()
      modifies this
      ensures Valid()
      ensures subdomain == SubdomainAfter(old(subdomain), customFolder, url, env)
      ensures unchanged(this`results)
      ensures result == Outcome(url, env)
      ensures written == PageWrite(url, env, outputSubdir.value)
    {
      if subdomain.None? {
        var folder := FolderFor(customFolder, url, env);
        subdomain := Some(folder);
        outputSubdir := Some(PathJoin(outputDir, folder));
      }
      result, written := DownloadPage(url, env, outputSubdir.value);
    }

    /**
     * The download part of `process_url_with_playwright`: up to three attempts; when
     * they give non-empty HTML, the page is converted, written to `subdir` and its
     * result returned.
     */
    static method DownloadPage(url: string, env: Env, subdir: string) returns (result: Option<PageResult>, written: Option<FileWrite>)
      ensures result == Outcome(url, env)
      ensures written == PageWrite(url, env, subdir)
    {
      var filename := FileNameFor(env.pathOf(url));
      var filepath := PathJoin(subdir, filename);
      var content, attempts := FetchWithRetries(env.attempt(url));
      assert content == Html(url, env);
      if content.None? || content.value == "" {
        return None, None;
      }
      var markdown, title := ConvertToMarkdown(env.parse(content.value), env.render(content.value));
      assert Outcome(url, env) == Some(PageResult(title, url, filename));
      written := Some(FileWrite(filepath, markdown));
      result := Some(PageResult(title, url, filename));
    }

    /**
     * `generate_index`: the index file of the output folder, the results sorted by
     * title below the table header. None when no page was processed yet, where the
     * source fails for want of an output folder.
     */
    method GenerateIndex() returns (index: Option<FileWrite>)
      requires Valid()
      ensures outputSubdir.None? ==> index.None?
      ensures outputSubdir.Some? ==> index == Some(FileWrite(PathJoin(outputSubdir.value, INDEX_NAME), IndexText(results)))
    {
      if outputSubdir.None? {
        return None;
      }
      var sorted := SortByTitle(results);
      var text := INDEX_HEADER;
      for i := 0 to |sorted|
        invariant text == INDEX_HEADER + Rows(sorted[..i])
      {
        RowsStep(sorted, i);
        AppendAssoc(INDEX_HEADER, Rows(sorted[..i]), Row(sorted[i]));
        text := text + Row(sorted[i]);
      }
      PrefixAll(sorted);
      index := Some(FileWrite(PathJoin(outputSubdir.value, INDEX_NAME), text));
    }

    /**
     * `run`: the given URLs, or the sitemap's when none are given; nothing happens
     * when the list is empty. Otherwise every URL is processed in order, each result
     * is appended, and the index is written last.
     */
    method Run(urls: Option<seq<string>>, env: Env) returns (written: seq<FileWrite>, index: Option<FileWrite>)
      requires Valid()
      modifies this
      ensures Valid()
      ensures var list := if urls.Some? then urls.value else FetchSitemap(sitemapUrl, env.sitemap, env.pathOf);
        && (list == [] ==> results == old(results) && subdomain == old(subdomain) && written == [] && index.None?)
        && (list != [] ==>
              && subdomain == SubdomainAfter(old(subdomain), customFolder, list[0], env)
              && results == old(results) + Successes(list, env)
              && written == Writes(list, env, outputSubdir.value)
              && index == Some(FileWrite(PathJoin(outputSubdir.value, INDEX_NAME), IndexText(results))))
    {
      var list := if urls.Some? then urls.value else FetchSitemap(sitemapUrl, env.sitemap, env.pathOf);
      if list == [] {
        return [], None;
      }
      written := ProcessAll(list, env);
      index := GenerateIndex();
    }

    /** The loop of `run`: every URL in order. */
    method ProcessAll(list: seq<string>, env: Env) returns (written: seq<FileWrite>)
      requires Valid() && list != []
      modifies this
      ensures Valid()
      ensures subdomain == SubdomainAfter(old(subdomain), customFolder, list[0], env)
      ensures results == old(results) + Successes(list, env)
      ensures written == Writes(list, env, outputSubdir.value)
    {
      written := [];
      var start := results;
      for i := 0 to |list|
        invariant Valid()
        invariant results == start + Successes(list[..i], env)
        invariant i == 0 ==> subdomain == old(subdomain)
        invariant i > 0 ==> subdomain == SubdomainAfter(old(subdomain), customFolder, list[0], env)
        invariant i == 0 ==> written == []
        invariant i > 0 ==> written == Writes(list[..i], env, outputSubdir.value)
      {
        SuccessesStep(list, i, env);
        ghost var found := Successes(list[..i], env);
        ghost var before := subdomain;
        var page := Visit(list[i], env);
        if i > 0 {
          assert before.Some? && subdomain == before;
        }
        WritesStep(list, i, env, outputSubdir.value);
        ghost var added := if Outcome(list[i], env).Some? then [Outcome(list[i], env).value] else [];
        AppendAssoc(start, found, added);
        written := written + (if page.Some? then [page.value] else []);
      }
      PrefixAll(list);
    }

    /** One round of the loop of `run`: process the URL and append its result, if any. */
    method Visit(url: string, env: Env) returns (page: Option<FileWrite>)
      requires Valid()
      modifies this
      ensures Valid()
      ensures subdomain == SubdomainAfter(old(subdomain), customFolder, url, env)
      ensures results == old(results) + (if Outcome(url, env).Some? then [Outcome(url, env).value] else [])
      ensures page == PageWrite(url, env, outputSubdir.value)
    {
      var result;
      result, page := ProcessUrl(url, env);
      if result.Some? {
        results := results + [result.value];
      } else {
        assert results == results + [];
      }
    }
  }
}
