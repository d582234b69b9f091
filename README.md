# docs-crawler core, modelled in Dafny

docs-crawler fetches the pages of a documentation site, converts each page's
main content to Markdown, saves one file per page and writes an `index.md`
table of those pages. A companion exporter merges the pages into one Markdown
document or PDF. This project models the logic of that pipeline that works on
strings and data, and proves its properties:

- **Incremental state store** (`cache.dfy`, module `Cache`).
  - `CrawlCache` is a class over a version-tagged map from URL to page entry.
    It covers loading, change detection, update, removal, statistics and
    clearing.
  - `CrawlProgress` is a class over an optional progress record with
    `pending`, `completed` and `failed` lists.
  - Each in-place method is specified by a pure step function (`Complete`,
    `Fail`). The lemmas prove the progress invariant for those functions:
    disjoint lists that add up to `total`.
- **Export assembler** (`exporter.dfy`, module `Export`).
  - The index link pattern `\[([^\]]+\.md)\]\([^\)]+\.md\)` is modelled as a
    deterministic left-to-right scanner.
  - Also modelled: the alphabetical fallback over a sorted listing, the page
    order, the merge loop with its separator, and the output paths of the
    Markdown and PDF exports.
  - A directory is a map from file name to optional content. `None` means the
    entry exists but cannot be read.
- **Crawler rules** (`crawl_rules.dfy`, module `CrawlRules`). These are the
  folder name taken from the host name, the sitemap location and its `/docs/`
  filter, the page file name, the bounded retry loop, the title, the choice of
  the content root, and the blank-line collapse.
- **Crawler object** (`crawler.dfy`, module `Crawling`). This is `Crawler`
  with its `subdomain`, `output_subdir` and `results` fields. Its methods are
  `process_url_with_playwright`, `run` and `generate_index`. Everything the
  outside world answers is a parameter of type `Env`: host name, URL path,
  each fetch attempt, the HTML parser's findings, the HTML-to-Markdown
  converter, and the sitemap's `<loc>` list.
- **Index file** (`index_file.dfy`, module `IndexFile`). This is the stable
  sort by title and the row format of `index.md`.
- **Cross-file round trip** (`roundtrip.dfy`, module `RoundTrip`). It proves
  that the exporter's scanner, run over the index the crawler writes, gives
  back the crawler's files in title order, for results that are `Linkable`:
  the title holds no `[`, the URL holds no `[` or `]` and is not itself a
  `.md` name, and the file name holds no `]` or `)`. Without that the
  round trip can fail: a URL ending in `.md`, such as `https://s/docs/a.md`,
  makes its own `[url](url)` cell match the pattern as well.
- `text.dfy` (module `Text`) holds Python's string semantics that the rest
  relies on: `isspace`, `strip`, `split`/`join`, code-point order and
  `os.path.join`. `wrappers.dfy` holds `Option` and `Result`.

`crawl_and_convert.py` repeats `extract_subdomain`, the sitemap filter, the
slug rule, the retry loop, the selector choice, the blank-line collapse,
`generate_index` and `run` almost word for word. The same members model both
files. The differences are a fixed `SITEMAP_URL` and an output root of `docs`,
and `Crawling.Crawler.Script` captures them.

Behaviours kept as the code has them:

- The dedupe guard of `mark_failed` compares a URL string with the dicts in
  the `failed` list, so it never fires. Failing a URL twice records it twice
  (`Cache.FailTwiceRecordsTwice`).
- `list.remove` drops only the first pending occurrence of a URL
  (`Cache.CompleteRemovesOneOccurrence`).
- When no content selector's match has more than 100 characters of text, the
  last selector's match is kept even if it is short. `<body>` is used only
  when that match is absent (`CrawlRules.ShortLastMatchBeatsBody`).
- The PDF path replaces everything after the last `.` in the whole path, even
  when that dot is in a directory name (`Export.ForcePdfDottedDirectory`).
- Slugging is not one-to-one.
  - `/a/b` and `/a_b` share a file (`CrawlRules.FileNameCollision`).
  - The site root and `/index` are both saved as `index.md`, the name
    `generate_index` later overwrites (`CrawlRules.FileNameOfRoot`).
- A host name under a two-label public suffix yields that suffix's first
  label: `bbc.co.uk` gives `co` (`CrawlRules.ExtractSubdomainExamples`).

## Model

| member | source | states |
|---|---|---|
| `Cache.LoadCache` | docs_crawler/cache.py:38-55 | the result is always at CACHE_VERSION; a readable document of that version is trusted whole; a missing file, another version, or a JSON-decode or IO error gives the empty store |
| `Cache.CrawlCache.constructor` | docs_crawler/cache.py:27-36 | the cache file is `cache_dir/.docs-crawler-cache.json` and the store is what loading makes of it |
| `Cache.CrawlCache.Saved` | docs_crawler/cache.py:57-65 | the saved document loads back to exactly the store in memory |
| `Cache.CrawlCache.GetPageInfo` | docs_crawler/cache.py:74-84 | an entry is returned exactly when the URL is cached, and it is that URL's entry |
| `Cache.CrawlCache.IsChanged` | docs_crawler/cache.py:103-117 | true exactly when the URL has no entry or its stored content hash differs from the new one |
| `Cache.CrawlCache.UpdatePage` | docs_crawler/cache.py:86-101 | the URL's one entry is overwritten with the new hash, time and headers; it is then unchanged for that hash; every other URL's entry is as before |
| `Cache.CrawlCache.RemovePage` | docs_crawler/cache.py:119-122 | only the URL's entry is deleted; an absent URL leaves the store unchanged |
| `Cache.CrawlCache.GetCachedUrls` | docs_crawler/cache.py:124-126 | the set of URLs that have an entry |
| `Cache.CrawlCache.GetStats` | docs_crawler/cache.py:128-133 | `total_pages` is the number of cached URLs; `cache_file` is the cache's file |
| `Cache.CrawlCache.Clear` | docs_crawler/cache.py:135-138 | the store becomes `{version: CACHE_VERSION, pages: {}}` with no cached URL |
| `Cache.RemoveFirst` | docs_crawler/cache.py:218-219 | `list.remove`: the first occurrence of the URL is taken out and the other entries keep their order; the multiset loses exactly one copy |
| `Cache.ErrorText` | docs_crawler/cache.py:231 | the recorded error is None exactly for no error or an empty message, else the error's text |
| `Cache.Complete` | docs_crawler/cache.py:213-221 | if the URL is pending its first occurrence goes, the rest keep their order; `completed` is unchanged when it already holds the URL and gains it at the end otherwise; nothing else changes |
| `Cache.Fail` | docs_crawler/cache.py:223-231 | if the URL is pending its first occurrence goes, the rest keep their order; `{url, error}` is appended unconditionally; nothing else changes |
| `Cache.BeginConsistent` | docs_crawler/cache.py:184-197 | a start with distinct URLs satisfies the progress invariant and tracks exactly the started URLs |
| `Cache.ConsistentParts` | docs_crawler/cache.py:239-250 | under the invariant, pending, completed and failed URLs are pairwise disjoint and their counts sum to `total` |
| `Cache.CompletePreserves` | docs_crawler/cache.py:213-221 | completing a pending URL keeps the invariant and the tracked URLs, and the URL is no longer pending |
| `Cache.FailPreserves` | docs_crawler/cache.py:223-231 | failing a pending URL keeps the invariant and the tracked URLs, and the URL is no longer pending |
| `Cache.CompleteWhenAccounted` | docs_crawler/cache.py:252-256 | under the invariant, nothing is pending exactly when completed and failed account for `total` |
| `Cache.CompleteIdempotent` | docs_crawler/cache.py:218-221 | marking a URL completed twice equals marking it once when it is pending at most once |
| `Cache.CompleteRemovesOneOccurrence` | docs_crawler/cache.py:218-219 | a URL pending twice needs two completions to leave `pending` |
| `Cache.FailTwiceRecordsTwice` | docs_crawler/cache.py:230-231 | the dedupe guard never fires: failing a URL twice appends two entries |
| `Cache.CrawlProgress.constructor` | docs_crawler/cache.py:152-161 | the progress file is `progress_dir/.docs-crawler-progress.json`; the record is uninitialised |
| `Cache.CrawlProgress.Load` | docs_crawler/cache.py:167-182 | a readable progress document becomes the record and is returned; a missing file, or a JSON-decode or IO error, gives None and leaves the record as it was |
| `Cache.CrawlProgress.Start` | docs_crawler/cache.py:184-199 | `total` is the number of URLs, `pending` is the URLs in order, `completed` and `failed` are empty; with distinct URLs the invariant holds |
| `Cache.CrawlProgress.MarkCompleted` | docs_crawler/cache.py:213-221 | a no-op when uninitialised; otherwise the step `Complete`, which keeps the invariant for a pending URL |
| `Cache.CrawlProgress.MarkFailed` | docs_crawler/cache.py:223-231 | a no-op when uninitialised; otherwise the step `Fail`, which keeps the invariant for a pending URL |
| `Cache.CrawlProgress.GetPendingUrls` | docs_crawler/cache.py:233-237 | the pending list, or empty when uninitialised |
| `Cache.CrawlProgress.GetStats` | docs_crawler/cache.py:239-250 | None exactly when uninitialised; otherwise `total`, the lengths of the three lists and `started_at` from the record; under the invariant the three counts sum to `total` |
| `Cache.CrawlProgress.IsComplete` | docs_crawler/cache.py:252-256 | true when uninitialised or nothing is pending; under the invariant, exactly when completed and failed account for `total` |
| `Cache.CrawlProgress.Clear` | docs_crawler/cache.py:258-266 | the record returns to uninitialised: complete and without statistics |
| `Export.MatchRef` | docs_crawler/exporter.py:43 | a match's captured label is at least 4 characters, ends in `.md` and holds no `]`; the match lies within the text |
| `Export.MatchTarget` | docs_crawler/exporter.py:43 | the `\([^\)]+\.md\)` part: when it matches, it spans a `(`, a target of at least 4 characters ending in `.md` with no `)`, and the first `)` |
| `Export.MatchRefShape` | docs_crawler/exporter.py:43 | a match is exactly `[label](target)`: the label as above, then a target of at least 4 characters ending in `.md` with no `)`; the match ends at that `)` |
| `Export.MatchRefLink` | docs_crawler/exporter.py:43 | conversely, every such `[label](target)` is a match of exactly its own length, capturing the label |
| `Export.FindRefs` | docs_crawler/exporter.py:43-44 | every captured name is a `.md` name of at least 4 characters without `]` |
| `Export.FindRefsNoBracket` | docs_crawler/exporter.py:43-48 | a text without `[` yields no matches |
| `Export.SortedNames` | docs_crawler/exporter.py:67 | `sorted(os.listdir(...))`: every name once, in strictly ascending code-point order |
| `Export.Alphabetical` | docs_crawler/exporter.py:64-70 | exactly the `.md` entries other than `index.md`, each once, in ascending order |
| `Export.PagesSorted` | docs_crawler/exporter.py:67-69 | filtering a sorted listing keeps it sorted |
| `Export.Listed` | docs_crawler/exporter.py:50-58 | each name occurs as often as among the captured names when it exists and is not `index.md`, and never otherwise; no more names than captures |
| `Export.ListedAppend` | docs_crawler/exporter.py:52-56 | filtering a concatenation filters each part and keeps them in order, so the kept names follow the link order |
| `Export.IndexRefs` | docs_crawler/exporter.py:31-44 | the matches of `index.md`, present exactly when the index exists and can be read |
| `Export.PageOrder` | docs_crawler/exporter.py:24-62 | every name in the order is an existing `.md` file other than `index.md` |
| `Export.PageOrderWithoutIndex` | docs_crawler/exporter.py:33-48 | a missing or unreadable index, or one in which the pattern finds no match at all, gives the alphabetical order |
| `Export.PageOrderBracketFree` | docs_crawler/exporter.py:44-48 | an index text without any `[` has no matches, so the order is alphabetical |
| `Export.PageOrderFromIndex` | docs_crawler/exporter.py:46-58 | an index with matches gives exactly the existing non-index captured names in link order, even if none exist |
| `Export.Readable` | docs_crawler/exporter.py:86-100 | at most one text per page |
| `Export.ReadableOne` | docs_crawler/exporter.py:86-100 | a single page gives its stripped text when it can be read and nothing when it cannot |
| `Export.ReadableAppend` | docs_crawler/exporter.py:86-100 | reading a concatenation reads each part in order; with ReadableOne this fixes the texts page by page |
| `Export.ReadableAll` | docs_crawler/exporter.py:86-96 | when every page is readable, each contributes its stripped text at its position |
| `Export.MergeOne` | docs_crawler/exporter.py:92-96 | one readable page merges to its stripped text, with no separator |
| `Export.MergeTwo` | docs_crawler/exporter.py:92-96 | each further page adds exactly one separator before its text |
| `Export.MergeStep` | docs_crawler/exporter.py:84-102 | the merge loop's pieces joined equal the readable texts so far joined by the separator |
| `Export.MergedMdPath` | docs_crawler/exporter.py:113-116 | a non-empty `output_path` is used as given, otherwise exactly `os.path.join(input_dir, "merged.md")`, which ends in `merged.md` |
| `Export.ForcePdf` | docs_crawler/exporter.py:145-147 | the result always ends in `.pdf`; a path already ending in `.pdf` is kept; otherwise everything from the last `.` on is replaced by `.pdf`, or `.pdf` is appended when there is no `.` |
| `Export.ForcePdfIdempotent` | docs_crawler/exporter.py:146-147 | forcing the extension twice equals forcing it once |
| `Export.ForcePdfReplacesExtension` | docs_crawler/exporter.py:146-147 | `stem.md` becomes `stem.pdf` and a dotless `stem` becomes `stem.pdf` |
| `Export.ForcePdfDottedDirectory` | docs_crawler/exporter.py:147 | the last dot may be in a directory name: `a.b/c` becomes `a.pdf` |
| `Export.PdfPath` | docs_crawler/exporter.py:140-147 | always ends in `.pdf`; a non-empty `output_path` gives `ForcePdf(output_path)`; without one it is `input_dir/merged.pdf` |
| `Export.Exporter.constructor` | docs_crawler/exporter.py:13-22 | the exporter keeps its input folder and optional output path |
| `Export.Exporter.AlphabeticalOrder` | docs_crawler/exporter.py:64-70 | the filtering loop yields exactly the alphabetical order |
| `Export.Exporter.KeepPages` | docs_crawler/exporter.py:66-70 | the loop keeps exactly the names ending in `.md` other than `index.md`, in the given order |
| `Export.Exporter.GetPageOrder` | docs_crawler/exporter.py:24-62 | the loop yields exactly the page order; all of its names are existing non-index `.md` files |
| `Export.Exporter.Merge` | docs_crawler/exporter.py:72-102 | fails with "No markdown files found in …" exactly when the order is empty; otherwise gives the readable pages' stripped texts joined by `\n\n---\n\n`, skipping unreadable pages without a separator |
| `Export.Exporter.ExportMergedMd` | docs_crawler/exporter.py:104-122 | the merge's failure, or the merged text written to `output_path` or `input_dir/merged.md` |
| `Export.Exporter.ExportPdf` | docs_crawler/exporter.py:124-155 | without the converter, the install-remedy error before any merge; otherwise the merge's failure or its text written to a `.pdf` path |
| `CrawlRules.ExtractSubdomain` | docs_crawler/crawler.py:43-63 | `default` for an absent or empty hostname; a dotless hostname is itself; the result has no dot |
| `CrawlRules.ExtractSubdomainOfLabels` | docs_crawler/crawler.py:47-58 | a hostname of two or more labels gives its second-to-last label |
| `CrawlRules.ExtractSubdomainExamples` | docs_crawler/crawler.py:50-61 | `code.claude.com` gives `claude`, `antigravity.google` gives `antigravity`, `localhost` gives itself, `bbc.co.uk` gives `co` |
| `CrawlRules.SitemapUrlFor` | docs_crawler/crawler.py:30 | the explicit non-empty sitemap URL, else exactly `base_url + "/sitemap.xml"`; none exactly when both are missing or empty |
| `CrawlRules.DocsFilter` | docs_crawler/crawler.py:81-82 | exactly the `<loc>` URLs whose path contains `/docs/` |
| `CrawlRules.DocsFilterAppend` | docs_crawler/crawler.py:82 | the filter distributes over concatenation, so document order is kept |
| `CrawlRules.FetchSitemap` | docs_crawler/crawler.py:65-87 | empty without a sitemap URL or on a fetch or parse failure; otherwise the `DocsFilter` of the sitemap's locations, which keeps their order and duplicates and holds exactly the `/docs/` URLs |
| `CrawlRules.FileNameFor` | docs_crawler/crawler.py:103-106 | the file name never contains `/` and always ends in `.md` after at least one character |
| `CrawlRules.FileNameIgnoresOuterSlashes` | docs_crawler/crawler.py:103 | any number of leading and trailing slashes around a path leaves its file name unchanged, as `strip('/')` does |
| `CrawlRules.FileNameRecoversPath` | docs_crawler/crawler.py:103-106 | for a path without `_`, turning `_` back into `/` recovers the path from the file name |
| `CrawlRules.FileNameCollision` | docs_crawler/crawler.py:103-106 | `/a/b` and `/a_b` both map to `a_b.md` |
| `CrawlRules.FileNameOfRoot` | docs_crawler/crawler.py:103-106 | `/`, the empty path and `/index` all map to `index.md` |
| `CrawlRules.FileNameOfSegment` | docs_crawler/crawler.py:103-106 | a single path segment without slashes becomes its own name with `.md` appended |
| `CrawlRules.FirstSuccess` | docs_crawler/crawler.py:112-134 | the first attempt index below MAX_RETRIES that yields content, with every earlier attempt failed |
| `CrawlRules.Fetched` | docs_crawler/crawler.py:112-134 | no content exactly when all MAX_RETRIES attempts fail |
| `CrawlRules.FetchWithRetries` | docs_crawler/crawler.py:112-134 | between 1 and 3 attempts; stops at the first success and returns its content; None only after 3 failures |
| `CrawlRules.TitleOf` | docs_crawler/crawler.py:154-156 | the stripped `<title>` text, else `No Title`; the title is always stripped |
| `CrawlRules.FirstQualifying` | docs_crawler/crawler.py:190-193 | the first candidate with more than 100 stripped-text characters, all earlier ones not qualifying |
| `CrawlRules.SelectRoot` | docs_crawler/crawler.py:176-199 | the first qualifying match wins; otherwise the last selector's match if present even when short; otherwise `<body>`, otherwise no root, each in exactly the stated case |
| `CrawlRules.ChooseRoot` | docs_crawler/crawler.py:177-196 | the selector loop yields exactly `SelectRoot` |
| `CrawlRules.ShortLastMatchBeatsBody` | docs_crawler/crawler.py:180-196 | with the crawler's 7 selectors, a short `.main-content` match is chosen over `<body>` |
| `CrawlRules.Collapse` | docs_crawler/crawler.py:205-213 | the kept lines have no two adjacent whitespace-only lines, and the first line and the blankness of the last are kept |
| `CrawlRules.CollapseStep` | docs_crawler/crawler.py:208-213 | a line is dropped exactly when it and the previous input line are both blank |
| `CrawlRules.CollapseKeepsNonBlank` | docs_crawler/crawler.py:205-213 | every non-blank line is kept, in order |
| `CrawlRules.CollapseIdentity` | docs_crawler/crawler.py:205-213 | lines without adjacent blanks are left unchanged |
| `CrawlRules.Normalize` | docs_crawler/crawler.py:204-215 | the cleaned text has no leading or trailing whitespace |
| `CrawlRules.NormalizeNoAdjacentBlank` | docs_crawler/crawler.py:204-215 | the cleaned text has no two adjacent whitespace-only lines |
| `CrawlRules.NormalizeIdempotent` | docs_crawler/crawler.py:204-215 | cleaning twice equals cleaning once |
| `CrawlRules.NormalizeBlankLines` | docs_crawler/crawler.py:204-215 | the `prev_empty` loop plus join and strip computes exactly `Normalize` |
| `CrawlRules.Converted` | docs_crawler/crawler.py:195-215 | no root gives empty Markdown |
| `CrawlRules.ConvertedClean` | docs_crawler/crawler.py:198-215 | the page Markdown is stripped and has no adjacent blank lines |
| `CrawlRules.ConvertToMarkdown` | docs_crawler/crawler.py:150-215 | the title is computed as `TitleOf` and the Markdown as `Converted` of the chosen root |
| `Crawling.FolderFor` | docs_crawler/crawler.py:92-98 | a non-empty custom folder wins, otherwise the host name's folder |
| `Crawling.SubdomainAfter` | docs_crawler/crawler.py:92-101 | the folder is chosen on the first page only and never changes after |
| `Crawling.Html` | docs_crawler/crawler.py:109-134 | no HTML exactly when all three attempts fail |
| `Crawling.Outcome` | docs_crawler/crawler.py:136-148 | a result is always for the processed URL |
| `Crawling.OutcomeWhenFetched` | docs_crawler/crawler.py:112-148 | a result exists exactly when some attempt succeeds and the FIRST successful attempt's HTML is non-empty; an empty first success ends the retries without a result |
| `Crawling.OutcomeResult` | docs_crawler/crawler.py:103-144 | a result's title is stripped (`No Title` without `<title>`), and its file is the slug file name, without `/` and ending in `.md` |
| `Crawling.PageWrite` | docs_crawler/crawler.py:136-144 | a file is written exactly when a result is produced, at `output_subdir/filename` |
| `Crawling.PageWriteClean` | docs_crawler/crawler.py:138-142 | a written page is stripped and has no adjacent blank lines |
| `Crawling.Successes` | docs_crawler/crawler.py:253-256 | no more results than URLs |
| `Crawling.SuccessesMembers` | docs_crawler/crawler.py:253-256 | each collected result is the outcome of one of the URLs, and each successful URL's result is collected |
| `Crawling.Writes` | docs_crawler/crawler.py:253-256 | one written file per collected result |
| `Crawling.Crawler.constructor` | docs_crawler/crawler.py:19-41 | the sitemap URL is derived as `SitemapUrlFor`; no results yet and no folder chosen |
| `Crawling.Crawler.Script` | crawl_and_convert.py:29-38 | the script's crawler: the fixed antigravity sitemap, output under `docs`, no results and no folder chosen |
| `Crawling.Crawler.ProcessUrl` | docs_crawler/crawler.py:89-148 | the folder is fixed on first use; the result and written file are `Outcome` and `PageWrite`; `results` is untouched |
| `Crawling.Crawler.DownloadPage` | docs_crawler/crawler.py:103-148 | the retry loop and conversion yield exactly `Outcome` and `PageWrite` |
| `Crawling.Crawler.GenerateIndex` | docs_crawler/crawler.py:217-226 | `output_subdir/index.md` holds the header and one row per result in title order; nothing before any page was processed |
| `Crawling.Crawler.Run` | docs_crawler/crawler.py:228-261 | the given URLs or the sitemap's; nothing happens for an empty list; otherwise exactly the successful results are appended in order and the index is written |
| `Crawling.Crawler.ProcessAll` | docs_crawler/crawler.py:253-256 | after the loop, `results` gained exactly the successes in URL order and the folder is the first URL's |
| `Crawling.Crawler.Visit` | docs_crawler/crawler.py:254-256 | a result is appended only when the page produced one |
| `IndexFile.Insert` | docs_crawler/crawler.py:224 | inserting adds exactly that entry |
| `IndexFile.SortByTitle` | docs_crawler/crawler.py:224 | the sorted list is a permutation of the results |
| `IndexFile.SortByTitleSorted` | docs_crawler/crawler.py:224 | titles ascend in the sorted list |
| `IndexFile.SortByTitleStable` | docs_crawler/crawler.py:224 | the sort is stable: entries with equal titles keep their collected order |
| `IndexFile.IndexText` | docs_crawler/crawler.py:217-225 | the index starts with the heading and table header |
| `RoundTrip.UrlLinkSkipped` | docs_crawler/exporter.py:43 | the `[url](url)` cell yields no match when the URL is not itself a `.md` name |
| `RoundTrip.FileLinkMatch` | docs_crawler/exporter.py:43 | the `[file](file)` cell is one match, to `file`, and scanning resumes after it |
| `RoundTrip.RowRefs` | docs_crawler/crawler.py:225 | a row written by the crawler for a `Linkable` result yields exactly its file to the exporter's pattern |
| `RoundTrip.RowsRefs` | docs_crawler/crawler.py:224-225 | the rows of `Linkable` results yield their files in row order |
| `RoundTrip.IndexTextRefs` | docs_crawler/crawler.py:217-225 | for `Linkable` results the index text yields their files in title order |
| `RoundTrip.ExportFollowsIndex` | docs_crawler/exporter.py:43-58 | for `Linkable` results a folder holding the crawler's index is exported in the crawler's title order, missing files dropped |
| `RoundTrip.ExportOrderIsTitleOrder` | docs_crawler/exporter.py:50-58 | for `Linkable` results whose files all exist, the export order is exactly the files sorted by title |
| `RoundTrip.EmptyIndexIsAlphabetical` | docs_crawler/exporter.py:46-48 | an index without rows falls back to the alphabetical order |

## Left out

- Rendering with Playwright is not modelled: navigation, the selector and network-idle waits, and `page.content()`. Each attempt is an outcome `Env.attempt(url)(k)`, and a raised exception is `None`.
- HTML parsing, element removal and `markdownify` are not modelled. A page is a `PageView`: the first `<title>` text, the stripped-text length of each content selector's first match, and whether a `<body>` exists. The conversion of the chosen root is the parameter `Env.render`. The boilerplate denylists therefore do not appear, and neither does the claim that removed elements never reach the output.
- An exception from `markdownify`, or from writing the page file, is not modelled. In the source it turns the page's result into `None`; here conversion and writing always succeed once HTML was fetched.
- `urlparse` is not modelled (host name lowercasing, port stripping, path extraction). The host name and the path are `Env.hostOf` and `Env.pathOf`.
- `CrawlRules.FetchSitemap` does not model a `ValueError` from `urlparse` on a malformed `<loc>` (such as `http://[x`). In the source it is caught by the surrounding `try` (docs_crawler/crawler.py:71-87), so one bad URL empties the whole list; here `Env.pathOf` is total and the other URLs are kept.
- `Crawling.Crawler.ProcessUrl` does not model a `ValueError` from `urlparse` (docs_crawler/crawler.py:45 and 103). In the source nothing catches it, so it escapes `run`; here `Env.hostOf` and `Env.pathOf` are total and the page is processed.
- `Export.Exporter.AlphabeticalOrder` does not model a missing input folder. In the source `os.listdir` raises `FileNotFoundError` (docs_crawler/exporter.py:67), which escapes `merge`; a `Dir` map always exists, so a missing folder can only be given as the empty map, for which `Merge` fails with the no-markdown-files error instead.
- The sitemap's HTTP GET and its XML parsing are not modelled. They are `Env.sitemap`, which yields the `<loc>` texts or `None` on any failure.
- `compute_hash` (MD5) is not modelled. A content hash is an opaque string supplied by the caller.
- The clock (`datetime.now()`) is a string parameter `now`.
- JSON reading and writing, `os.makedirs`, `os.remove` and `os.path.exists` are not modelled. A persisted cache or progress file is given already parsed: missing, unreadable, or a document.
- `Cache.LoadCache` does not model two crash paths of `_load_cache`. A file that is not valid UTF-8 raises `UnicodeDecodeError`, which is not a `JSONDecodeError`, so it escapes the `except` (docs_crawler/cache.py:44-45, 53). Valid JSON that is not an object (`[]`, `null`, `3`) makes `data.get` raise an uncaught `AttributeError` (docs_crawler/cache.py:48). Here a file is missing, unreadable in the caught sense, or a cache document.
- `Cache.CrawlProgress.Load` does not model the same two crash paths of `load`. A `UnicodeDecodeError` escapes the `except` (docs_crawler/cache.py:173-174, 180). A non-object JSON value is first stored in `self.data` and then `self.data.get` raises `AttributeError` (docs_crawler/cache.py:174-177), leaving that value behind. Here a file is missing, unreadable in the caught sense, or a progress document.
- `Cache.CrawlProgress.Clear` does not model the deletion of the progress file.
- `RoundTrip.ExportOrderIsTitleOrder` and the round-trip lemmas it rests on (`RowRefs`, `RowsRefs`, `IndexTextRefs`, `ExportFollowsIndex`) hold only for `Linkable` results. A title with `[`, or a URL with `[` or `]` or ending in `.md`, can add or hide matches in the written index (docs_crawler/crawler.py:225 against docs_crawler/exporter.py:43); what the exporter then reads back is not described.
- `Cache.CrawlProgress.Load` assumes a readable document has all five keys. The source's `get` defaults (0 or `[]`) for missing keys are not modelled.
- `save` of the progress store is not modelled. It only writes the record to disk.
- The `md2pdf` call is not modelled. `Export.Exporter.ExportPdf` returns the path and the Markdown handed to the converter, and whether the converter is installed is a parameter.
- `docs_crawler/cli.py` and the `__main__` block of `crawl_and_convert.py` are not part of this model. They hold argument parsing, URL-list file reading and exit codes.
- `examples.py` and the tests are not part of this model.
- tqdm progress bars, logging and the unused `threading.Lock` of the script are not modelled. They hold no behaviour.
- `Crawling.Crawler.GenerateIndex` returns `None` before any page was processed. The source raises `AttributeError` there for want of `output_subdir`.
- `Crawling.Crawler.Run` processes the URLs one after another, as `crawl_and_convert.py` does with its single crawler. The script's `threading.Lock` is never used, so there is no concurrency to model.
- A folder is one `Dir` map that stands for both `os.listdir` and `os.path.exists` of the exporter. A linked name in a sub-directory, such as `sub/a.md` (docs_crawler/exporter.py:53-55), is therefore either absent or also a top-level entry of the alphabetical listing; nested directories are not modelled.
- `Cache.LoadCache` gives every current-version document a `pages` map. The source accepts a current-version document without a `pages` key and raises `KeyError` when it is used; that failure is not modelled.
