/**
 * The incremental state store: the per-URL cache of content hashes that lets a
 * re-crawl skip unchanged pages, and the progress record (pending, completed and
 * failed URLs) that lets an interrupted crawl resume. Both live in JSON files; here a
 * file is given already parsed, or as missing or unreadable.
 */
module Cache {
  import opened Wrappers
  import opened Text

  const CACHE_VERSION: int := 1
  const CACHE_FILENAME: string := ".docs-crawler-cache.json"
  const PROGRESS_FILENAME: string := ".docs-crawler-progress.json"

  /**
   * One page's cache entry. A field is None when the entry lacks the key or holds
   * null; `update_page` always writes all four keys.
   */
  datatype PageInfo = PageInfo(
    contentHash: Option<string>,
    lastCrawled: Option<string>,
    etag: Option<string>,
    lastModified: Option<string>)

  /** The cache document held in memory: `{"version": ..., "pages": {url: entry}}`. */
  datatype CacheData = CacheData(version: int, pages: map<string, PageInfo>)

  /** The cache file as the loader finds it. */
  datatype StoredCache =
    | NoCacheFile
      /** `json.JSONDecodeError` or `IOError` while reading. */
    | UnreadableCache
    | CacheDocument(version: Option<int>, pages: map<string, PageInfo>)

  datatype CacheStats = CacheStats(totalPages: nat, cacheFile: string)

  /** The store `clear` and every failed load start from. */
  function EmptyCache(): CacheData {
    CacheData(CACHE_VERSION, map[])
  }

  /**
   * `CrawlCache._load_cache`: a missing file, a version other than CACHE_VERSION, or
   * a read or parse error all give an empty store at the current version; only a
   * readable document of the current version is trusted, and then entirely.
   */
  function LoadCache(stored: StoredCache): (d: CacheData)
    ensures d.version == CACHE_VERSION
    ensures stored.CacheDocument? && stored.version == Some(CACHE_VERSION) ==> d.pages == stored.pages
    ensures !(stored.CacheDocument? && stored.version == Some(CACHE_VERSION)) ==> d == EmptyCache()
  {
    match stored
    case NoCacheFile => EmptyCache()
    case UnreadableCache => EmptyCache()
    case CacheDocument(version, pages) =>
      if version != Some(CACHE_VERSION) then EmptyCache() else CacheData(CACHE_VERSION, pages)
  }

  /** The incremental-crawl cache (`CrawlCache`): `data` is the document it keeps. */
  class CrawlCache {
    const cacheDir: string
    const cacheFile: string
    var data: CacheData

    ghost predicate Valid()
      reads this
    {
      data.version == CACHE_VERSION && cacheFile == PathJoin(cacheDir, CACHE_FILENAME)
    }

    /** `CrawlCache.__init__`: the store is whatever `_load_cache` makes of the file. */
    constructor (cacheDir: string, stored: StoredCache)
      ensures Valid()
      ensures this.cacheDir == cacheDir && data == LoadCache(stored)
    {
      this.cacheDir := cacheDir;
      this.cacheFile := PathJoin(cacheDir, CACHE_FILENAME);
      this.data := LoadCache(stored);
    }

    /** `save`: the document written to the cache file, which loads back unchanged. */
    function Saved(): (doc: StoredCache)
      reads this
      requires Valid()
      ensures doc.CacheDocument? && LoadCache(doc) == data
    {
      CacheDocument(Some(data.version), data.pages)
    }

    /** `get_page_info`: the entry for `url`, if the store has one. */
    function GetPageInfo(url: string): (info: Option<PageInfo>)
      reads this
      ensures info.Some? <==> url in data.pages
      ensures info.Some? ==> info.value == data.pages[url]
    {
      if url in data.pages then Some(data.pages[url]) else None
    }

    /**
     * `is_changed`: true exactly when the store has no entry for `url` or the entry's
     * hash differs. (An entry that is an empty dict is falsy in the source and also
     * lacks a hash, so both of the source's tests agree with this one.)
     */
    function IsChanged(url: string, newContentHash: string): (changed: bool)
      reads this
      ensures changed <==> GetPageInfo(url).None? || GetPageInfo(url).value.contentHash != Some(newContentHash)
    {
      var cached := GetPageInfo(url);
      if cached.None? then true else cached.value.contentHash != Some(newContentHash)
    }

    /**
     * `update_page`: overwrites the one entry for `url`; afterwards the page is
     * unchanged with respect to `contentHash` and every other URL's entry is as before.
     */
    method UpdatePage(url: string, contentHash: string, etag: Option<string>, lastModified: Option<string>, now: string)
      requires Valid()
      modifies this
      ensures Valid()
      ensures data.pages == old(data.pages)[url := PageInfo(Some(contentHash), Some(now), etag, lastModified)]
      ensures !IsChanged(url, contentHash)
      ensures forall u :: u != url ==> GetPageInfo(u) == old(GetPageInfo(u))
    {
      data := data.(pages := data.pages[url := PageInfo(Some(contentHash), Some(now), etag, lastModified)]);
    }

    /** `remove_page`: deletes the entry for `url` only; nothing happens if it is absent. */
    method RemovePage(url: string)
      requires Valid()
      modifies this
      ensures Valid()
      ensures data.pages == old(data.pages) - {url}
      ensures GetPageInfo(url).None?
      ensures url !in old(data.pages) ==> data == old(data)
    {
      if url in data.pages {
        data := data.(pages := data.pages - {url});
      }
    }

    /** `get_cached_urls`: the URLs the store has an entry for. */
    function GetCachedUrls(): (urls: set<string>)
      reads this
      ensures forall u :: u in urls <==> GetPageInfo(u).Some?
    {
      data.pages.Keys
    }

    /** `get_stats`: `total_pages` is the number of cached URLs. */
    function GetStats(): (stats: CacheStats)
      reads this
      ensures stats.totalPages == |GetCachedUrls()|
      ensures stats.cacheFile == cacheFile
    {
      CacheStats(|data.pages|, cacheFile)
    }

    /** `clear`: back to `{version: CACHE_VERSION, pages: {}}`. */
    method Clear()
      requires Valid()
      modifies this
      ensures Valid()
      ensures data == EmptyCache() && GetCachedUrls() == {}
    {
      data := EmptyCache();
    }
  }

  /** One entry of the `failed` list: `{"url": url, "error": message or None}`. */
  datatype FailedUrl = FailedUrl(url: string, error: Option<string>)

  /** The progress document: `started_at`, `total`, `pending`, `completed`, `failed`. */
  datatype ProgressData = ProgressData(
    startedAt: string,
    total: nat,
    pending: seq<string>,
    completed: seq<string>,
    failed: seq<FailedUrl>)

  /** The progress file as `load` finds it. */
  datatype StoredProgress =
    | NoProgressFile
      /** `json.JSONDecodeError` or `IOError` while reading. */
    | UnreadableProgress
    | ProgressDocument(doc: ProgressData)

  datatype ProgressStats = ProgressStats(total: nat, completed: nat, failed: nat, pending: nat, startedAt: string)

  /** Position of the first `x` in `s`. */
  function FirstIndex(s: seq<string>, x: string): (i: nat)
    requires x in s
    ensures i < |s| && s[i] == x && x !in s[..i]
    decreases |s|
  {
    if s[0] == x then 0
    else
      var i := FirstIndex(s[1..], x);
      assert s[..i + 1] == [s[0]] + s[1..][..i];
      1 + i
  }

  /** `list.remove(x)`: drops the first occurrence of `x` and keeps the rest in order. */
  function RemoveFirst(s: seq<string>, x: string): (r: seq<string>)
    requires x in s
    ensures r == s[..FirstIndex(s, x)] + s[FirstIndex(s, x) + 1..]
    ensures multiset(r) == multiset(s) - multiset{x}
    ensures |r| == |s| - 1
  {
    var i := FirstIndex(s, x);
    assert s == s[..i] + [s[i]] + s[i + 1..];
    s[..i] + s[i + 1..]
  }

  /** The URLs recorded in a `failed` list, in order. */
  function FailedUrls(failed: seq<FailedUrl>): (urls: seq<string>)
    ensures |urls| == |failed|
    ensures forall k :: 0 <= k < |failed| ==> urls[k] == failed[k].url
  {
    seq(|failed|, k requires 0 <= k < |failed| => failed[k].url)
  }

  /**
   * The `error` argument of `mark_failed`: nothing, a message string, or an exception
   * object given by its `str()`. Exception objects are always truthy; strings only
   * when non-empty.
   */
  datatype ErrorArg = NoError | Message(text: string) | Raised(text: string)

  /** `str(error) if error else None`. */
  function ErrorText(error: ErrorArg): (text: Option<string>)
    ensures text.None? <==> error.NoError? || error == Message("")
    ensures text.Some? ==> text.value == error.text
  {
    match error
    case NoError => None
    case Message(m) => if m == "" then None else Some(m)
    case Raised(m) => Some(m)
  }

  /** `start(urls)`: every URL pending, in the given order, none completed or failed. */
  function Begin(urls: seq<string>, now: string): ProgressData {
    ProgressData(now, |urls|, urls, [], [])
  }

  /**
   * `mark_completed(url)` on a started record: the first pending occurrence of `url`
   * goes, and `url` joins `completed` unless it is already there.
   */
  function Complete(d: ProgressData, url: string): (e: ProgressData)
    ensures e.pending == if url in d.pending then RemoveFirst(d.pending, url) else d.pending
    ensures multiset(e.pending) == multiset(d.pending) - multiset{url}
    ensures url in d.completed ==> e.completed == d.completed
    ensures url !in d.completed ==> e.completed == d.completed + [url]
    ensures e.startedAt == d.startedAt && e.total == d.total && e.failed == d.failed
  {
    var pending := if url in d.pending then RemoveFirst(d.pending, url) else d.pending;
    var completed := if url in d.completed then d.completed else d.completed + [url];
    d.(pending := pending, completed := completed)
  }

  /**
   * `mark_failed(url, error)` on a started record: the first pending occurrence of
   * `url` goes and a failure entry is appended. The source guards the append with
   * `url not in failed`, a comparison of a string with the dicts the list holds,
   * which always holds: the append is unconditional.
   */
  function Fail(d: ProgressData, url: string, error: ErrorArg): (e: ProgressData)
    ensures e.pending == if url in d.pending then RemoveFirst(d.pending, url) else d.pending
    ensures multiset(e.pending) == multiset(d.pending) - multiset{url}
    ensures e.failed == d.failed + [FailedUrl(url, ErrorText(error))]
    ensures e.startedAt == d.startedAt && e.total == d.total && e.completed == d.completed
  {
    var pending := if url in d.pending then RemoveFirst(d.pending, url) else d.pending;
    d.(pending := pending, failed := d.failed + [FailedUrl(url, ErrorText(error))])
  }

  /** Every URL the record knows of: pending, then completed, then failed. */
  function Tracked(d: ProgressData): seq<string> {
    d.pending + d.completed + FailedUrls(d.failed)
  }

  ghost predicate Distinct(s: seq<string>) {
    forall x :: multiset(s)[x] <= 1
  }

  /**
   * The progress invariant for distinct started URLs each marked at most once: no URL
   * is in two places or twice in one, and the three lists account for `total`.
   */
  ghost predicate Consistent(d: ProgressData) {
    Distinct(Tracked(d)) && |Tracked(d)| == d.total
  }

  /** `start` with distinct URLs sets up the invariant and tracks exactly those URLs. */
  lemma BeginConsistent(urls: seq<string>, now: string)
    requires Distinct(urls)
    ensures Consistent(Begin(urls, now))
    ensures multiset(Tracked(Begin(urls, now))) == multiset(urls)
  {
    assert Tracked(Begin(urls, now)) == urls;
  }

  /** In a consistent record the three lists are pairwise disjoint and sum to `total`. */
  lemma ConsistentParts(d: ProgressData)
    requires Consistent(d)
    ensures |d.pending| + |d.completed| + |d.failed| == d.total
    ensures forall u :: u in d.pending ==> u !in d.completed && u !in FailedUrls(d.failed)
    ensures forall u :: u in d.completed ==> u !in FailedUrls(d.failed)
  {
    var t := Tracked(d);
    forall u | u in d.pending
      ensures u !in d.completed && u !in FailedUrls(d.failed)
    {
      assert multiset(t)[u] == multiset(d.pending)[u] + multiset(d.completed)[u] + multiset(FailedUrls(d.failed))[u];
    }
    forall u | u in d.completed
      ensures u !in FailedUrls(d.failed)
    {
      assert multiset(t)[u] == multiset(d.pending)[u] + multiset(d.completed)[u] + multiset(FailedUrls(d.failed))[u];
    }
  }

  /** A record with the same tracked URLs and total as a consistent one is consistent. */
  lemma SameTrackedConsistent(d: ProgressData, e: ProgressData)
    requires Consistent(d) && e.total == d.total
    requires multiset(Tracked(e)) == multiset(Tracked(d))
    ensures Consistent(e)
  {
    assert |multiset(Tracked(e))| == |Tracked(e)| && |multiset(Tracked(d))| == |Tracked(d)|;
  }

  /** Completing a URL that is pending and not yet completed only moves it between lists. */
  lemma CompleteTracked(d: ProgressData, url: string)
    requires url in d.pending && url !in d.completed
    ensures multiset(Tracked(Complete(d, url))) == multiset(Tracked(d))
  {
    var e := Complete(d, url);
    var p, c, f := multiset(d.pending), multiset(d.completed), multiset(FailedUrls(d.failed));
    assert e.completed == d.completed + [url];
    assert p == (p - multiset{url}) + multiset{url};
    assert multiset(Tracked(e)) == (p - multiset{url}) + (c + multiset{url}) + f;
  }

  /** Failing a pending URL only moves it between lists. */
  lemma FailTracked(d: ProgressData, url: string, error: ErrorArg)
    requires url in d.pending
    ensures multiset(Tracked(Fail(d, url, error))) == multiset(Tracked(d))
  {
    var e := Fail(d, url, error);
    var p, c, f := multiset(d.pending), multiset(d.completed), multiset(FailedUrls(d.failed));
    assert FailedUrls(e.failed) == FailedUrls(d.failed) + [url];
    assert p == (p - multiset{url}) + multiset{url};
    assert multiset(Tracked(e)) == (p - multiset{url}) + c + (f + multiset{url});
  }

  /**
   * Completing a pending URL of a consistent record moves it from `pending` to
   * `completed`: the invariant and the set of tracked URLs are preserved.
   */
  lemma CompletePreserves(d: ProgressData, url: string)
    requires Consistent(d) && url in d.pending
    ensures Consistent(Complete(d, url))
    ensures multiset(Tracked(Complete(d, url))) == multiset(Tracked(d))
    ensures url !in Complete(d, url).pending
  {
    ConsistentParts(d);
    CompleteTracked(d, url);
    SameTrackedConsistent(d, Complete(d, url));
    assert multiset(Tracked(d))[url] <= 1;
  }

  /**
   * Failing a pending URL of a consistent record moves it from `pending` to `failed`:
   * the invariant and the set of tracked URLs are preserved.
   */
  lemma FailPreserves(d: ProgressData, url: string, error: ErrorArg)
    requires Consistent(d) && url in d.pending
    ensures Consistent(Fail(d, url, error))
    ensures multiset(Tracked(Fail(d, url, error))) == multiset(Tracked(d))
    ensures url !in Fail(d, url, error).pending
  {
    FailTracked(d, url, error);
    SameTrackedConsistent(d, Fail(d, url, error));
    assert multiset(Tracked(d))[url] <= 1;
  }

  /** A consistent record is complete exactly when completed and failed account for `total`. */
  lemma CompleteWhenAccounted(d: ProgressData)
    requires Consistent(d)
    ensures d.pending == [] <==> |d.completed| + |d.failed| == d.total
  {
    ConsistentParts(d);
  }

  /** Marking a URL completed twice is marking it once, when it is pending at most once. */
  lemma CompleteIdempotent(d: ProgressData, url: string)
    requires multiset(d.pending)[url] <= 1
    ensures Complete(Complete(d, url), url) == Complete(d, url)
  {
    var e := Complete(d, url);
    assert multiset(e.pending)[url] == 0;
  }

  /** `list.remove` takes one occurrence only: a URL pending twice needs two completions. */
  lemma CompleteRemovesOneOccurrence(d: ProgressData, url: string)
    requires d.pending == [url, url]
    ensures Complete(d, url).pending == [url]
    ensures Complete(Complete(d, url), url).pending == []
  {
    assert FirstIndex([url, url], url) == 0;
    assert FirstIndex([url], url) == 0;
  }

  /** The dedupe guard of `mark_failed` never fires: failing a URL twice records it twice. */
  lemma FailTwiceRecordsTwice(d: ProgressData, url: string, error: ErrorArg)
    ensures Fail(Fail(d, url, error), url, error).failed
      == d.failed + [FailedUrl(url, ErrorText(error)), FailedUrl(url, ErrorText(error))]
  {
  }

  /** The resumable crawl record (`CrawlProgress`): `data` is None until started or loaded. */
  class CrawlProgress {
    const progressDir: string
    const progressFile: string
    var data: Option<ProgressData>

    /** `CrawlProgress.__init__`: uninitialised. */
    constructor (progressDir: string)
      ensures this.progressDir == progressDir && progressFile == PathJoin(progressDir, PROGRESS_FILENAME)
      ensures data == None
    {
      this.progressDir := progressDir;
      this.progressFile := PathJoin(progressDir, PROGRESS_FILENAME);
      this.data := None;
    }

    /**
     * `load`: a readable file becomes the record and is returned; a missing or corrupt
     * file gives None and leaves the record as it was.
     */
    method Load(stored: StoredProgress) returns (loaded: Option<ProgressData>)
      modifies this
      ensures stored.ProgressDocument? ==> loaded == Some(stored.doc) && data == loaded
      ensures !stored.ProgressDocument? ==> loaded == None && data == old(data)
    {
      match stored
      case NoProgressFile =>
        loaded := None;
      case UnreadableProgress =>
        loaded := None;
      case ProgressDocument(doc) =>
        data := Some(doc);
        loaded := data;
    }

    /** `start(urls)`: a fresh record; with distinct URLs it satisfies the invariant. */
    method Start(urls: seq<string>, now: string)
      modifies this
      ensures data == Some(Begin(urls, now))
      ensures data.value.total == |urls| && data.value.pending == urls
      ensures data.value.completed == [] && data.value.failed == []
      ensures Distinct(urls) ==> Consistent(data.value)
    {
      data := Some(ProgressData(now, |urls|, urls, [], []));
      if Distinct(urls) {
        BeginConsistent(urls, now);
      }
    }

    /** `mark_completed(url)`: a no-op when uninitialised. */
    method MarkCompleted(url: string)
      modifies this
      ensures old(data).None? ==> data == None
      ensures old(data).Some? ==> data == Some(Complete(old(data).value, url))
      ensures old(data).Some? && Consistent(old(data).value) && url in old(data).value.pending
        ==> Consistent(data.value)
    {
      if data.Some? {
        var d := data.value;
        var pending := d.pending;
        if url in pending {
          pending := RemoveFirst(pending, url);
        }
        var completed := d.completed;
        if url !in completed {
          completed := completed + [url];
        }
        data := Some(d.(pending := pending, completed := completed));
        if Consistent(d) && url in d.pending {
          CompletePreserves(d, url);
        }
      }
    }

    /** `mark_failed(url, error)`: a no-op when uninitialised; see Fail for the guard. */
    method MarkFailed(url: string, error: ErrorArg)
      modifies this
      ensures old(data).None? ==> data == None
      ensures old(data).Some? ==> data == Some(Fail(old(data).value, url, error))
      ensures old(data).Some? && Consistent(old(data).value) && url in old(data).value.pending
        ==> Consistent(data.value)
    {
      if data.Some? {
        var d := data.value;
        var pending := d.pending;
        if url in pending {
          pending := RemoveFirst(pending, url);
        }
        data := Some(d.(pending := pending, failed := d.failed + [FailedUrl(url, ErrorText(error))]));
        if Consistent(d) && url in d.pending {
          FailPreserves(d, url, error);
        }
      }
    }

    /** `get_pending_urls`: the work queue left, empty when uninitialised. */
    function GetPendingUrls(): (urls: seq<string>)
      reads this
      ensures data.None? ==> urls == []
      ensures data.Some? ==> urls == data.value.pending
    {
      if data.None? then [] else data.value.pending
    }

    /** `get_stats`: None when uninitialised; on a consistent record the counts add up to `total`. */
    function GetStats(): (stats: Option<ProgressStats>)
      reads this
      ensures stats.Some? <==> data.Some?
      ensures data.Some? ==> stats.value.pending == |GetPendingUrls()| && stats.value.total == data.value.total
      ensures data.Some? ==> stats.value.completed == |data.value.completed| && stats.value.failed == |data.value.failed|
      ensures data.Some? ==> stats.value.startedAt == data.value.startedAt
      ensures data.Some? && Consistent(data.value)
        ==> stats.value.pending + stats.value.completed + stats.value.failed == stats.value.total
    {
      if data.None? then None
      else
        var d := data.value;
        assert Consistent(d) ==> |d.pending| + |d.completed| + |d.failed| == d.total by {
          if Consistent(d) { ConsistentParts(d); }
        }
        Some(ProgressStats(d.total, |d.completed|, |d.failed|, |d.pending|, d.startedAt))
    }

    /**
     * `is_complete`: true when uninitialised or nothing is pending; on a consistent
     * record, exactly when completed and failed account for every started URL.
     */
    function IsComplete(): (complete: bool)
      reads this
      ensures data.None? ==> complete
      ensures data.Some? ==> (complete <==> GetPendingUrls() == [])
      ensures data.Some? && Consistent(data.value)
        ==> (complete <==> |data.value.completed| + |data.value.failed| == data.value.total)
    {
      if data.None? then true
      else
        assert Consistent(data.value) ==> (data.value.pending == [] <==> |data.value.completed| + |data.value.failed| == data.value.total) by {
          if Consistent(data.value) { CompleteWhenAccounted(data.value); }
        }
        |data.value.pending| == 0
    }

    /** `clear`: the record returns to uninitialised (the file removal is not modelled). */
    method Clear()
      modifies this
      ensures data == None && IsComplete() && GetStats() == None
    {
      data := None;
    }
  }
}
