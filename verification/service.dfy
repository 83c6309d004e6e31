/**
 * `ScraperService.ScrapeContent`: look the devotional up in the cache under
 * a key made of the year and the padded date, and on a miss call the scraper
 * and store what it returns. The scraper is a function parameter; the clock
 * reading `now` serves for the lookup, the store and the response time.
 */
module Service {
  import opened Wrappers
  import opened Text
  import opened Models
  import opened Decimal
  import Cache

  /** What the scraper gives back: a record, or the message of its error. */
  datatype Scraped = Scraped(content: DevotionalContent) | ScrapeFailed(error: string)

  /** The answer of the service: the response, the error it also returns, and the cache afterwards. */
  datatype ServiceReply = ServiceReply(response: APIResponse, error: Option<string>, cache: Cache.Cache)

  const Source: string := "SABDA.org"

  /** The cache key: `sabda_`, the year, `_`, and the date padded to four characters. */
  function CacheKey(year: int, date: string): string {
    "sabda_" + IntString(year) + "_" + Pad4(date)
  }

  /** A cache key determines the year and the padded date it was made from. */
  lemma CacheKeyInjective(y1: int, d1: string, y2: int, d2: string)
    requires CacheKey(y1, d1) == CacheKey(y2, d2)
    ensures y1 == y2 && Pad4(d1) == Pad4(d2)
  {
    KeyParts("sabda_", IntString(y1), Pad4(d1), IntString(y2), Pad4(d2));
    IntStringInjective(y1, y2);
  }

  /** Two strings made of one prefix, a `_`-free part, `_` and a rest agree part by part. */
  lemma KeyParts(pre: string, a: string, p: string, b: string, q: string)
    requires '_' !in a && '_' !in b && pre + a + "_" + p == pre + b + "_" + q
    ensures a == b && p == q
  {
    var x, y := a + ['_'] + p, b + ['_'] + q;
    assert pre + a + "_" + p == pre + x;
    assert pre + b + "_" + q == pre + y;
    assert x == (pre + x)[|pre|..];
    assert y == (pre + y)[|pre|..];
    IndexOfAfter(a, '_', p);
    IndexOfAfter(b, '_', q);
    assert a == x[..|a|];
    assert b == x[..|b|];
    assert p == x[|a| + 1..];
    assert q == x[|b| + 1..];
  }

  /** The print-version address reported in the metadata. */
  function PrintUrl(year: int, formattedDate: string): string {
    "https://www.sabda.org/publikasi/e-sh/cetak/?tahun=" + IntString(year) + "&edisi=" + formattedDate
  }

  /** `ScrapingMetadata` as the service fills it: the authentication fields keep their zero values. */
  function ServiceMetadata(year: int, formattedDate: string, cached: bool, now: int): Metadata {
    Scraping(PrintUrl(year, formattedDate), Source, cached, now, false, "", "", 0)
  }

  /**
   * `ScrapeContent`: a live cache entry is returned as is; otherwise the
   * scraper's error is reported and returned, and its record is stored and
   * returned.
   */
  function ScrapeContent(cache: Cache.Cache, year: int, date: string, now: int, order: seq<string>,
                         scrape: (int, string) -> Scraped): (r: ServiceReply)
    requires Cache.IsOrder(order, cache.items)
    ensures r.error.None? <==> r.response.status == "success"
    ensures r.response.status == "success" ==> r.response.data.Some? && r.response.data.value.Devotional?
    ensures r.response.metadata.Scraping? || r.response.metadata.Fields?
  {
    var formatted := Pad4(date);
    var key := CacheKey(year, date);
    match Cache.Get(cache, key, now)
    case Some(cached) =>
      ServiceReply(APIResponse("success", "Content retrieved from cache", Some(Devotional(cached)),
                               ServiceMetadata(year, formatted, true, now)),
                   None, cache)
    case None =>
      match scrape(year, date)
      case ScrapeFailed(e) =>
        ServiceReply(APIResponse("error", "Scraping failed: " + e, None,
                                 Fields(map["url" := JStr(PrintUrl(year, formatted)),
                                            "error_type" := JStr("ScrapingException")])),
                     Some(e), cache)
      case Scraped(content) =>
        ServiceReply(APIResponse("success", "Content scraped successfully", Some(Devotional(content)),
                                 ServiceMetadata(year, formatted, false, now)),
                     None, Cache.Set(cache, key, content, now, order))
  }

  /** A hit answers from the cache, leaves it alone, and does not depend on the scraper at all. */
  lemma HitSkipsScraper(cache: Cache.Cache, year: int, date: string, now: int, order: seq<string>,
                        scrape: (int, string) -> Scraped, other: (int, string) -> Scraped)
    requires Cache.IsOrder(order, cache.items)
    requires Cache.Get(cache, CacheKey(year, date), now).Some?
    ensures var r := ScrapeContent(cache, year, date, now, order, scrape);
      && r == ScrapeContent(cache, year, date, now, order, other)
      && r.cache == cache && r.error.None?
      && r.response.data == Some(Devotional(cache.items[CacheKey(year, date)].content))
      && r.response.metadata.Scraping? && r.response.metadata.cached
  {
  }

  /** On a miss with a scraper error the error is returned and nothing is stored. */
  lemma FailureNotCached(cache: Cache.Cache, year: int, date: string, now: int, order: seq<string>,
                         scrape: (int, string) -> Scraped)
    requires Cache.IsOrder(order, cache.items)
    requires Cache.Get(cache, CacheKey(year, date), now).None? && scrape(year, date).ScrapeFailed?
    ensures var r := ScrapeContent(cache, year, date, now, order, scrape);
      && r.cache == cache && r.error == Some(scrape(year, date).error)
      && r.response.status == "error" && r.response.data.None?
  {
  }

  /**
   * On a miss the scraped record is returned uncached and stored, so that
   * a second request within the time-to-live is a hit with the same record
   * and never reaches the scraper.
   */
  lemma SecondRequestHits(cache: Cache.Cache, year: int, date: string, now: int, order: seq<string>,
                          scrape: (int, string) -> Scraped, later: int, order': seq<string>,
                          scrape': (int, string) -> Scraped)
    requires Cache.IsOrder(order, cache.items)
    requires Cache.Get(cache, CacheKey(year, date), now).None? && scrape(year, date).Scraped?
    requires now <= later && later - now <= cache.ttl
    requires Cache.IsOrder(order', ScrapeContent(cache, year, date, now, order, scrape).cache.items)
    ensures var r := ScrapeContent(cache, year, date, now, order, scrape);
      && r.response.data == Some(Devotional(scrape(year, date).content))
      && r.response.metadata.Scraping? && !r.response.metadata.cached
    ensures var r := ScrapeContent(cache, year, date, now, order, scrape);
      var r2 := ScrapeContent(r.cache, year, date, later, order', scrape');
      && r2.response.data == Some(Devotional(scrape(year, date).content))
      && r2.response.metadata.Scraping? && r2.response.metadata.cached
      && r2.cache == r.cache
  {
    var r := ScrapeContent(cache, year, date, now, order, scrape);
    Cache.GetAfterSet(cache, CacheKey(year, date), scrape(year, date).content, now, order, later);
  }
}
