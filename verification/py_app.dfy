/**
 * The `/api/sabda` endpoint of `app.py` (`get_sabda_content`) and the
 * scraping calls behind it. The query arrives parsed as Flask's
 * `request.args.get` leaves it: the year as an integer or `None`, the date
 * as a string or `None`. The fetch of the print-version page is a
 * function from the address to what came back, and the clock readings
 * are parameters. Python's `re` `\d` matches every Unicode decimal digit,
 * so the digit class is a parameter too.
 */
module PyApp {
  import opened Wrappers
  import opened Text
  import opened Decimal
  import opened PyResponse
  import opened PyExtract

  /** What fetching and parsing the page gave: its title and text, or the failure and its message. */
  datatype Fetch =
    | Fetched(title: Option<string>, text: string)
    | RequestFailed(reason: string)
    | Failed(reason: string)

  /** What a scrape returns before it becomes a dictionary: status, message, content and metadata. */
  datatype ScrapeResult = ScrapeResult(status: string, message: string, data: Option<PyContent>,
                                       metadata: map<string, PyValue>)

  /** The dictionary `create_response` makes of a scrape result. */
  function Response(r: ScrapeResult): (d: map<string, PyValue>)
    ensures "status" in d && d["status"] == PyStr(r.status)
    ensures "data" in d <==> r.data.Some?
    ensures "metadata" in d && d["metadata"] == PyDict(r.metadata)
  {
    CreateResponse(PyStr(r.status), PyStr(r.message),
                   match r.data case Some(c) => ContentValue(c) case None => PyNone,
                   PyDict(r.metadata))
  }

  /** The metadata of a failed scrape: the address tried and the kind of failure. */
  function FailureMetadata(url: string, errorType: string): (m: map<string, PyValue>)
    ensures "url" in m && m["url"] == PyStr(url)
  {
    map["url" := PyStr(url), "error_type" := PyStr(errorType)]
  }

  /** The metadata of a successful scrape in `app.py`. */
  function AppMetadata(url: string, scrapedAt: string): (m: map<string, PyValue>)
    ensures "url" in m && m["url"] == PyStr(url)
  {
    map["url" := PyStr(url), "scraped_at" := PyStr(scrapedAt), "source" := PyStr("SABDA.org")]
  }

  /** The metadata of a successful scrape in the service: the article address, the copyright line and the provider too. */
  function ServiceMetadata(url: string, source: string, scrapedAt: string, nowYear: int): (m: map<string, PyValue>)
    ensures "url" in m && m["url"] == PyStr(url)
    ensures "source" in m && m["source"] == PyStr(source)
  {
    map["url" := PyStr(url), "source" := PyStr(source),
        "scraped_at" := PyStr(scrapedAt),
        "copyright" := PyStr(CopyrightStart + IntString(nowYear) + " Yayasan Lembaga SABDA (YLSA)."),
        "provider" := PyStr("SABDA.org")]
  }

  /**
   * `scrape_sabda_content` of `app.py`: fetch the print version for the
   * year and the zero-filled date, extract it with `app.py`'s extractor,
   * or report the request failure or other failure.
   */
  function ScrapeApp(year: int, date: string, fetch: string -> Fetch, scrapedAt: string): (r: ScrapeResult)
    ensures r.status == "success" <==> fetch(PrintUrl(year, date)).Fetched?
    ensures r.status in {"success", "error"}
    ensures r.data.Some? <==> r.status == "success"
    ensures "url" in r.metadata && r.metadata["url"] == PyStr(PrintUrl(year, date))
    ensures r.data.Some? ==>
      var f := fetch(PrintUrl(year, date)); r.data.value == ExtractContentApp(f.title, f.text)
  {
    var url := PrintUrl(year, date);
    match fetch(url)
    case Fetched(title, text) =>
      ScrapeResult("success", "Content scraped successfully", Some(ExtractContentApp(title, text)),
                   AppMetadata(url, scrapedAt))
    case RequestFailed(e) =>
      ScrapeResult("error", "Request failed: " + e, None, FailureMetadata(url, "RequestException"))
    case Failed(e) =>
      ScrapeResult("error", "Scraping failed: " + e, None, FailureMetadata(url, "GeneralException"))
  }

  const CopyrightStart: string := "Copyright © 1997-"

  /**
   * `scrape_sabda_content` of the service (app/services/scraper.py): the
   * same, with the service's extractor and the article address, copyright
   * line and provider in the metadata.
   */
  function ScrapeService(year: int, date: string, fetch: string -> Fetch, scrapedAt: string, nowYear: int): (r: ScrapeResult)
    ensures r.status == "success" <==> fetch(PrintUrl(year, date)).Fetched?
    ensures r.data.Some? <==> r.status == "success"
    ensures "url" in r.metadata && r.metadata["url"] == PyStr(PrintUrl(year, date))
    ensures r.status == "success" ==>
      "source" in r.metadata && r.metadata["source"] == PyStr(SourceUrl(year, date))
    ensures r.data.Some? ==>
      var f := fetch(PrintUrl(year, date)); r.data.value == ExtractContent(f.title, f.text)
  {
    var url := PrintUrl(year, date);
    match fetch(url)
    case Fetched(title, text) =>
      ScrapeResult("success", "Content scraped successfully", Some(ExtractContent(title, text)),
                   ServiceMetadata(url, SourceUrl(year, date), scrapedAt, nowYear))
    case RequestFailed(e) =>
      ScrapeResult("error", "Request failed: " + e, None, FailureMetadata(url, "RequestException"))
    case Failed(e) =>
      ScrapeResult("error", "Scraping failed: " + e, None, FailureMetadata(url, "GeneralException"))
  }

  /** The two scrapers fetch the same address and fail the same way; they differ only in what a page becomes. */
  lemma ScrapersAgreeOnFailure(year: int, date: string, fetch: string -> Fetch, scrapedAt: string, nowYear: int)
    requires !fetch(PrintUrl(year, date)).Fetched?
    ensures ScrapeService(year, date, fetch, scrapedAt, nowYear) == ScrapeApp(year, date, fetch, scrapedAt)
  {
  }

  // ---- The endpoint ----

  const YearRequired: string := "Year parameter is required (e.g., ?year=2025)"
  const DateRequired: string := "Date parameter is required in MMDD format (e.g., ?date=0902)"
  const DateFormat: string := "Date must be in MMDD format (e.g., 0902 for September 2nd)"

  function YearRange(currentYear: int): string {
    "Year must be between 2000 and " + IntString(currentYear + 1)
  }

  /**
   * `re.match(r'^\d{4}$', date)`: four digits of the class, where `$` also
   * matches before a newline that ends the text.
   */
  predicate FourDigits(date: string, isDigit: char -> bool) {
    var core := if |date| == 5 && date[4] == '\n' then date[..4] else date;
    |core| == 4 && forall i :: 0 <= i < 4 ==> isDigit(core[i])
  }

  /** The checks in order; the first that fails gives its message. */
  function Validate(year: Option<int>, date: Option<string>, currentYear: int, isDigit: char -> bool)
    : (r: Result<(int, string), string>)
    ensures r.Ok? <==>
      && year.Some? && year.value != 0 && date.Some? && date.value != ""
      && 2000 <= year.value <= currentYear + 1 && FourDigits(date.value, isDigit)
    ensures r.Ok? ==> r.value == (year.value, date.value)
    ensures r.Err? ==> r.error in {YearRequired, DateRequired, YearRange(currentYear), DateFormat}
  {
    if year.None? || year.value == 0 then Err(YearRequired)
    else if date.None? || date.value == "" then Err(DateRequired)
    else if year.value < 2000 || year.value > currentYear + 1 then Err(YearRange(currentYear))
    else if !FourDigits(date.value, isDigit) then Err(DateFormat)
    else Ok((year.value, date.value))
  }

  /** A status code and the JSON body. */
  datatype Reply = Reply(status: int, body: map<string, PyValue>)

  /** The metadata of a successful scrape with the authentication fields added. */
  function Authenticated(metadata: map<string, PyValue>): (m: map<string, PyValue>)
    ensures m.Keys == metadata.Keys + {"authenticated", "auth_method"}
    ensures m["authenticated"] == PyBool(true) && m["auth_method"] == PyStr("JWT")
    ensures forall k :: k in metadata && k !in {"authenticated", "auth_method"} ==> m[k] == metadata[k]
  {
    metadata["authenticated" := PyBool(true)]["auth_method" := PyStr("JWT")]
  }

  /**
   * `get_sabda_content`: a failed check is 400 with only status and
   * message; otherwise the scrape, with the authentication fields added to
   * a successful scrape's metadata, is 200 on success and 500 otherwise.
   */
  function GetSabdaContent(year: Option<int>, date: Option<string>, currentYear: int, isDigit: char -> bool,
                           fetch: string -> Fetch, scrapedAt: string): (r: Reply)
    ensures r.status in {200, 400, 500}
    ensures r.status == 400 <==> Validate(year, date, currentYear, isDigit).Err?
    ensures r.status == 400 ==>
      r.body == map["status" := PyStr("error"), "message" := PyStr(Validate(year, date, currentYear, isDigit).error)]
    ensures r.status == 200 <==>
      Validate(year, date, currentYear, isDigit).Ok? && fetch(PrintUrl(year.value, date.value)).Fetched?
    ensures r.status == 200 ==>
      && "metadata" in r.body && r.body["metadata"].PyDict?
      && "authenticated" in r.body["metadata"].entries && r.body["metadata"].entries["authenticated"] == PyBool(true)
      && "auth_method" in r.body["metadata"].entries && r.body["metadata"].entries["auth_method"] == PyStr("JWT")
  {
    match Validate(year, date, currentYear, isDigit)
    case Err(message) => Reply(400, CreateResponse(PyStr("error"), PyStr(message), PyNone, PyNone))
    case Ok((y, d)) =>
      var result := ScrapeApp(y, d, fetch, scrapedAt);
      if result.status == "success" then Reply(200, Response(result.(metadata := Authenticated(result.metadata))))
      else Reply(500, Response(result))
  }

  /** A request that fails validation never reaches the site: the reply is the same whatever the fetch would give. */
  lemma InvalidSkipsFetch(year: Option<int>, date: Option<string>, currentYear: int, isDigit: char -> bool,
                          fetch: string -> Fetch, other: string -> Fetch, scrapedAt: string)
    requires Validate(year, date, currentYear, isDigit).Err?
    ensures GetSabdaContent(year, date, currentYear, isDigit, fetch, scrapedAt) ==
            GetSabdaContent(year, date, currentYear, isDigit, other, scrapedAt)
  {
  }

  /** A successful reply carries the content `app.py`'s extractor made of the fetched page, readable back. */
  lemma SuccessCarriesContent(year: Option<int>, date: Option<string>, currentYear: int, isDigit: char -> bool,
                              fetch: string -> Fetch, scrapedAt: string)
    requires GetSabdaContent(year, date, currentYear, isDigit, fetch, scrapedAt).status == 200
    ensures var body := GetSabdaContent(year, date, currentYear, isDigit, fetch, scrapedAt).body;
      var f := fetch(PrintUrl(year.value, date.value));
      "data" in body && ReadContent(body["data"]) == Some(ExtractContentApp(f.title, f.text))
  {
    var f := fetch(PrintUrl(year.value, date.value));
    ContentRoundTrip(ExtractContentApp(f.title, f.text));
  }

  /** `not year` is also true of the year 0, which is reported as missing rather than out of range. */
  lemma YearZeroIsMissing(date: Option<string>, currentYear: int, isDigit: char -> bool)
    ensures Validate(Some(0), date, currentYear, isDigit) == Err(YearRequired)
  {
  }

  /** Only the first missing parameter is reported. */
  lemma BothMissingReportsYear(currentYear: int, isDigit: char -> bool)
    ensures Validate(None, None, currentYear, isDigit) == Err(YearRequired)
    ensures Validate(Some(2024), None, currentYear, isDigit) == Err(DateRequired)
  {
  }

  /** Four ASCII digits pass the format check whatever month and day they spell. */
  lemma AsciiDigitsAccepted(date: string, isDigit: char -> bool)
    requires forall c :: IsAsciiDigit(c) ==> isDigit(c)
    requires |date| == 4 && AllDigits(date)
    ensures FourDigits(date, isDigit)
  {
    assert forall i :: 0 <= i < 4 ==> IsAsciiDigit(date[i]);
  }

  /** A month of 99 passes: unlike the Go handler, the endpoint does not check month and day. */
  lemma NoMonthCheck(currentYear: int, isDigit: char -> bool)
    requires forall c :: IsAsciiDigit(c) ==> isDigit(c)
    requires currentYear >= 2024
    ensures Validate(Some(2024), Some("9999"), currentYear, isDigit) == Ok((2024, "9999"))
  {
    AsciiDigitsAccepted("9999", isDigit);
  }

  /** A date with a final newline passes the format check, and the newline goes into the address fetched. */
  lemma TrailingNewlineAccepted(currentYear: int, isDigit: char -> bool)
    requires forall c :: IsAsciiDigit(c) ==> isDigit(c)
    requires currentYear >= 2024
    ensures Validate(Some(2024), Some("0902\n"), currentYear, isDigit) == Ok((2024, "0902\n"))
    ensures Zfill("0902\n", 4) == "0902\n"
  {
    var d := "0902\n";
    assert d[..4] == "0902";
    assert IsAsciiDigit(d[0]) && IsAsciiDigit(d[1]) && IsAsciiDigit(d[2]) && IsAsciiDigit(d[3]);
  }
}
