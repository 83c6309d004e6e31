/**
 * The records the Go service passes around (internal/models/response.go):
 * the extracted devotional, a cache entry and a client's request window.
 * Times are integers on one clock (for instance nanoseconds).
 */
module Models {
  import opened Wrappers
  import opened Text
  import opened Words

  /** The extracted record; its JSON field names are the service's contract. */
  datatype DevotionalContent = DevotionalContent(
    title: string,
    scriptureReference: string,
    devotionalTitle: string,
    devotionalContent: seq<string>,
    fullText: string,
    wordCount: int,
    paragraphCount: int)

  /** A cached record and the time it was stored. */
  datatype CacheItem = CacheItem(content: DevotionalContent, timestamp: int)

  /** The request times recorded for one client. */
  datatype RateLimitInfo = RateLimitInfo(requests: seq<int>, clientIP: string)

  /** A value of a free-form metadata map. */
  datatype JsonValue = JStr(str: string) | JInt(num: int) | JTime(time: int)

  /** What the service attaches to a response. */
  datatype Metadata =
    | NoMetadata
      /** Go's `ScrapingMetadata`. */
    | Scraping(url: string, source: string, cached: bool, scrapedAt: int,
               authenticated: bool, authMethod: string, clientIP: string, requestTimestamp: int)
      /** Go's `AuthMetadata`. */
    | Auth(timestamp: int, expiresAt: int)
      /** A `map[string]interface{}` built in place. */
    | Fields(entries: map<string, JsonValue>)

  /** What a response carries as `data`: a devotional, or an issued token (`AuthResponse`). */
  datatype Payload =
    | Devotional(content: DevotionalContent)
    | Token(token: string, tokenType: string, expiresIn: int)

  /** Go's `APIResponse`; `data` is `omitempty`. */
  datatype APIResponse = APIResponse(status: string, message: string,
                                     data: Option<Payload>, metadata: Metadata)

  /** The last paragraph, or nothing for no paragraphs (`buildFullText`). */
  function BuildFullText(paragraphs: seq<string>): string {
    if |paragraphs| == 0 then "" else paragraphs[|paragraphs| - 1]
  }

  /**
   * The record invariant: the paragraph count is the number of paragraphs,
   * the full text is the last paragraph (or empty), and the word count is
   * the whitespace-token count of the full text.
   */
  predicate WellFormed(c: DevotionalContent) {
    && c.paragraphCount == |c.devotionalContent|
    && (c.devotionalContent == [] ==> c.fullText == "")
    && (c.devotionalContent != [] ==> c.fullText == c.devotionalContent[|c.devotionalContent| - 1])
    && c.wordCount == WordCount(c.fullText, GoSpace)
  }

  /** The tail of the extraction closure: derived text and counts from the paragraphs. */
  function MakeContent(title: string, scriptureReference: string, devotionalTitle: string,
                       paragraphs: seq<string>): (c: DevotionalContent)
    ensures WellFormed(c)
    ensures c.title == title && c.scriptureReference == scriptureReference
    ensures c.devotionalTitle == devotionalTitle && c.devotionalContent == paragraphs
  {
    var full := BuildFullText(paragraphs);
    DevotionalContent(title, scriptureReference, devotionalTitle, paragraphs,
                      full, WordCount(full, GoSpace), |paragraphs|)
  }
}
