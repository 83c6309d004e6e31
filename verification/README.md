# SABDA scraper: a verified model of its extraction, caching and request handling

The SABDA scraper fetches the daily devotional *Santapan Harian* from
sabda.org and turns the page into a record: the page title, the scripture
reference, the devotional title, the paragraphs, the full text and the
counts. There are two implementations. The Go service has a heuristic
extractor, a TTL cache, a sliding-window rate limiter and Fiber handlers.
The older Python/Flask service has a line-grouping extractor.

This project models the decision logic of both as pure Dafny functions
over immutable datatypes and proves what it does:

- **Go extractor** (`pkg/scraper/scraper.go`):
  - the region choice among `aside.w`, `td.wj`, the longest `table td` and `body`;
  - the line cleaning;
  - the three reference patterns and the heading rule for the devotional title;
  - `extractDevotionalTitle`, the paragraph-element filter and the text segmentation fallback;
  - `buildFullText` and the derived counts;
  - the two boilerplate predicates.

  Every regular expression is a hand-written matcher with a proved
  specification. The leftmost-first search, `\b`, the lazy groups and the
  replacements follow RE2.
- **Cache** (`internal/services/cache.go`): a record holding a map, the TTL
  and the size limit. It covers `Get` with lazy expiry, `Set` with eviction
  of the oldest entry, `Clear` and one pass of the expiry sweep.
- **Rate limiter** (`internal/services/ratelimit.go`): a map from client to
  request times. It covers `IsAllowed`, `GetRequestCount`, `Reset`, `Clear`
  and one pass of the cleanup sweep.
- **Go glue**:
  - cache-through scraping with its cache key (`internal/services/scraper.go`);
  - query validation, the status choice and `joinStrings` (`internal/handlers/sabda.go`);
  - `getClientIP`, bearer-token stripping and the order of checks in `AuthMiddleware` and `GetToken` (`internal/handlers/auth.go`).
- **Python service**:
  - the two `extract_content` versions, in `app.py` and in `app/services/scraper.py`;
  - the five donation removals and the whitespace passes of the paragraph cleaning;
  - `zfill` and the addresses;
  - `create_response`;
  - the validation and reply of `get_sabda_content`.

The clock, the HTML parser, the page fetch, the scraper behind the service,
the token verifier and issuer, and the order in which Go visits a map are
all parameters. Go's `len` counts UTF-8 bytes (`Text.ByteLen`). Python's
`len` counts code points (`|s|`). There are three notions of whitespace:
Go's `unicode.IsSpace`, RE2's `\s` and Python's `str.isspace`.

Two points where the code and its written description differ follow the
code:

- The title fallback is `"SABDA Devotional"`, not `"Devotional"`.
- `Set` evicts when the map holds `maxSize` entries or more, counting expired
  entries, even when the key is already present. It does not evict only for
  a new key and only among live entries.

## Model

| member | source | states |
|---|---|---|
| Titles.PageTitle | pkg/scraper/scraper.go:104-108 | The title is never empty and already trimmed. It is the trimmed `<title>` text when that is non-empty, and `"SABDA Devotional"` otherwise. |
| Extract.LastAside | pkg/scraper/scraper.go:114-122 | The aside chosen has paragraph elements and no later aside has any, because the `return` in `Each` does not stop the loop. None is chosen exactly when no aside has paragraphs. |
| Extract.CellLengths | pkg/scraper/scraper.go:132-134 | One length per cell: the byte length of its trimmed text. |
| Extract.LongestCell | pkg/scraper/scraper.go:128-141 | The chosen cell has the greatest trimmed length and is the first of that length. There is none exactly when every cell trims to the empty string. |
| Extract.LongestFromSpec | pkg/scraper/scraper.go:130-138 | The strictly-greater loop, from any state it can reach, ends on the first position of maximal non-zero length. |
| Extract.SelectRegionNil | pkg/scraper/scraper.go:125-148 | The written selection yields no region exactly when there is no aside with paragraphs, no `td.wj` cell, and all table cells are blank. In every other case the corrected selection picks the same region. |
| Extract.CleanTextLines | pkg/scraper/scraper.go:158-166 | Each surviving line is a non-empty trimmed line of the region text that is not header text once lower-cased. Splitting `cleanText` at newlines gives exactly the surviving lines. |
| Extract.ReferenceShape | pkg/scraper/scraper.go:175-191 | A non-empty reference runs from a letter to a digit. One taken from the cleaned text, without an `h1` or when the `h1` has none, always has a `:verse` part. One from the `h1` may be chapter-only. |
| Scripture.HeadingReferenceShape | pkg/scraper/scraper.go:176-183 | The `h1` match is letters, whitespace and a chapter number, with an optional `:verse` or `:verse-verse`. |
| Scripture.VerseReferenceShape | pkg/scraper/scraper.go:186-191 | The cleaned-text match is `book chapter:verse` or `book chapter:verse-verse`. |
| Scripture.EndsExact | pkg/scraper/scraper.go:179 | The candidate end positions are exactly the positions where the reference core can end, listed longest first, as a backtracking engine tries them. |
| Scripture.MatchAtSpec | pkg/scraper/scraper.go:179-181 | At one start the matcher finds the longest accepted core. It finds one exactly when the pattern matches there. |
| Scripture.FindSpec | pkg/scraper/scraper.go:180-189 | The search is leftmost-first: the first start where the pattern matches, the longest core there, and nothing exactly when the pattern matches nowhere. |
| Scripture.FirstAccepted | pkg/scraper/scraper.go:179 | The chosen end is accepted by the trailing `\b`. None is chosen only when no end is accepted. Over a descending list it is the greatest accepted end. |
| Scripture.First | pkg/scraper/scraper.go:180 | The first start at or after `from` that has a match, with no match before it. None is returned only when no start matches. |
| Scripture.LeadingReference | pkg/scraper/scraper.go:203-207 | The reference anchored at the start of the heading begins with a letter and ends with a digit. |
| Titles.ResolveHeading | pkg/scraper/scraper.go:197-228 | The heading title is trimmed. A reference already known is kept. Without one, the reference becomes the one at the start of the trimmed heading, which is non-empty, or stays empty when there is none. The title is the residual heading (with a known reference removed, or the text after a leading one) stripped of `-digits` and trimmed when it is over 3 bytes. Otherwise, when the trimmed heading (less a known reference) is over 3 bytes, it is that heading with `-digits` stripped and trimmed. Otherwise it is the short residual. |
| Titles.HeadingResidual | pkg/scraper/scraper.go:201-212 | With a known reference, the residual is the trimmed heading without its occurrences. Without one, it is the trimmed text after a leading reference, or empty when the heading has none. |
| Titles.DevotionalTitle | pkg/scraper/scraper.go:197-234 | An empty heading title means the text scan was asked and also found none. Without an `h1`, the title comes from `extractDevotionalTitle` alone. With an `h1` whose resolved title is not empty, the resolved heading is the answer. When it is empty, the reference stays and the title comes from `extractDevotionalTitle` with that reference. |
| Rewrites.StripDashNumber | pkg/scraper/scraper.go:217 | `^-\d+` removes a prefix. Something is removed exactly when the text starts with `-` and a digit, and then it is the dash and the whole digit run. |
| Titles.TitleAfterRef | pkg/scraper/scraper.go:281-282 | The group of the leftmost `ref([A-Za-z][^,.\n]*?)(?:\s\|$)` match starts with a letter and holds no stop character. None is returned exactly when no position matches. A group found is the one at the leftmost matching position. |
| Titles.StopFrom | pkg/scraper/scraper.go:281 | The lazy run stops at the first whitespace, `,` or `.` at or after the start, or at the end of the text. |
| Titles.CleanRefTitleIsTrim | pkg/scraper/scraper.go:284-288 | On such a group the four clean-up steps amount to one trim. The result starts with the same letter and holds no RE2 whitespace. |
| Rewrites.StripNumberPrefix | pkg/scraper/scraper.go:286 | `^-?\d*` removes a prefix, after which the text does not start with a digit. Text that starts with a letter is unchanged. |
| Titles.FirstTitleLine | pkg/scraper/scraper.go:296-319 | Any line returned is a trimmed input line that passes every skip test and matches `^[A-Z][a-zA-Z\s!?]*$`. `""` is returned exactly when no trimmed line does. |
| Titles.ExtractDevotionalTitle | pkg/scraper/scraper.go:276-320 | When the reference is known and its reference-title group cleans to 3 to 99 bytes, that cleaned group is the answer. Otherwise the answer is the first title line, or empty when there is none. A title line has 3 to 50 bytes, starts with a capital, and is free of the blocked words and of the reference. |
| Titles.NoRefNoTitle | pkg/scraper/scraper.go:309 | With an empty reference no title is ever found, since every line contains `""`. |
| Paragraphs.StructuralTextSpec | pkg/scraper/scraper.go:326-352 | A `p` element is kept exactly when its trimmed text is non-empty, it is not centred, not donation text and at least 50 bytes. The kept text keeps its visible characters and has no two adjacent whitespace characters. |
| Paragraphs.NbspTrimmedAway | pkg/scraper/scraper.go:327-330 | A trimmed text is never a lone no-break space, so the `" "` test never fires. |
| Rewrites.CollapseSpacesSpec | pkg/scraper/scraper.go:350 | `\s{2,}` to `" "` keeps every visible character in order and leaves no two whitespace characters adjacent. |
| Rewrites.CollapseSpacesIdempotent | pkg/scraper/scraper.go:350 | Collapsing twice gives the same text as collapsing once. A text with no double whitespace is left alone. |
| Rewrites.TagStartSpec | pkg/scraper/scraper.go:364 | The tag scan finds the leftmost position where `\s*\[[\w\s]+\]\s*$` matches, and finds one exactly when the pattern matches. |
| Rewrites.StripTrailingTagSpec | pkg/scraper/scraper.go:364 | The rewrite removes exactly the matched trailing tag, keeps what precedes it, and leaves tag-free text alone. |
| Paragraphs.Tidy | pkg/scraper/scraper.go:362-369 | A paragraph kept by the tidying pass is trimmed and longer than 50 bytes. |
| Paragraphs.TidyWithoutTag | pkg/scraper/scraper.go:364-369 | Without a trailing tag, tidying only trims and applies the length test. |
| Paragraphs.ExtractParagraphs | pkg/scraper/scraper.go:322-373 | Every paragraph returned, from the element filter or from the text fallback, is trimmed and longer than 50 bytes. When the filter keeps at most one element, the tidied text fallback is the answer. Otherwise the tidied kept texts are. |
| Paragraphs.TidyAll | pkg/scraper/scraper.go:361-372 | A paragraph is in the result exactly when `Tidy` keeps it from one of the inputs: the input without a trailing `[tag]`, trimmed, and over 50 bytes. |
| Paragraphs.ExtractParagraphsAsWritten | pkg/scraper/scraper.go:355-358 | The written version panics exactly when the element filter keeps at most one paragraph and the region's content exceeds 300 bytes. |
| Paragraphs.FilterMapMembers | pkg/scraper/scraper.go:326-352 | A value is in the filter's result exactly when some element yields it. |
| Paragraphs.FilterMapAppend | pkg/scraper/scraper.go:326-352 | The element filter treats each element on its own: it distributes over concatenation. |
| Paragraphs.ExtractParagraphsAgrees | pkg/scraper/scraper.go:355-358 | Whenever the written version completes (no panic), it equals the corrected version, for every splitter. |
| Segmentation.TrimLines | pkg/scraper/scraper.go:382-383 | One trimmed line per input line, in order. |
| Segmentation.ScanSpec | pkg/scraper/scraper.go:382-409 | The scan drops every line up to and including the first Gospel line. It stops at the first donation line after it. It keeps the lines in between that are not header text and exceed 15 bytes. |
| Segmentation.ScanStarted | pkg/scraper/scraper.go:395-408 | Once the anchor has been passed, the scan keeps the lines that qualify before the first stop line. |
| Segmentation.KeepLinesMembers | pkg/scraper/scraper.go:400-408 | A line is kept exactly when it is an input line that is not header text and exceeds 15 bytes. |
| Segmentation.ContentTextEmpty | pkg/scraper/scraper.go:412 | `contentText` is empty exactly when no line survives the scan. |
| Segmentation.GroupFromSpec | pkg/scraper/scraper.go:417-435 | The closed groups followed by the buffer are exactly the trimmed non-empty sentences. Each closed group exceeds 200 bytes and would not without its last sentence. |
| Segmentation.GroupSentencesSpec | pkg/scraper/scraper.go:414-443 | Every paragraph of the grouping but the last exceeds 200 bytes and the last exceeds 100. The paragraphs are joins of consecutive sentences, in order. |
| Segmentation.Fallback | pkg/scraper/scraper.go:447-463 | Empty content or more than one paragraph changes nothing. Otherwise more than 150 words give three non-empty parts whose words, in order, are the content's words, and 150 or fewer give the one trimmed content. |
| Segmentation.ThirdsKeepWords | pkg/scraper/scraper.go:448-459 | The three thirds are non-empty and split back into exactly the words of the content, in order. |
| Segmentation.FromTextEmpty | pkg/scraper/scraper.go:375-466 | The text fallback yields no paragraph exactly when the content is empty. |
| Segmentation.FromTextAsWritten | pkg/scraper/scraper.go:414-416 | The written fallback panics exactly when the content exceeds 300 bytes, because the lookahead in the sentence pattern does not compile. |
| Segmentation.FromTextAgrees | pkg/scraper/scraper.go:414-416 | Whenever the written fallback completes, it equals the corrected one, for every splitter. |
| Segmentation.SplitPartsSpec | pkg/scraper/scraper.go:416 | The corrected splitter loses nothing: pieces and separators interleave back to the text. Every separator is a `[.!?]` and the whitespace after it, and every later piece starts with a capital. |
| Segmentation.SplitPartsLeftmost | pkg/scraper/scraper.go:416 | The split is the leftmost one. Each separator is the first break of the text that remains from its piece on, and the last piece contains no break. |
| Segmentation.LeftmostSplitAt | pkg/scraper/scraper.go:416 | For a leftmost split and every `k`, the `k`-th separator starts at the end of the `k`-th piece and is the first break from there on. The last piece has none. |
| Segmentation.NextBreak | pkg/scraper/scraper.go:416 | The break found is the leftmost `[.!?]\s+` followed by a capital. None is found exactly when there is no such break. |
| Models.MakeContent | pkg/scraper/scraper.go:248-250 | The record is well formed. The paragraph count is the number of paragraphs. The full text is the last paragraph, or empty for none. The word count is the `strings.Fields` count of the full text. The given fields are kept. |
| Extract.ExtractFrom | pkg/scraper/scraper.go:102-253 | The record of the closure is well formed and carries the page title. |
| Extract.ExtractEmpty | pkg/scraper/scraper.go:240-245 | The record has no paragraphs exactly when neither the paragraph elements nor the text fallback give any. Element paragraphs, when present, are the record's paragraphs. |
| Extract.ExtractAgrees | pkg/scraper/scraper.go:102-253 | Whenever the closure as written completes, it produces the corrected record. |
| Extract.ExtractPanics | pkg/scraper/scraper.go:148 | A missing region panics with a nil dereference. A region whose elements give at most one paragraph and whose content exceeds 300 bytes panics on the sentence pattern. |
| Extract.LongArticlePanics | pkg/scraper/scraper.go:414-416 | A body holding a Gospel line and a line of more than 300 letters reaches the sentence pattern and panics. |
| Extract.LookaheadCounterexample | pkg/scraper/scraper.go:416 | The body `Lukas` followed by 301 `z`s makes the closure as written panic. |
| Extract.BlankTablePanics | pkg/scraper/scraper.go:128-148 | A page whose only table cell is blank: the closure as written dereferences nil, and the corrected one reads the body. |
| Boilerplate.CircumflexMarkerDead | pkg/scraper/scraper.go:483-492 | The marker `"Â© "` never occurs in lower-cased text, so it can never match. |
| Boilerplate.DonationWithoutDeadMarker | pkg/scraper/scraper.go:482-502 | The donation test is decided by the eight other markers alone. |
| Boilerplate.LowerNeverCircumflexA | pkg/scraper/scraper.go:483 | Lower-casing never produces a capital A with circumflex. |
| Boilerplate.UrlIsHeader | pkg/scraper/scraper.go:504-520 | Any text containing `https://` is header content. |
| Text.Lower | pkg/scraper/scraper.go:483 | Lower-casing maps each character on its own and keeps the length. |
| Text.JoinSplit | pkg/scraper/scraper.go:158-166 | Joining the pieces of a split with the separator gives back the original string. |
| Text.SplitJoin | pkg/scraper/scraper.go:166 | Splitting a join of separator-free pieces gives back the pieces. |
| Text.Trim | pkg/scraper/scraper.go:108 | The trimmed string has no whitespace at either end. It is empty exactly when the string is all whitespace. |
| Text.TrimSpaceIdempotent | pkg/scraper/scraper.go:108 | Trimming twice gives the same string as trimming once. |
| Words.Fields | pkg/scraper/scraper.go:250 | Every field is non-empty and free of whitespace. |
| Words.FieldsOfJoin | pkg/scraper/scraper.go:448-453 | Splitting words joined by single spaces into fields gives back the words. |
| Cache.New | internal/services/cache.go:19-30 | A new cache has no entries and the given TTL and size limit. |
| Cache.Get | internal/services/cache.go:33-48 | A lookup finds a record exactly when the key is present and its age is at most the TTL. What it finds is the stored record. |
| Cache.Set | internal/services/cache.go:51-64 | After the store the key holds the record with the time `now`. Every other key present is one that was present, with its old entry. Below the size limit nothing else changes. |
| Cache.RemoveOldest | internal/services/cache.go:82-96 | Eviction only removes entries and leaves the remaining ones unchanged. |
| Cache.RemoveOldestSpec | internal/services/cache.go:82-96 | Without the empty key, a non-empty map loses exactly one entry. That entry has the smallest timestamp and is the first such in visiting order. |
| Cache.OldestFromSpec | internal/services/cache.go:86-91 | From any state the loop can reach, it ends on the first entry in visiting order with the smallest timestamp. |
| Cache.EmptyKeyNotEvicted | internal/services/cache.go:87-94 | When the last key visited is `""`, the loop ends on it and nothing is evicted. |
| Cache.SetFull | internal/services/cache.go:56-63 | A store into a full cache without the empty key evicts one entry with the minimal timestamp and then inserts. It evicts even when the key is already present. |
| Cache.SetBounded | internal/services/cache.go:56-63 | With non-empty keys, the number of entries never exceeds `max(maxSize, 1)`. |
| Cache.EmptyKeyOverflow | internal/services/cache.go:56-58 | An entry under `""` blocks eviction, so a full cache can grow past its limit. |
| Cache.GetAfterSet | internal/services/cache.go:43-63 | A stored record is found again exactly while its age is at most the TTL. |
| Cache.GetOtherAfterSet | internal/services/cache.go:51-64 | A store under one key leaves every other key's lookup unchanged, unless that entry was evicted. Below the limit it is unchanged in every case. |
| Cache.Clear | internal/services/cache.go:67-72 | Clearing removes every entry and keeps the TTL and the limit. |
| Cache.ClearEmpties | internal/services/cache.go:67-80 | After `Clear` the size is 0 and every lookup misses. |
| Cache.Sweep | internal/services/cache.go:105-112 | A sweep removes exactly the expired entries and leaves every other entry unchanged. |
| Cache.SweepUnobservable | internal/services/cache.go:105-112 | After a sweep, no lookup at that time or later gives a different answer. |
| Cache.SweepBounded | internal/services/cache.go:105-112 | A sweep keeps the size invariant. |
| RateLimit.New | internal/services/ratelimit.go:19-30 | A new limiter has no clients and the given cap and window. |
| RateLimit.Prune | internal/services/ratelimit.go:50-56 | The times kept are exactly those with `now - t < window`. Each is kept as often as it was recorded, and the result is a subsequence of the input, so the kept times stay in their order. |
| RateLimit.PruneIdempotent | internal/services/ratelimit.go:50-56 | Pruning again at the same time changes nothing. |
| RateLimit.PruneNoneInWindow | internal/services/ratelimit.go:52 | When no time is inside the window, pruning empties the list. |
| RateLimit.PruneAllInWindow | internal/services/ratelimit.go:52 | When every time is inside the window, pruning keeps them all. |
| RateLimit.InfoOf | internal/services/ratelimit.go:40-47 | Returns the client's record, or a fresh empty one for an unknown client. |
| RateLimit.IsAllowed | internal/services/ratelimit.go:33-66 | The pruned list is stored even on refusal. The call refuses, appending nothing, exactly when the pruned count is at least `maxReqs`, and otherwise appends `now`. The client always gets a record. No other client changes. |
| RateLimit.IsAllowedBounded | internal/services/ratelimit.go:59-65 | No client's stored list ever exceeds `maxReqs`. |
| RateLimit.CountBounded | internal/services/ratelimit.go:69-87 | Under that invariant, no count exceeds `maxReqs`. |
| RateLimit.BurstSpec | internal/services/ratelimit.go:33-66 | At one instant, after `k` earlier requests, request `i` of a burst is admitted exactly when `k + i < maxReqs`. |
| RateLimit.FreshBurst | internal/services/ratelimit.go:33-66 | A new client's first `maxReqs` requests at one instant are admitted and the rest refused. |
| RateLimit.AdmittedAfterWindow | internal/services/ratelimit.go:52-65 | Once a whole window has passed since every recorded request, the next request is admitted. |
| RateLimit.RefusedClientRecorded | internal/services/ratelimit.go:40-61 | An unknown client gets a record even when `maxReqs <= 0` refuses it. |
| RateLimit.RequestCount | internal/services/ratelimit.go:69-87 | The count is 0 for an unknown client and otherwise the number of in-window times. It is a pure read. |
| RateLimit.Reset | internal/services/ratelimit.go:90-95 | Reset removes only the given client. |
| RateLimit.Clear | internal/services/ratelimit.go:98-103 | Clear removes every client and keeps the cap and the window. |
| RateLimit.Sweep | internal/services/ratelimit.go:115-130 | A client stays exactly when it has an in-window time. The record it keeps holds its pruned times. |
| RateLimit.OthersBounded | internal/services/ratelimit.go:90-130 | Sweep, reset and clear keep the size invariant. |
| RateLimit.SweepUnobservable | internal/services/ratelimit.go:115-130 | A sweep changes neither a count nor an admission decision at that instant. |
| Service.CacheKeyInjective | internal/services/scraper.go:29-30 | The key `sabda_<year>_<padded date>` determines the year and the padded date. |
| Decimal.Pad4 | internal/services/scraper.go:29 | `%04s` gives length `max(4, n)`: the string at the end and zeros before it. |
| Decimal.Pad4Idempotent | internal/services/scraper.go:29 | A four-character string is unchanged, so padding twice gives the same result as padding once. |
| Decimal.IntString | internal/services/scraper.go:30 | `%d` gives a non-empty numeral free of `_`, with a minus sign exactly for negative numbers. |
| Decimal.ParsePrinted | internal/handlers/sabda.go:54 | Parsing a printed number gives it back, and `Atoi` does so within 64 bits. |
| Decimal.IntStringInjective | internal/services/scraper.go:30 | Different numbers print differently. |
| Decimal.Atoi | internal/handlers/sabda.go:54 | `strconv.Atoi` accepts only a sign and digits, and only a value within 64 bits. A well-formed value within 64 bits is always accepted. |
| Decimal.ParseInt | internal/handlers/sabda.go:54 | A value is read exactly from digits, or a sign followed by digits. A leading `-` gives minus the digits' value. Otherwise the value is the digits' value, after any leading `+`, leading zeros included, so `+2024` and `02024` both read as 2024. |
| Service.ScrapeContent | internal/services/scraper.go:27-76 | An error is returned exactly when the status is not `"success"`. A success carries a devotional record. |
| Service.HitSkipsScraper | internal/services/scraper.go:33-47 | A hit is a success with `cached` set and the cached record. It leaves the cache alone and does not depend on the scraper. |
| Service.FailureNotCached | internal/services/scraper.go:50-60 | On a miss with a scraper error, the status is `"error"`, the error is returned and nothing is stored. |
| Service.SecondRequestHits | internal/services/scraper.go:50-75 | On a miss with a scraped record, the record is returned with `cached` unset and stored. A second request within the TTL is a hit with that record and never reaches the scraper. |
| SabdaHandler.JoinStrings | internal/handlers/sabda.go:212-225 | The loop computes the join: `""` for no pieces, the piece itself for one, and the separator between every two. |
| SabdaHandler.Missing | internal/handlers/sabda.go:35-41 | The missing-year message is listed exactly when the year is empty, the missing-date message exactly when the date is empty, year first. |
| SabdaHandler.Validate | internal/handlers/sabda.go:33-110 | A request passes exactly when it has both parameters, an integer year in `[2000, currentYear+1]`, four ASCII digits, a month of 1 to 12 and a day of 1 to 31. Any failure is a 400 with status `"error"`. |
| SabdaHandler.BothMissing | internal/handlers/sabda.go:35-51 | Both missing parameters give one 400 whose message joins the two messages with `"; "`, year first. |
| SabdaHandler.ParseTwoDigits | internal/handlers/sabda.go:97-100 | Two ASCII digits always parse, so the parse-error test on month and day never fires. |
| SabdaHandler.NoCalendarCheck | internal/handlers/sabda.go:93-110 | Month and day are checked separately, so `0231` passes. |
| SabdaHandler.GetContent | internal/handlers/sabda.go:27-143 | The status is 400 exactly when validation fails. After validation it is 200 exactly when the service gives no error and status `"success"`, and 500 otherwise. |
| SabdaHandler.InvalidSkipsService | internal/handlers/sabda.go:33-110 | A request that fails validation gets the same reply whatever the service would do. |
| SabdaHandler.SuccessPassesThrough | internal/handlers/sabda.go:113-142 | A successful answer is 200 with the service's data. Scraping metadata gains `authenticated` and the client address. |
| AuthHandler.ClientIP | internal/handlers/auth.go:161-175 | With `X-Forwarded-For` the address has no comma and is trimmed. Otherwise it is `X-Real-IP` when set, else the peer address. |
| AuthHandler.ClientIPFirstEntry | internal/handlers/auth.go:163-166 | The address is the trimmed first entry of `X-Forwarded-For`, whatever follows the first comma. |
| AuthHandler.BearerToken | internal/handlers/auth.go:122-127 | A header starting with `Bearer ` is that prefix and the token. Any other header is the token itself. |
| AuthHandler.BearerStrippedOnce | internal/handlers/auth.go:123-124 | The prefix is stripped once only, so a doubled prefix leaves one behind. |
| AuthHandler.EmptyTokenIffBarePrefix | internal/handlers/auth.go:122-138 | A present header gives an empty token exactly when it is the bare `Bearer `. |
| AuthHandler.Middleware | internal/handlers/auth.go:93-159 | The limiter is always consulted. 429 comes exactly on refusal. The request passes, with its claims and address, exactly when it is admitted, has a header and a non-empty token, and the token verifies. Every other stop is 401. |
| AuthHandler.RateLimitBeforeHeaders | internal/handlers/auth.go:98-107 | A rate-limited request gets the same reply whatever its header and whatever the verifier. |
| AuthHandler.GetToken | internal/handlers/auth.go:28-90 | 429 comes exactly on refusal. 200 comes exactly when the request is admitted, the body parses, the key is non-empty and the issuer accepts it. The reply then carries the issued token. Statuses are 200, 400, 401 or 429. |
| AuthHandler.EmptyKeyBeforeIssue | internal/handlers/auth.go:54-62 | An empty API key gets 400 before the issuer is asked. |
| AuthHandler.TruncDiv | internal/handlers/auth.go:83 | Integer division truncates toward zero, as Go's does. The remainder has the dividend's sign and is smaller than the divisor, for negative lifetimes too. |
| PyResponse.CreateResponse | app/utils/response.py:1-14 | `status` and `message` are always present. `data` is present exactly when it is not `None`, and `metadata` likewise. No other key appears. |
| PyResponse.ReadBack | app/utils/response.py:1-14 | Reading the response back with `get` gives every argument back. |
| PyResponse.FalsyDataKept | app/utils/response.py:8-9 | Falsy data that is not `None`, such as `[]`, `0` or `""`, is still included. |
| PyResponse.DefaultResponseShape | app/utils/response.py:1-6 | With every argument left out the response is `{"status": "success", "message": ""}`. |
| PyResponse.CreateResponseInjective | app/utils/response.py:1-14 | Two responses are equal exactly when their arguments are. |
| PyResponse.Get | app/utils/response.py:1-14 | `get` returns the value of a present key and `None` for an absent one. |
| PyApp.Response | app.py:30-43 | A scrape result's dictionary carries its status and metadata, and `data` exactly when there is data. |
| PyGrouping.Lines | app/services/scraper.py:104 | Every line is non-empty, stripped and free of newlines. |
| PyGrouping.LinesMembers | app/services/scraper.py:104 | A line is listed exactly when it is the non-empty strip of a piece between newlines. |
| PyGrouping.StripMembers | app/services/scraper.py:104 | A line comes out of the strip-and-filter exactly when it is the non-empty strip of one of the pieces. |
| PyExtract.FilterDonations | app/services/scraper.py:107-114 | No kept line holds any of the four donation phrases, matched case-sensitively. |
| PyExtract.FilterDonationsMembers | app/services/scraper.py:107-114 | A line is kept exactly when it is one of the lines and not a donation line. |
| PyExtract.FilterDonationsNoop | app/services/scraper.py:107-114 | Without donation lines, every line is kept. |
| PyExtract.FullTextLines | app/services/scraper.py:116 | `clean_text` split at newlines gives back the kept lines. It is empty exactly when no line is kept. |
| PyExtract.FullTextMembers | app/services/scraper.py:104-116 | A line of the full text is exactly a stripped line of the page that is not a donation line. |
| PyExtract.PyReferenceShape | app/services/scraper.py:118-119 | A reference found is `book chapter:verse[-verse]`, with Python's `\s`, from a letter to a digit. |
| PyExtract.DevotionalTitle | app/services/scraper.py:121-125 | A title exists exactly when the title pattern matches. It is stripped and keeps no `[...]` segment. |
| PyCleaning.TitleTextSpec | app/services/scraper.py:123-124 | A title from one line is stripped and keeps no bracketed segment. |
| PyCleaning.RemoveBracketedComplete | app/services/scraper.py:124 | On one line, `\[.*?\]` removal leaves no `[` followed by a `]`. |
| PyCleaning.RemoveBracketedNoop | app/services/scraper.py:124 | Text without `[` is left alone. |
| PyCleaning.RemoveBracketed | app/services/scraper.py:124 | The removal only removes characters: the result is no longer than the text and every character comes from it. |
| PyCleaning.RemoveBracketedKeepsPrefix | app/services/scraper.py:124 | Text before the first `[` is kept as it is, in front of the removal of the rest. |
| PyCleaning.RemoveBracketedDropsSegment | app/services/scraper.py:124 | A `[...]` segment on one line is dropped whole, and the removal goes on after it. |
| PyGrouping.Groups | app/services/scraper.py:127-147 | Every group the walk closes is a non-empty run of qualifying lines. |
| PyGrouping.GroupsFlatten | app/services/scraper.py:127-147 | The groups, laid end to end, are the pending run followed by exactly the qualifying lines the walk reaches. |
| PyGrouping.RunThenBreak | app/services/scraper.py:130-143 | A run of paragraph lines followed by a line that is neither a header, a footer nor a paragraph line closes exactly one group: the pending run plus the whole run. The walk then starts afresh after that line. |
| PyGrouping.RunThenEnd | app/services/scraper.py:139-147 | A run of paragraph lines that reaches the end of the input is closed as one group. |
| PyGrouping.SkipLineTransparent | app/services/scraper.py:131-132 | A header line anywhere changes nothing: it neither flushes the run nor ends the walk. |
| PyGrouping.FooterEndsWalk | app/services/scraper.py:135-147 | The first footer line ends the walk and nothing after it matters. The pending run is still flushed. |
| PyGrouping.WebmasterOnSiteSkipped | app/services/scraper.py:131-136 | `webmaster@sabda.org` is a header line before it is a footer line, so it does not end the walk. |
| PyGrouping.GroupLines | app/services/scraper.py:139-147 | Every paragraph is longer than 20 characters. |
| PyCleaning.ChainStartSpec | app/services/scraper.py:153-159 | The chain search finds the leftmost start of a lazy `a.*?b.*?…` match under DOTALL, and finds none exactly when nothing matches. |
| PyCleaning.ChainFromSpec | app/services/scraper.py:153-159 | Taking each part at its first occurrence loses no match. |
| PyCleaning.LeftmostSpec | app/services/scraper.py:153-159 | Across alternatives, the earliest start is the first position where the pattern matches. |
| PyCleaning.Find | app/services/scraper.py:153-165 | `str.find`: the first occurrence at or after `from`, or none exactly when the pattern does not occur there. |
| PyCleaning.Earlier | app/services/scraper.py:153-156 | The earlier of two optional positions is one of them and no later than either. |
| PyCleaning.DropMatch | app/services/scraper.py:153-165 | A removal ending in `.*` keeps exactly the prefix before the leftmost match, and keeps all of a text it does not match. |
| PyCleaning.SingleCut | app/services/scraper.py:162-165 | A one-part pattern `pat.*` cuts at the first occurrence of `pat`. |
| PyCleaning.AccountRemoved | app/services/scraper.py:162 | `.*BCA 106\.30066\.22.*` empties any text that mentions the account and leaves the rest alone. |
| PyCleaning.AppealRemoved | app/services/scraper.py:165 | No copy of `Kirim dukungan Anda ke:` survives its removal. |
| PyCleaning.DonationsDropped | app/services/scraper.py:153-165 | After the five removals, neither the account number nor the appeal remains. |
| PyCleaning.DropDonationsNoop | app/services/scraper.py:153-165 | A text holding no pattern's first part passes the removals unchanged. |
| PyCleaning.Collapse | app/services/scraper.py:168 | `\s+` to `" "` leaves single spaces only. The result is empty exactly for empty text, and starts with a space exactly when the text starts with whitespace. |
| PyCleaning.CollapseKeepsInk | app/services/scraper.py:168 | Collapsing changes only whitespace: the other characters stay, in order. |
| PyCleaning.CollapseNoop | app/services/scraper.py:168 | A single-spaced text is its own collapse. |
| PyCleaning.CollapseIdempotent | app/services/scraper.py:168 | Collapsing twice gives the same text as collapsing once. |
| PyCleaning.FinalDotSpec | app/services/scraper.py:169 | `\s*\.\s*$` to `.` changes only whitespace and leaves none before a final period. |
| PyCleaning.FinalDotCleaned | app/services/scraper.py:168-169 | A collapsed, stripped text comes out of the period pass cleaned. |
| PyCleaning.TidySpec | app/services/scraper.py:153-169 | The cleaning changes nothing but whitespace after the removals. A non-empty result is stripped and single-spaced, with no space before a final period. |
| PyCleaning.CleanParagraphAsWritten | app/services/scraper.py:149-173 | A kept paragraph is longer than 10 characters, cleaned, and the removals' output up to whitespace. It is dropped exactly when the cleaned text is 10 characters or fewer. |
| PyCleaning.SpacedAccountSurvives | app/services/scraper.py:162-168 | With a tab or no-break space inside the account number, the written cleaning keeps the number, collapsed to a plain space. |
| PyCleaning.CleanParagraph | app/services/scraper.py:149-173 | The corrected cleaning keeps only paragraphs over 10 characters, cleaned, holding neither the account number nor the appeal, whatever their whitespace. |
| PyCleaning.CleanParagraphAgrees | app/services/scraper.py:149-173 | On single-spaced paragraphs the corrected and written cleanings agree. |
| PyExtract.PageTitle | app/services/scraper.py:97-98 | The title is `None` exactly without a `<title>` element, and otherwise stripped. |
| PyExtract.ExtractContent | app/services/scraper.py:92-179 | The corrected extraction, which cleans each paragraph with `CleanParagraph`. `full_text` is `clean_text` and `word_count` its token count. The reference and title come from `clean_text`. Every paragraph is over 10 characters, cleaned and free of the account number and the appeal. |
| PyExtract.ExtractContentAsWritten | app/services/scraper.py:149-177 | The service's behaviour as written, with the written paragraph cleaning. It gives the same full text as the corrected extraction, and paragraphs over 10 characters. |
| PyExtract.AsWrittenAgrees | app/services/scraper.py:149-173 | When every paragraph is single-spaced, the written and corrected extractions give the same record. |
| PyExtract.ContentIsCleanedApp | app/services/scraper.py:149-175 | The service's paragraphs are exactly the cleanings of `app.py`'s paragraphs that pass the length test. |
| PyExtract.NoDonationsAgree | app/services/scraper.py:104-116 | Without donation lines the two extractors agree on everything but the paragraph cleaning. |
| PyExtract.Zfill | app/services/scraper.py:36 | `zfill(4)` gives length `max(4, n)`. A string that is long enough is unchanged. Padding adds only zeros. |
| PyExtract.ZfillPad4 | app/services/scraper.py:36 | Without a sign, `zfill(4)` equals Go's `%04s`. |
| PyExtract.ZfillSigned | app/services/scraper.py:36 | With a sign the two differ: `+005` against `00+5`. |
| PyExtract.ZfillDigits | app/services/scraper.py:36 | A digit string stays digits, at the end of the padded string. |
| PyExtract.SourceUrl | app/services/scraper.py:42 | The article address is the base, the year, and the zero-filled date cut after two characters. |
| PyExtract.SourceUrlParts | app/services/scraper.py:42 | For a four-character date, the month and day halves are the address's last two parts. |
| PyExtract.PrintUrlAgrees | app/services/scraper.py:39 | For a date without a sign, the Python and Go services use the same print-version address. |
| PyExtract.ContentRoundTrip | app/services/scraper.py:94-179 | Reading the content dictionary back gives the record it was made from. |
| PyExtract.ContentValue | app/services/scraper.py:121-125 | The dictionary has `devotional_title` exactly when a title was found. |
| PyExtract.ExtractContentApp | app.py:172-227 | The word count is the token count of the full text and the title is `None` exactly without a title element. Every paragraph is longer than 20 characters. |
| PyExtract.AppFullTextLines | app.py:184-185 | `full_text` is every stripped non-empty line: it splits back into them, and is empty exactly when there is none. |
| PyApp.ScrapeApp | app.py:120-170 | Success comes exactly when the fetch of the print address succeeds, and then the data is `extract_content` of the page. Either way the metadata's `url` is that address. |
| PyApp.ScrapeService | app/services/scraper.py:32-90 | The same as in `app.py`, with the service's extractor. On success the metadata also holds the article address as `source`. |
| PyApp.ScrapersAgreeOnFailure | app/services/scraper.py:73-90 | On a failed fetch the two scrapers give the same result. |
| PyApp.Validate | app.py:242-267 | A request passes exactly when the year is given and non-zero, in `[2000, currentYear+1]`, and the date is four digits. A failure reports the first failing check. |
| PyApp.YearZeroIsMissing | app.py:242-246 | Year 0 is reported as missing, not as out of range. |
| PyApp.BothMissingReportsYear | app.py:242-252 | Only the first missing parameter is reported. |
| PyApp.AsciiDigitsAccepted | app.py:263 | Four ASCII digits pass the format check whatever month and day they spell. |
| PyApp.NoMonthCheck | app.py:254-270 | A month of 99 passes, because there is no month or day check. |
| PyApp.TrailingNewlineAccepted | app.py:263 | `$` matches before a final newline, so `0902\n` passes and the newline goes into the fetched address. |
| PyApp.Authenticated | app.py:273-275 | The metadata gains `authenticated` and `auth_method` and keeps every other key. |
| PyApp.GetSabdaContent | app.py:234-280 | 400 comes exactly on a failed check, and its body has only status and message. 200 comes exactly when the checks pass and the fetch succeeds, and then the metadata carries the authentication fields. Anything else is 500. |
| PyApp.InvalidSkipsFetch | app.py:242-267 | A request that fails validation gets the same reply whatever the fetch would give. |
| PyApp.SuccessCarriesContent | app.py:270-278 | A 200 reply carries, readable back, the content the extractor made of the fetched page. |

## Left out

- Fetching:
  - colly and cloudscraper, User-Agent rotation, the random delays and timeouts;
  - the retry from the article address to the print address;
  - the date-length check and the address building of the Go `ScrapeContent`.

  These are network I/O. The page arrives already parsed as a `Page` (title text, `h1` text, asides, cells, body), and the Python page as its title and text.
- HTML parsing: goquery and BeautifulSoup are replaced by that abstract page. Element texts and `p`/`P` lists are given, not computed.
- Regular-expression engines: each pattern is a hand-written matcher. The two Python reference patterns share the Go matcher's proof, with Python's whitespace.
- Unicode classes:
  - Python's `\d` (any Unicode decimal digit) in the date check is a parameter `isDigit` that contains the ASCII digits. Only PyApp.Validate and the members built on it take it.
  - `Text.LowerChar` lower-cases ASCII and Latin-1 letters only. Other scripts, and the Kelvin sign, keep their case. This matters only for the lower-cased marker tests.
- Concurrency: the mutexes, the goroutines and their 5-minute tickers. Each sweep is one explicit operation with an injected clock.
- Go map iteration order is a parameter `order` that lists the keys once each. Python dictionary key order is not modelled: dictionaries are maps.
- JWT and hashing: token verification and issuing are function parameters. `internal/services/auth.go` is not part of this model.
- Python `require_auth` and `get_auth_token`: their token handling is JWT plumbing around the same checks.
- The outer `except` of `get_sabda_content` that answers 500 on an unexpected exception: no modelled step raises.
- Python `type=int` conversion of the year is abstracted to an `Option<int>`.
- Configuration, routing, CORS, the health check and `Home`, logging, and the tests and scripts.
- PyExtract.PyReferenceShape: the reference pattern's `\d` is matched as the ASCII digits only. Python's `\d` also takes other Unicode decimal digits, so a reference such as `Yoh ３:１６` is found by the service and not by the model.
- PyExtract.DevotionalTitle: the title pattern's `\d` is ASCII-only for the same reason, so a title after a reference written in non-ASCII digits is missed by the model.
- Segmentation.FromText takes the sentence splitter as a parameter. The grouping properties hold for every splitter, and `SplitSentences` is the intended splitter.
- Segmentation.GroupFrom omits the inner `len(paraText) > 100` test of the grouping loop, which the preceding `> 200` implies.
- Models.DevotionalContent: `wordCount` and `paragraphCount` are unbounded integers. Go's `int` cannot overflow on page-sized input.

## Findings

| source | as written | input that shows it | evidently intended | confidence | as-written member | corrected member |
|---|---|---|---|---|---|---|
| pkg/scraper/scraper.go:416 | `regexp.MustCompile` of a pattern with the lookahead `(?=[A-Z])`, which RE2 rejects, so the call panics whenever the content exceeds 300 bytes | a body of `Lukas`, a newline and 301 `z`s | split the content into sentences after `[.!?]` and whitespace before a capital letter | not executed | Extract.LookaheadCounterexample | Segmentation.SplitPartsSpec |
| pkg/scraper/scraper.go:128-148 | with table cells that all trim to `""`, `largestCell` stays nil, so `mainContent` is nil and `mainContent.Text()` is called on it | a page with no `aside.w` or `td.wj` and one table cell `" "` | fall back to `body` as when there are no cells | not executed | Extract.BlankTablePanics | Extract.SelectRegionNil |
| app/services/scraper.py:162-168 | the account removal looks for `BCA 106.30066.22` with a plain space, and the collapse of other whitespace runs only afterwards | a paragraph ending in `BCA`, a tab and `106.30066.22` | paragraphs never show the donation account number | not executed | PyCleaning.SpacedAccountSurvives | PyCleaning.CleanParagraph |
