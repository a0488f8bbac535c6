# AutoRia listing crawler — a Dafny model of its crawling core

The crawler collects used-car listings from auto.ria.com. It runs in a fixed order:

1. `scrape_list_pages` discovers card URLs: it fetches the search page, then pages `2..max_page`, and collects the `a.address` hrefs.
2. `get_html` downloads one page, with a bounded retry and linear backoff.
3. `parse_card` parses one card:
   - it picks the richest JSON-LD `Vehicle` object;
   - each field (title, price, odometer, VIN, image count, username, plate, auto id) comes from the first strategy in its fallback chain that succeeds;
   - it extracts the `(expires, hash)` token and calls the phone-reveal endpoint with it.
4. `get_phone_via_playwright` is the phone fallback when the card has none. It clicks a "show" control, polls five locators for 24 rounds, and finally scans the whole page with `PHONE_RE`.
5. `scrape_job` walks the discovered URLs one at a time. It upserts each record keyed on its URL and counts `with_phone`, `without_phone` and `errors`.

The model states these operations over plain values:
- The network becomes an oracle: the outcome of the `k`-th attempt to fetch a URL.
- BeautifulSoup, JSON decoding and the browser become their results: decoded `ld+json` blocks, `img` srcs, hrefs, page-link texts, click outcomes, locator texts and final page content.
- The fixed regular expressions are hand-coded matchers. Each reports the leftmost index where its pattern matches, and that match's capture. `\d` is the ASCII digits; `\s` is `str.isspace`; `\w` (for `\b`) is exact only for the first 0x250 code points and the Cyrillic block (see Left out).
- `int(float(x))` is modelled exactly for finite decimal literals (module `Floats`). `float()` rounds to the nearest binary64 value, with ties to even. `int()` truncates toward zero. An overflow gives None, because the `except` catches it.
- `int()` of a string is CPython's: it raises ValueError on more than 4300 digits (`Text.MaxStrDigits`). The parser's `int(m.group(1))` calls sit outside any `try`, so a capture that long makes `parse_card` raise; the page-link loop of `scrape_list_pages` skips such a text.

The imperative parts are methods whose loops are proved against pure functions that define their results:
- `get_html`'s retry loop;
- the JSON-LD scoring loop;
- the image-source loop;
- the pattern loops with `break`;
- the click fallbacks;
- the 24 × 5 polling loop;
- the href set;
- the page-link maximum;
- the per-URL loop of `scrape_job`.

The properties the code promises are lemmas about those functions.

Modules:
- `Text` (text.dfy): digit strings, Python's `strip`, `int(s)` (with PEP 515 underscores) and `str(n)`.
- `Floats` (floats.dfy): `float()` of an integer, of a decimal string and of a literal with an exponent, followed by `int()`.
- `Json` (json.dfy): decoded JSON values, `dict.get`, truthiness, `a or b`.
- `Markup` (markup.dfy): the regex matchers (keyed patterns, the query-string token, `PLATE_RE`, `PHONE_RE`).
- `Parser` (parser.dfy): `app/crawler/parser.py`.
- `PhoneReveal` (phone_reveal.dfy): `app/crawler/phone_playwright.py`.
- `Scraper` (scraper.dfy): `app/crawler/scraper.py`.
- `Run` (run.dfy): `run.py`, with the table as a `map` from URL to record (the upsert of `app/db/crud.py`).

The three phone normalisers are kept apart because they differ:
- `Parser.NormalizeRevealDigits` reads ten or more digits as a number.
- `PhoneReveal.NormalizePhone` returns only `38` followed by ten digits.
- `Scraper.NormalizeDigits` returns any non-empty digit string.

Two behaviours of the code, modelled as written:
- Only a Playwright `TimeoutError` is caught in the browser fallback (app/crawler/phone_playwright.py:180-181). Any other exception reaches `scrape_job` and is counted as an error. `Run.Collab.browser` returning None models that.
- The two reveal readers try the reply's fields in different orders. The card parser tries `formattedPhoneNumber`, then `phoneNumber`, then `phone` (app/crawler/parser.py:257-261). `fetch_phone_number` tries `formattedPhoneNumber`, then `phone`, then `phoneNumber` (app/crawler/scraper.py:105-109).

## Model

| member | source | states |
|---|---|---|
| Text.DigitsOnly | app/crawler/phone_playwright.py:10-11 | `_digits_only` yields only digits and never more characters than its input |
| Text.DigitsOnlyEmpty | app/crawler/phone_playwright.py:15-17 | the digit string is empty exactly when the input has no digit |
| Text.DigitsOnlyAppend | app/crawler/parser.py:22-23 | digit extraction distributes over concatenation |
| Text.DigitsOnlyOfDigits | app/crawler/parser.py:22-23 | a digit string is its own digit extraction |
| Text.TrimStartProps | app/crawler/scraper.py:55 | `lstrip` removes exactly a whitespace prefix and stops at the first other character |
| Text.TrimEndProps | app/crawler/scraper.py:55 | `rstrip` removes exactly a whitespace suffix and stops at the last other character |
| Text.StripIsSlice | app/crawler/phone_playwright.py:160 | `strip()` returns a slice of the input whose ends are not whitespace, and everything cut off is whitespace |
| Text.StripAvoids | app/crawler/parser.py:105 | stripping never introduces a character that the input lacks |
| Text.DecValueBound | app/crawler/parser.py:123 | a digit string of length n has a value below 10^n, and at least 10^(n-1) without a leading zero |
| Text.DecValueAppend | app/crawler/parser.py:269 | the value of a concatenation is the first part's value shifted by the second part's length plus the second value |
| Text.DecValueOfDecimal | app/crawler/scraper.py:63 | `int(str(n)) == n` |
| Text.DecimalOfDecValue | app/crawler/phone_playwright.py:26-27 | `str(int(s)) == s` for a digit string without a leading zero |
| Text.DecValueExample | app/crawler/phone_playwright.py:20-22 | the digits 380931234567 have that value |
| Text.PyInt | app/crawler/scraper.py:55 | `int(s)` succeeds only on a non-blank string of at most 4300 digits, CPython's default `int_max_str_digits`, sign and underscores not counted |
| Text.PyIntOfDigits | run.py:20 | `int(s)` of a non-empty digit string is its decimal value up to 4300 digits, and a ValueError (None) past them |
| Text.PyIntUnderscore | app/crawler/scraper.py:55 | `int()` accepts one underscore between two digit groups, as PEP 515 allows: the value of the digits alone, and a ValueError when those exceed 4300 |
| Floats.RoundHalfEvenNearest | app/crawler/parser.py:17 | the significand is within half a unit of the exact value, and a tie gives an even one |
| Floats.TruncNearestFloor | app/crawler/parser.py:17 | `int(float(n/d))` is the floor w whenever n/d lies far enough below w + 1 that rounding cannot reach it |
| Floats.TruncNearestRoundUp | app/crawler/parser.py:17 | a value below 2^52 that lies close enough below w + 1 rounds to w + 1, and that is the result |
| Floats.TruncNearestOverflow | app/crawler/parser.py:17 | a value of at least 2^1024 overflows: None |
| Floats.TruncNearestFinite | app/crawler/parser.py:17 | a value of at most (2^53 - 1) * 2^971 is finite |
| Floats.TruncNearestExact | app/crawler/parser.py:17 | an integer below 2^53 converts exactly |
| Floats.TruncSignedNeg | app/crawler/parser.py:17 | rounding and truncation are symmetric under negation |
| Floats.FloatIntOfDigits | app/crawler/parser.py:17 | `int(float(s))` of a digit string is its value rounded to a double, and exactly its value below 2^53 |
| Floats.FloatIntOfParts | app/crawler/parser.py:17 | `whole.frac` gives the rounded value truncated; below 2^53 the whole part |
| Floats.FloatIntExponent | app/crawler/parser.py:17 | `a e x` reads as a * 10^x rounded to a double, then truncated |
| Floats.FloatIntUnderscore | app/crawler/parser.py:17 | an underscore between two digit groups is ignored |
| Floats.FloatIntGrouped | app/crawler/parser.py:17 | a well-grouped digit string reads as its value, rounded |
| Floats.FloatIntNegated | app/crawler/parser.py:17 | a leading minus negates the result, and None stays None |
| Floats.FloatIntNinesExample | app/crawler/parser.py:17 | "0.99999999999999999" gives 1 |
| Floats.FloatIntLongDigits | app/crawler/parser.py:17 | a digit string of 310 or more digits without a leading zero overflows: None |
| Json.Or | app/crawler/parser.py:283 | `a or b` is truthy iff one of them is, and is `a` whenever `a` is truthy |
| Json.StrDigits | app/crawler/parser.py:263 | the digits of `str(raw or "")` are all digits |
| Markup.FirstFrom | app/crawler/phone_playwright.py:30 | a leftmost scan: the index found gives a value, and every earlier index in range gives none |
| Markup.RunEnd | app/crawler/parser.py:168 | a greedy `\d+`-style run ends at the first character outside the class |
| Markup.SkipSpaces | app/crawler/parser.py:168 | `\s*` consumes exactly the whitespace run |
| Markup.Search | app/crawler/parser.py:85 | a capture of `re.search` has the shape of the pattern's group (digits, quoted text, hex run of 16 or more) |
| Markup.SearchLeftmost | app/crawler/parser.py:84-87 | `re.search` reports the match at the leftmost index where the pattern matches, and None iff no index matches |
| Markup.QueryTokenSearch | app/crawler/parser.py:205-209 | the query-string form captures a digit run for expires and a hex run of at least 16 for hash |
| Markup.PlateSearch | app/crawler/parser.py:8 | a plate match has 8 to 10 characters and starts and ends with a plate letter |
| Markup.PhoneReSearch | app/crawler/phone_playwright.py:7 | a `PHONE_RE` match has 9 to 13 characters |
| Markup.SearchFirstAt | app/crawler/parser.py:85-87 | a match at n with none before it is the one reported |
| Markup.SearchFirstLit | app/crawler/parser.py:85-87 | the same, when the pattern's opening literal stands nowhere before n |
| Markup.KeyDigitsAt | app/crawler/parser.py:136 | `"key":` followed by a maximal digit run is a match of `"key"\s*:\s*(\d+)` that captures the run |
| Markup.KeyQuotedAt | app/crawler/parser.py:185 | `"key":` followed by a quoted, quote-free text is a match of `"key"\s*:\s*"([^"]+)"` that captures the text |
| Markup.QueryTokenSearchLeftmost | app/crawler/parser.py:205-209 | the query-string search reports the groups of the leftmost match, and None iff no index starts one |
| Markup.PlateAtSound | app/crawler/parser.py:8 | a plate match has the pattern's layout: two letters, an optional space, four digits, an optional space, two letters, with `\b` on both sides |
| Markup.PlateAtComplete | app/crawler/parser.py:8 | every such layout between word boundaries is a match, of exactly that length |
| Markup.PlateSearchLeftmost | app/crawler/parser.py:304-306 | `PLATE_RE.search` gives the text of the leftmost match, and None iff no index starts one |
| Markup.PlateSearchIsPlate | app/crawler/parser.py:304-306 | the found text itself has the plate layout |
| Markup.PlateSearchExample | app/crawler/parser.py:8 | "AA 1234 BB" is found whole |
| Markup.PlateSearchAccented | app/crawler/parser.py:8 | a non-ASCII letter before the plate blocks `\b`: no plate in "éAA1234BB" |
| Markup.PhoneReAtFirst | app/crawler/phone_playwright.py:7 | a match at an index is the first alternative that fits, in the engine's order (`+38`, `38`, none; then `0`, none), and None iff none fits |
| Markup.PhoneReSearchLeftmost | app/crawler/phone_playwright.py:171-172 | `PHONE_RE.search` gives the text of the leftmost match, and None iff no index starts one |
| Parser.SafeInt | app/crawler/parser.py:11-19 | None gives None; lists, dicts and null give None instead of raising |
| Parser.SafeIntOfInt | app/crawler/parser.py:17 | an integer of magnitude below 2^53 comes back unchanged; from 2^1024 on `float()` overflows and the result is None |
| Parser.SafeIntIntRounds | app/crawler/parser.py:17 | above 2^53 the double rounds: 12345678901234567 gives 12345678901234568 |
| Parser.SafeIntOfDigits | app/crawler/parser.py:15-17 | a digit string gives its value rounded to the nearest double; exactly its value below 2^53; None from 310 digits on |
| Parser.SafeIntTruncates | app/crawler/parser.py:16-17 | digits, a `.` or `,`, then digits: the value is rounded to a double and truncated; below 2^53 (counting all digits) the fraction is simply dropped |
| Parser.SafeIntIgnoresSpaces | app/crawler/parser.py:16 | a space or a non-breaking space anywhere in the string is ignored |
| Parser.SafeIntUnderscore | app/crawler/parser.py:17 | an underscore between two digit groups is ignored, as `float()` allows |
| Parser.SafeIntNines | app/crawler/parser.py:17 | "0." followed by seventeen or more nines gives 1, because the nearest double is 1.0 |
| Parser.SafeIntExampleGrouped | app/crawler/parser.py:16-17 | `"12 345"` gives 12345 |
| Parser.SafeIntExampleComma | app/crawler/parser.py:16-17 | `"1,5"` gives 1 |
| Parser.CleanNumberSep | app/crawler/parser.py:16 | the clean-up turns the separator `,` into `.` and keeps `.` |
| Parser.VehiclesUpTo | app/crawler/parser.py:44-48 | every candidate kept from a block's items is a dict typed "Vehicle" |
| Parser.CandidatesMembers | app/crawler/parser.py:34-48 | the candidates are exactly the Vehicle dicts among the block items; list blocks are flattened, and undecodable blocks and non-dict items contribute nothing |
| Parser.BestIsFirstMax | app/crawler/parser.py:50-62 | the running best is the first candidate of maximal score, or (-1, None) with no candidate |
| Parser.PickedVehicleIsBest | app/crawler/parser.py:26-64 | `{}` iff there is no candidate; otherwise a Vehicle whose score no candidate beats and that every earlier candidate scores strictly below |
| Parser.BestSnoc | app/crawler/parser.py:60-62 | one step of the loop replaces the best only on a strictly higher score |
| Parser.ScanItems | app/crawler/parser.py:44-62 | the inner loop leaves the best of the candidates seen so far plus this block's Vehicles |
| Parser.ScanBlock | app/crawler/parser.py:35-43 | an empty or undecodable block leaves the best unchanged; otherwise its items are scanned |
| Parser.PickVehicleJsonLd | app/crawler/parser.py:26-64 | the nested loop returns the object the fold over all candidates selects |
| Parser.FirstPatternMatch | app/crawler/parser.py:84-87 | the capture of the first pattern in list order that matches, and None iff none does |
| Parser.FirstDigitMatch | app/crawler/parser.py:87 | with digit-capturing patterns the first match is a non-empty digit string |
| Parser.FirstPatternAt | app/crawler/parser.py:177-181 | if pattern i matches and none before it does, its capture is the result |
| Parser.FirstMatch | app/crawler/parser.py:177-181 | the loop with `break` returns the first pattern's capture |
| Parser.RiaSrcs | app/crawler/parser.py:90-94 | at most one stripped CDN source per `<img>` |
| Parser.DistinctCountBounds | app/crawler/parser.py:95-96 | the distinct count of a non-empty list is between 1 and its length |
| Parser.ImagesCountOrder | app/crawler/parser.py:67-98 | non-empty image list → its length; else non-blank image string → 1; else the first of the six counters; else 1..n distinct CDN images when any; else None |
| Parser.CounterValue | app/crawler/parser.py:84-87 | a counter value exists iff one of the six counters matches |
| Parser.CdnCount | app/crawler/parser.py:95-98 | None iff no CDN image; otherwise between 1 and the number of CDN sources |
| Parser.CollectRiaSrcs | app/crawler/parser.py:90-94 | the `<img>` loop collects exactly the stripped CDN sources, in order |
| Parser.ExtractImagesCount | app/crawler/parser.py:67-98 | the method with the `<img>` loop returns the specified count |
| Parser.Username | app/crawler/parser.py:101-112 | the bracket form wins, then the colon form; the value is stripped, has no quote, and None iff neither form matches |
| Parser.PriceUsd | app/crawler/parser.py:115-132 | a USD offer decides the price as `_safe_int(price)`, even None; otherwise a `"USD"` marker gives the value of its capture, below 10,000,000; otherwise the first of `priceUsd`, `usdPrice` that matches gives its value, and none gives None |
| Parser.PriceFromUsdOffer | app/crawler/parser.py:116-121 | a USD offer with an integer price yields `_safe_int` of that price whatever the markup says; below 2^53 in magnitude, the price itself |
| Parser.AutoId | app/crawler/parser.py:135-146 | `"autoId":<digits>` in the markup wins; else the `_<digits>.html` suffix of `@id`, and of `url` only when `@id` is falsy |
| Parser.Clean | app/crawler/parser.py:214-222 | a kept expires is a non-empty digit string; a kept hash is stripped and at least 10 long |
| Parser.TokenShape | app/crawler/parser.py:166-222 | expires is None or digits; hash None or ≥ 10 long; a direct key's expires is kept; the query string fills it only when no direct key matched |
| Parser.TokenHashSource | app/crawler/parser.py:183-212 | a direct hash is kept (up to clean-up); with both halves found directly the query string is ignored |
| Parser.FirstMatchNonEmpty | app/crawler/parser.py:184-201 | every first capture of the token patterns is non-empty |
| Parser.FillHalves | app/crawler/parser.py:204-212 | a truthy half found by a direct key is never overwritten; without a query-string match nothing changes |
| Parser.FillFromQuery | app/crawler/parser.py:204-212 | the fallback step completes the halves as specified |
| Parser.CleanToken | app/crawler/parser.py:214-222 | the clean-up step drops a non-numeric expires and a short hash |
| Parser.ExtractExpiresHash | app/crawler/parser.py:149-222 | the two loops, the fallback for a missing half and the clean-up return the specified pair |
| Parser.TokenOfMarkup | app/crawler/parser.py:149-222 | markup holding `"expires":<digits>,"hash":"<h>"`, after a prefix where no quote opens a key starting with e or h, gives exactly the digits and h (h quote-free, stripped, at least 10 long) |
| Parser.TokenOfJsonToken | app/crawler/parser.py:168-201 | the markup `"expires":<digits>,"hash":"<h>"` alone gives (digits, h) |
| Parser.EmptyToken | app/crawler/parser.py:163-222 | empty markup yields (None, None) |
| Parser.RevealDigitsNational | app/crawler/parser.py:268-269 | ten digits starting with 0 give 380000000000 plus their value |
| Parser.RevealDigitsCases | app/crawler/parser.py:263-274 | fewer than ten digits → None; `0` + nine digits → prefixed by 38; ten or more otherwise → their value rounded to a double: exact up to fifteen digits, None from 310 digits on |
| Parser.RevealPhoneFailures | app/crawler/parser.py:245-265 | a non-200 status, a non-JSON body or a field without digits gives None |
| Parser.RevealFieldPreference | app/crawler/parser.py:256-261 | formattedPhoneNumber, then phoneNumber, then phone, each only when the previous is falsy |
| Parser.RevealPhoneExample | app/crawler/parser.py:257-274 | a reply whose formattedPhoneNumber has the digits 380931234567 gives that number |
| Parser.TitleOf | app/crawler/parser.py:282-283 | a non-empty og:title wins over the JSON-LD name |
| Parser.OdometerOf | app/crawler/parser.py:293-296 | no odometer unless `mileageFromOdometer` is a dict |
| Parser.VinOf | app/crawler/parser.py:299 | vehicleIdentificationNumber when truthy, else vin |
| Parser.CarNumberOf | app/crawler/parser.py:302-306 | the plate is the `PLATE_RE` match; the strip changes nothing |
| Parser.ParseCardPhone | app/crawler/parser.py:314-319 | the endpoint is called only with a truthy auto id, expires and hash, and is the only source of the phone; `parse_card` raises exactly when the image count, the price fallback or the auto id `int()` raises, or the reveal call does |
| Parser.ParseCardLongCounter | app/crawler/parser.py:84-87 | a first counter of more than 4300 digits makes `parse_card` raise, whatever the endpoint answers |
| Parser.NoCaptureNoRaise | app/crawler/parser.py:123-144 | without an auto id key, a counter or a price fallback in the markup and without JSON-LD, no extractor raises |
| Parser.RevealExampleNoRaise | app/crawler/parser.py:84-144 | on the reveal example page no extractor raises: the auto id has six digits and no counter or price fallback key matches |
| Markup.QuotedKeyAbsent | app/crawler/parser.py:79-87 | a `"key"\s*:` pattern finds nothing where no quote opens the key's first letter before the last quoted, quote-free run that ends the markup |
| Parser.ParseCardIndependent | app/crawler/parser.py:277-331 | apart from the phone, the record does not depend on the endpoint |
| Parser.ParseCardRevealExample | app/crawler/parser.py:277-331 | markup `"autoId":123456,"expires":<d>,"hash":"<h>"` calls the endpoint with (123456, d, h); a reply whose formattedPhoneNumber has the digits 380931234567 puts that number in the record, and changes nothing else |
| Parser.AutoIdOfMarkup | app/crawler/parser.py:136-138 | `"autoId":123456` at the start of the markup is the auto id |
| Parser.NoDataGivesEmptyRecord | app/crawler/parser.py:277-331 | a page where no JSON-LD, og tag, markup pattern, CDN image or plate is found gives a record with every field absent, with no call |
| Parser.EmptyPageGivesEmptyRecord | app/crawler/parser.py:277-331 | in particular an empty page gives that record |
| Parser.EmptyBaseRecord | app/crawler/parser.py:322-331 | every field from an empty page is absent |
| Parser.EmptyFields | app/crawler/parser.py:101-132 | empty markup gives no price, image count, username or plate |
| PhoneReveal.Find38 | app/crawler/phone_playwright.py:30 | the leftmost start of `38` + ten digits, or None when there is none |
| PhoneReveal.Prefixed | app/crawler/phone_playwright.py:23-24 | the national fix keeps a digit string |
| PhoneReveal.Value38 | app/crawler/phone_playwright.py:26-27 | a twelve-digit string starting 38 has a value in [380000000000, 390000000000) |
| PhoneReveal.NormalizePhoneRange | app/crawler/phone_playwright.py:14-34 | every result is 38 followed by ten digits |
| PhoneReveal.NormalizePhoneSource | app/crawler/phone_playwright.py:26-32 | every result is the value of a twelve-digit string starting 38 |
| PhoneReveal.NormalizeTwelve | app/crawler/phone_playwright.py:26-27 | twelve digits starting 38 normalise to their own value |
| PhoneReveal.NormalizePhoneIdempotent | app/crawler/phone_playwright.py:26-27 | normalising the decimal form of a result gives the same result |
| PhoneReveal.NormalizePhoneNoDigits | app/crawler/phone_playwright.py:15-17 | no digits gives None |
| PhoneReveal.NormalizePhoneTwelveOther | app/crawler/phone_playwright.py:26-34 | twelve digits not starting 38 give None |
| PhoneReveal.NormalizePhoneLonger | app/crawler/phone_playwright.py:29-32 | more than twelve digits give the first embedded `38` + ten digits |
| PhoneReveal.NormalizePhoneNational | app/crawler/phone_playwright.py:23-27 | the digits `0` + nine digits give 380000000000 plus their value |
| PhoneReveal.PrefixValue | app/crawler/phone_playwright.py:23-24 | prefixing ten digits with 38 adds 380000000000 |
| PhoneReveal.NormalizePhoneDigitsOnly | app/crawler/phone_playwright.py:15 | only the digits of the input matter |
| PhoneReveal.NormalizePhoneExamples | app/crawler/phone_playwright.py:19-27 | "0931234567", "380931234567" and any input whose digits are 380931234567 (such as `tel:+38(093)123-45-67`) give 380931234567 |
| PhoneReveal.ExampleFull | app/crawler/phone_playwright.py:26-27 | "380931234567" gives itself |
| PhoneReveal.ExampleNational | app/crawler/phone_playwright.py:23-27 | "0931234567" gives 380931234567 |
| PhoneReveal.NationalIsFull | app/crawler/phone_playwright.py:23-24 | a national number normalises like its international form |
| PhoneReveal.NormalizedTruthy | app/crawler/phone_playwright.py:164-165 | no result is 0, so `if phone:` never rejects one |
| PhoneReveal.TruthyPhone | app/crawler/phone_playwright.py:164-166 | normalising then testing `if phone:` is the normaliser itself |
| PhoneReveal.FirstOk | app/crawler/phone_playwright.py:129-138 | the first fallback whose click goes through; every earlier one did not |
| PhoneReveal.Probed | app/crawler/phone_playwright.py:118-138 | the primary link is always queried first, at most all five fallbacks after it |
| PhoneReveal.RevealClick | app/crawler/phone_playwright.py:118-141 | the method sets `clicked` and queries the controls as specified |
| PhoneReveal.ClickedIsLastProbed | app/crawler/phone_playwright.py:128-138 | `clicked` iff the last control queried clicked, and no earlier one did |
| PhoneReveal.FallbacksOnlyAfterPrimary | app/crawler/phone_playwright.py:128 | fallbacks are queried iff the primary click did not go through |
| PhoneReveal.NoClickTriesAll | app/crawler/phone_playwright.py:128-141 | with no click every fallback was tried |
| PhoneReveal.FirstHitIndex | app/crawler/phone_playwright.py:154-166 | the index of the first of the 120 probes that yields a phone, or 120 when none does |
| PhoneReveal.PollResult | app/crawler/phone_playwright.py:154-168 | the phone of the first successful probe; None iff every probe of every round fails |
| PhoneReveal.ProbeIndex | app/crawler/phone_playwright.py:154-155 | probe j of round r is number 5r + j |
| PhoneReveal.PollResultAt | app/crawler/phone_playwright.py:164-166 | the first hit decides the polling result |
| PhoneReveal.ReadLocator | app/crawler/phone_playwright.py:156-164 | a missing element or a failed read gives nothing; a text is stripped and normalised |
| PhoneReveal.PollRound | app/crawler/phone_playwright.py:155-166 | one round returns the first phone of its five locators, or leaves no hit in the round |
| PhoneReveal.Poll | app/crawler/phone_playwright.py:154-168 | the 24 × 5 loop with early return gives the specified polling result |
| PhoneReveal.AttemptSource | app/crawler/phone_playwright.py:156-164 | a probe's phone is the normalised, stripped text of its locator |
| PhoneReveal.FinalScan | app/crawler/phone_playwright.py:170-176 | a scanned phone is the normalised `PHONE_RE` match of the page |
| PhoneReveal.GetPhoneViaPlaywright | app/crawler/phone_playwright.py:95-181 | navigation timeout or no click gives None; otherwise the polled phone, else the page scan |
| PhoneReveal.SessionRange | app/crawler/phone_playwright.py:75-185 | every phone the session returns is 38 followed by ten digits |
| PhoneReveal.SessionNeedsClick | app/crawler/phone_playwright.py:140-141 | no successful click means no phone |
| PhoneReveal.SessionPollWins | app/crawler/phone_playwright.py:154-178 | a polled phone wins, whatever the page content |
| PhoneReveal.SessionFallsBackToScan | app/crawler/phone_playwright.py:170-178 | only when every probe fails is the result the page scan |
| Scraper.Retry | app/crawler/scraper.py:19-34 | with no attempt left the recorded error is raised, with no sleep |
| Scraper.RetrySleeps | app/crawler/scraper.py:21-32 | every attempt before the deciding one failed retryably and was followed by its backoff (8k or 5k deciseconds); at most `retries` attempts |
| Scraper.RetryOutcome | app/crawler/scraper.py:21-34 | the deciding attempt is a reply (its text is returned), an exception that propagates at once, or the budget's end (the last recorded error is raised) |
| Scraper.GetHtml | app/crawler/scraper.py:19-34 | the retry loop returns the specified outcome and sleeps |
| Scraper.RetryAllFail | app/crawler/scraper.py:26-34 | all retryable failures: `retries` sleeps, including after the last, and the last error is raised |
| Scraper.RetryNoAttempts | app/crawler/scraper.py:21-34 | no attempt allowed: nothing fetched and `raise None` |
| Scraper.RetrySucceedsAt | app/crawler/scraper.py:21-25 | a reply at attempt j after j−1 retryable failures is returned after j−1 sleeps |
| Scraper.AddHrefs | app/crawler/scraper.py:46-50 | the set gains exactly the truthy hrefs |
| Scraper.MaxPageIsMax | app/crawler/scraper.py:52-57 | the fold's result bounds every number read and is 1 or one of them |
| Scraper.PageNumbersAt | app/crawler/scraper.py:54-57 | the i-th number read is `int()` of the i-th page-link text, None where it raises (a text that is not an integer, or one of more than 4300 digits) |
| Scraper.MaxPageOf | app/crawler/scraper.py:52-57 | at least 1, at least every integer page-link text, and 1 or one of them |
| Scraper.ScanStep | app/crawler/scraper.py:55-57 | one more page link raises the maximum to its number only when higher |
| Scraper.ScanPageLinks | app/crawler/scraper.py:52-57 | the loop that skips non-integer texts computes that maximum |
| Scraper.LastPage | app/crawler/scraper.py:59-60 | the maximum capped by the limit |
| Scraper.PageUrls | app/crawler/scraper.py:43-63 | the search page first, then pages 2..last in order |
| Scraper.PageUrlInjective | app/crawler/scraper.py:63 | different page numbers give different URLs |
| Scraper.FirstFailure | app/crawler/scraper.py:62-64 | the first page whose fetch raises; all earlier fetches succeed |
| Scraper.HrefsOfUrlsSnoc | app/crawler/scraper.py:64-69 | a fetched page adds its truthy hrefs to the collection |
| Scraper.FetchPages | app/crawler/scraper.py:62-69 | the page loop collects all hrefs, or stops at the first fetch that raises with its exception |
| Scraper.Absolute | app/crawler/scraper.py:73-76 | an href starting with `http` is kept; any other is prefixed with the site root |
| Scraper.Absolutes | app/crawler/scraper.py:71-76 | one absolute URL per href, in order |
| Scraper.AbsolutesSnoc | app/crawler/scraper.py:72-76 | appending one href appends its absolute URL |
| Scraper.KeepUsed | app/crawler/scraper.py:79 | a URL is kept iff it contains `/uk/auto_` and not `/newauto/` |
| Scraper.AbsoluteAll | app/crawler/scraper.py:71-76 | one URL per element of the set, in some iteration order that lists each element once |
| Scraper.EnumerationSize | app/crawler/scraper.py:72 | such an order has one entry per element of the set |
| Scraper.ScrapeListPages | app/crawler/scraper.py:37-80 | the first raising fetch ends the call with its exception; otherwise the used-car cards made absolute from all collected hrefs |
| Scraper.ListedAreUsedCards | app/crawler/scraper.py:79 | the result is exactly the used-car URLs built from the collected hrefs |
| Scraper.RelativeAndAbsoluteBothKept | app/crawler/scraper.py:71-76 | a relative href and its absolute form both survive the set and give the same URL twice |
| Scraper.PageOrder | app/crawler/scraper.py:59-64 | the search page comes first, a limit caps the page count, and no page is fetched twice |
| Scraper.NormalizeDigitsCases | app/crawler/scraper.py:113-121 | None iff no digits; `0` + nine digits → prefixed by 38; any other digits as they are |
| Scraper.NormalizeDigitsIdempotent | app/crawler/scraper.py:116-121 | normalising a result again changes nothing unless it is itself a national number |
| Scraper.FetchPhoneFailures | app/crawler/scraper.py:97-111 | a non-200 status or non-JSON body gives None; a non-object body raises; a falsy field gives None |
| Scraper.PhoneFieldPreference | app/crawler/scraper.py:105-109 | formattedPhoneNumber, then phone, then phoneNumber |
| Run.Split | run.py:19 | `split(":")` gives at least one piece, and no piece contains the separator |
| Run.JoinSplit | run.py:19 | joining the pieces gives back the string |
| Run.SplitJoin | run.py:19 | splitting joined separator-free pieces gives them back |
| Run.SplitNoSep | run.py:19 | a string without the separator is one piece |
| Run.SplitAround | run.py:19 | `a:b`, with `a` free of `:`, splits into `a`, then the pieces of `b` |
| Run.HhmmToCron | run.py:18-20 | a result exists only when the stripped string has exactly two parts |
| Run.HhmmOfDigits | run.py:18-20 | two digit strings around a colon give their values, with no range check, when each has at most 4300 digits; a longer part is a ValueError |
| Run.HhmmExample | run.py:18-20 | `"12:05"` gives (12, 5) |
| Run.HhmmExampleParts | run.py:19-20 | "12" and "05" are digit strings with values 12 and 5 |
| Run.HhmmNeedsOneColon | run.py:19 | anything other than exactly one colon is an error |
| Run.Delta | run.py:44-66 | a URL moves with/without phone at most once, and the counters by one or two in total |
| Run.Upsert | app/db/crud.py:7-14 | only the row of the processed URL can change |
| Run.ProcessUrl | run.py:44-66 | one iteration moves the counters and the table as specified |
| Run.ScrapeUrls | run.py:43-66 | the loop gives the counters and the table of processing the URLs in order |
| Run.ScrapeJob | run.py:30-66 | discovery raising leaves the table untouched; otherwise the URLs are processed |
| Run.TallyBounds | run.py:49-66 | with + without ≤ \|urls\| ≤ with + without + errors ≤ 2·\|urls\| |
| Run.TallyAppend | run.py:43-66 | the counters of a run are the sums over its parts |
| Run.TallyOne | run.py:43-66 | one URL's counters are its delta |
| Run.AddAssoc | run.py:53-65 | adding counters is associative |
| Run.ErrorDoesNotStop | run.py:64-66 | a URL where everything raises adds one error and the rest is processed as before |
| Run.ParsedPhoneSkipsBrowser | run.py:49-59 | a truthy parsed phone counts as with phone and the browser is not consulted |
| Run.BrowserFallback | run.py:49-57 | a missing phone calls the browser: a phone from it replaces the field and counts as with phone, otherwise without phone |
| Run.NoControlCountsWithoutPhone | run.py:49-57 | no clickable reveal control: the URL counts as without phone, not as an error |
| Run.StoredFrame | app/db/crud.py:8-12 | a URL not processed keeps its row |
| Run.UpsertWrites | run.py:61 | a successful commit writes exactly that URL's record |

## Left out

- Browser automation is reduced to what the browser reports:
  - launch and context of Playwright;
  - `page.goto`;
  - consent banners (`_click_if_exists`, `_accept_banners`);
  - the scroll and the 500 ms waits;
  - the click and read timeouts;
  - the `finally` teardown.

  These are foreign-library calls with wall-clock behaviour. A navigation `TimeoutError` is a flag, and any other browser exception is `Run.Collab.browser` returning None.
- HTTP transport, headers (the `Referer` included) and client timeouts are outcome oracles.
- JSON decoding is given as its result (None when the body is not JSON). BeautifulSoup queries are given as their results:
  - `ld+json` blocks, `og:title`/`og:image` content, `img` srcs, `get_text`;
  - `a.address` hrefs and `a.page-link` texts.
- `async`/`await` and the real `asyncio.sleep`: the code is sequential, and the sleeps are returned as integer deciseconds rather than taken.
- Parser.SafeInt: a decoded JSON float is not a case of `Json.Json`, so `_safe_int` of a Python `float` is left out. The strings `float()` accepts are modelled (sign, digits with `_` groups, a fraction, an exponent). `inf`, `nan` and anything else give None, since `int()` raises on them. A JSON boolean follows `int(float(True))`.
- Text.PyInt: the digit limit is CPython's default. Changing it with `sys.set_int_max_str_digits` or `PYTHONINTMAXSTRDIGITS`, and interpreters without the limit, are not modelled. A decoded JSON integer of more than 4300 digits cannot come out of `json.loads`, which raises on it, so the decoded blocks given to the model are taken to hold none.
- Floats.TruncNearest: a value below the normal range (under 2^-1022) is rounded with 53 bits of precision and not to a subnormal. This does not change the result, because both truncate to 0.
- Markup.IsWordChar: Python's `\w` is any alphanumeric code point or `_`. The model is exact for U+0000-U+024F and the Cyrillic block U+0400-U+04FF. Other scripts (such as Greek letters or Arabic-Indic digits) are taken as non-word characters, so next to them `\b` may accept a plate that Python rejects. The full Unicode database is out of scope.
- Json.StrDigits: `str()` of a list, a dict or a boolean is taken to have no digits, and `str()` of a float is not modelled.
- Text.IsDigit: only ASCII digits are digits. Unicode `\d`, `\D` and `str.isdigit` beyond ASCII are not modelled, and neither is Unicode case folding under `re.I`.
- Markup: the regexes are hand-coded for the fixed patterns of the source, not a general regex engine.
- Run.Collab: `parse_card` (modelled in `Parser.ParseCard`) enters the orchestrator as an oracle on (URL, html). Every collaborator answers per URL, so a URL listed twice gets the same outcomes both times.
- Run.Upsert: a failed commit leaves the table as it was. The state of the database session after a failed statement is not modelled.
- The summary lines and the per-URL log lines are `print` output.
- `start_scheduler`, `main`, `init_db` and the cron wiring of `run.py` are left out, because they are scheduling and process setup. `app/jobs.py` (a `pg_dump` subprocess), `app/settings.py` (environment variables) and `app/db/database.py` are not part of this model. The `url` uniqueness of `app/db/models.py` is the map's key.
- The network client of `fetch_phone_number` and of `_fetch_phone_number`: only the reply handling is modelled.
