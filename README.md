# AmazonScrape core, modelled in Dafny

This project models the core of the AmazonScrape scraper: the `Amazon` class
of `scrapers/scraper.py` and the helpers of `tools.py`.

- **Page count** (`num_of_pages`): read from the last page indicator. A
  missing indicator means 1 page, and a non-numeric one means 2.
- **Page links** (`split_url`): the links of all result pages, made by
  rewriting the `page=` and `sr_pg_` numbers of the "next page" link.
- **ASIN** (`getASIN`): the product identifier taken from a product URL.
- **Category name** (`category_name`): read through a chain of four
  selectors.
- **Product links** (`product_urls`): read from the cards of a search page.
- **Product record** (`scrape_product_info`): the sixteen fields of one
  product page.
- **Crawl** (`crawl_url`): gathers the product links of every result page.
- **Retries**: the three loops that retry, sleep and give up. Their sleeps
  are recorded.
- **`tools.py`**: the sentinel readers, the random delay and random choice,
  the search-link check, and the cleaning of review counts.

A parsed page is a tree of `Dom.Element`s. Each element has text, attributes
and, for each selector key, the elements it matches in document order.
Selectors are keys; CSS is not interpreted.

A request for a page is answered by a fetch oracle, a function from the
attempt number to `Fetched(page)`, `Reset` (a `ConnectionResetError`) or
`Failed` (any other error). Each retry loop is a `method` proved equal to a
specification function. The specification names the first attempt that
ends the loop, what the loop then returns or raises, and the trace of
requests and sleeps. Lemmas state the closed form of that trace: how many
requests are made and how long the loop sleeps. For `num_of_pages` they also
show that no sleep follows its last attempt; the other two loops can end
with a sleep (see below).

Python's string primitives are written out in `Strings`:

- `str.strip()`, using the whitespace set of `str.isspace()`;
- `str.split()`, `str.replace` and `re.sub` over a character class;
- which texts `int()` and `float()` accept. They skip less whitespace than
  `str.strip()`: CPython's number parser does not skip the separators
  U+001C to U+001F, so `int("1\x1c")` raises even though the text strips
  to "1". `int()` also refuses decimal text of more than 4300 digits
  (underscores not counted), CPython's default limit on integer string
  conversion since 3.11, so an indicator of 4301 digits gives 2 pages;
- decimal rendering.

The code is followed wherever it does something other than what its
comments suggest:

- `product_urls` makes up to 13 attempts, whatever `max_retries` is. It
  stops at the first attempt that brings a page whose cards all have
  links. It uses `max_retries` only in the sleep guard and in the message
  of the final exception.
- In `product_urls` and `scrape_product_info`, the `ConnectionResetError`
  handler formats a variable `e` that is not bound. A reset therefore
  escapes as `UnboundLocalError` instead of being retried.
- `scrape_product_info` returns the empty list after its first failed
  attempt. It never retries. When `max_retries` is above 1 it still sleeps
  4 s after that attempt, so its trace is a request and then that sleep.
- When `max_retries` is 14 or more, an exhausted `product_urls` sleeps 4 s
  after its 13th attempt as well, just before it raises.
- If `float()` refuses the price or the deal price, the whole attempt fails.
  A refused rating or rating count only becomes `"N/A"`.

## Model

| member | source | states |
|---|---|---|
| Strings.Strip | scrapers/scraper.py:244 | `.strip()`: the result is the slice after the leading whitespace, only whitespace follows it, and it neither starts nor ends with whitespace |
| Strings.StripIdempotent | tools.py:45 | stripping twice is stripping once |
| Strings.SplitContains | scrapers/scraper.py:261 | `Split` (`text.split()`): `w in text.split()` holds exactly when `w` occurs in the text as a whole whitespace-delimited word |
| Strings.RemoveChars | scrapers/scraper.py:264 | `re.sub` over a character class: the result is no longer than the text and holds no character of the class |
| Strings.RemoveCharsAppend | scrapers/scraper.py:282 | character removal distributes over concatenation |
| Strings.RemoveCharsIdempotent | scrapers/scraper.py:174 | removing a class twice is removing it once |
| Strings.ReplaceAbsent | scrapers/scraper.py:304 | `Replace` (`str.replace`) leaves a text without the pattern unchanged |
| Strings.ReplaceLeading | scrapers/scraper.py:304 | `str.replace` rewrites a leading occurrence and continues after it |
| Strings.ReplaceCopies | scrapers/scraper.py:278 | `str.replace` copies a prefix none of whose characters opens the pattern, and goes on after it |
| Strings.Decimal | scrapers/scraper.py:129 | f-string rendering of a natural number: non-empty digits, no leading zero, denoting the number |
| Strings.ParseIntDecimal | scrapers/scraper.py:90 | `ParseInt` (`int()`) reads back every rendered natural number below 10^4300, and refuses (ValueError) every longer rendering, by CPython's 4300-digit limit |
| Strings.DecimalLength | scrapers/scraper.py:90 | a natural number renders in at most k digits exactly when it is below 10^k, which ties the digit limit to a bound on the value |
| Strings.ParseIntNeedsDigit | scrapers/scraper.py:90-92 | `int()` refuses a text without a digit |
| Strings.NumberTextIsStrip | scrapers/scraper.py:90 | on text without the separators U+001C to U+001F, the whitespace `int()` and `float()` skip is exactly what `.strip()` removes |
| Strings.IntRefusesSeparator | scrapers/scraper.py:90 | a trailing U+001C is removed by `.strip()` but makes `int()` raise |
| Strings.FloatAcceptsPlainDecimal | scrapers/scraper.py:264 | `FloatAccepts` (`float()` does not raise) holds for digits, a point and digits |
| Strings.FloatAcceptsDigits | scrapers/scraper.py:282 | `float()` accepts a plain run of digits |
| Scraper.ExhaustedMessage | scrapers/scraper.py:101 | the message of the exhausted-retries exception: "Failed to retrieve valid data after ", the rendering of `max_retries`, " retries." |
| Scraper.ExhaustedMessageNames | scrapers/scraper.py:101 | the message names `max_retries`: two calls raise the same message only when they were given the same `max_retries` |
| Scraper.CatchText | scrapers/scraper.py:84 | the scraper's text reader gives the sentinel for a missing element and the stripped text otherwise |
| Scraper.CatchAttribute | scrapers/scraper.py:125 | the scraper's attribute reader gives the sentinel for a missing element and the attribute (or None) otherwise |
| Dom.SelectOne | scrapers/scraper.py:171 | `select_one` is the first match of `select`, or None |
| Pages.PageCountWithoutIndicator | scrapers/scraper.py:82-85 | `PageCount`: no page indicator means one page |
| Pages.PageCountNumeric | scrapers/scraper.py:84-92 | an indicator reading a number gives that number when it is below 10^4300, and 2 otherwise, because `int()` raises on more than 4300 digits |
| Pages.PageCountNonNumeric | scrapers/scraper.py:88-92 | an indicator without a digit ("Previous") gives 2 |
| Pages.MatchLength | scrapers/scraper.py:129 | `page=\d+` matches exactly where the key is followed by a digit; the match covers only digits after the key and stops at the first non-digit |
| Pages.SubNumberedNumbers | scrapers/scraper.py:129 | `SubNumbered`: after `re.sub(key\d+, key+num)`, every key followed by a digit is followed by exactly `num` and then a non-digit |
| Pages.SubNumberedAbsent | scrapers/scraper.py:129-132 | a link without the key and a digit is left unchanged |
| Pages.SubNumberedMatch | scrapers/scraper.py:129-132 | `SubNumbered` (the `re.sub`): the text before the first match is copied, the key with its whole digit run becomes key+num, and the rewrite goes on after the run |
| Pages.TrackKeepsPageNumbers | scrapers/scraper.py:132 | the `sr_pg_` rewrite preserves the renumbered `page=` values |
| Pages.PageUrlNumbers | scrapers/scraper.py:126-133 | `PageUrl`: in the link of page k+1, every `page=` reads k+1 and every `sr_pg_` reads k |
| Pages.NextLink | scrapers/scraper.py:125 | the next-page link is the site root followed by the next button's href, "None" when the button has no href and the sentinel when there is no button |
| Pages.PlannedUrls | scrapers/scraper.py:113-134 | `split_url`'s list: the search URL first, then the rewritten link of each further page; max(1, total) links |
| Pages.PlannedUrlsGrow | scrapers/scraper.py:126-133 | one more loop iteration appends one link and changes none of the earlier ones |
| Asin.GetAsin | scrapers/scraper.py:150-155 | the ASIN is the sentinel exactly when no `dp/` is followed by a class character, otherwise a non-empty run of class characters |
| Asin.GetAsinLeftmostLongest | scrapers/scraper.py:150-152 | the ASIN is the longest class run after the leftmost usable `dp/` |
| Asin.GetAsinWithoutDp | scrapers/scraper.py:151-154 | a URL without `dp/` has no ASIN |
| Asin.GetAsinOfProductPath | scrapers/scraper.py:150-155 | `.../dp/<asin><non-class char>...` gives `<asin>` |
| Category.FirstPresent | scrapers/scraper.py:170-179 | the fallback chain picks the first selector that matches; later ones are consulted only when all earlier ones match nothing |
| Category.SearchTitle | scrapers/scraper.py:170-179 | the title exists exactly when one of the four selectors matches; it is the stripped text of the first that matches, with `"` removed only for searches_II; otherwise AttributeError for searches_IV |
| Category.CategoryName | scrapers/scraper.py:157-181 | the name is returned exactly when the page is fetched and some selector matches, and it is "{region} - {title}." with the title `SearchTitle` reads; a reset propagates |
| Category.FirstSelectorWins | scrapers/scraper.py:170-171 | when searches_I matches, its stripped text is the title |
| Category.TitleFromSelector | scrapers/scraper.py:170-179 | when the k-th selector matches and no earlier one does, its stripped text is the title; searches_I, III and IV keep their double quotes |
| Category.SecondSelectorDropsQuotes | scrapers/scraper.py:172-174 | the searches_II title loses every double quote |
| Product.Amount | scrapers/scraper.py:263-272 | the sentinel stays; any other price is returned exactly when `float()` accepts it without the currency characters, and it is then that text |
| Product.AmountOfMarkedPrice | scrapers/scraper.py:263-264 | any price text other than the sentinel that the currency clean-up reduces to digits, a point and digits is read as exactly that decimal |
| Product.AmountWithSeparator | scrapers/scraper.py:37 | a price with currency marks in front and a thousands separator in its whole part, such as "$1,299.99", is read without them, as "1299.99" |
| Product.JoinSnoc | scrapers/scraper.py:293-294 | `' '.join`: one part gives that part, and one more part is appended after a single space |
| Product.JoinLength | scrapers/scraper.py:293-294 | the length of `' '.join(parts)` is the parts' total length plus one per gap between neighbours |
| Product.JoinPlaces | scrapers/scraper.py:293-294 | part i appears unchanged in the joined text right after the earlier parts and one space per earlier part, and is followed by a space unless it is last |
| Product.Texts | scrapers/scraper.py:293-294 | one stripped text per matched element, in document order |
| Product.PriceFallsBack | scrapers/scraper.py:260-262 | `PriceText`: a price with the word "Page" is replaced by the `price_us_i` text |
| Product.PriceKept | scrapers/scraper.py:260-262 | `PriceText`: a price without the word "Page" is kept |
| Product.DealDropsPage | scrapers/scraper.py:265-268 | `DealText`: a deal price with the word "Page" becomes the sentinel |
| Product.DealKept | scrapers/scraper.py:265-268 | `DealText`: a first deal price without the word "Page" is kept |
| Product.DealText | scrapers/scraper.py:265-270 | no `deal_price` match gives the sentinel |
| Product.Availability | scrapers/scraper.py:256-259 | the stripped availability text, or "In stock" when there is none |
| Product.Lenient | scrapers/scraper.py:277-284 | a rating is a number exactly when `float()` accepts its text, and the number keeps that text; the sentinel otherwise |
| Product.Rating | scrapers/scraper.py:277-280 | the rating is a number exactly when the review element is present and `float()` accepts its stripped text without " out of 5 stars"; the number is that text |
| Product.RatingOfStars | scrapers/scraper.py:278 | "4.5 out of 5 stars" gives the rating 4.5 |
| Product.RatingCount | scrapers/scraper.py:281-284 | the rating count is a number exactly when the element is present and `float()` accepts its stripped text without commas, whitespace and the letters of "ratings"; the number is that text |
| Product.RatingCountOfLabel | scrapers/scraper.py:282 | "1,234 ratings" (or "87 ratings") gives the count 1234 (or 87) |
| Product.Saved | scrapers/scraper.py:273-276 | the stripped text of the last `savings` match, or the sentinel when there is none |
| Product.ImageLink | scrapers/scraper.py:252-255 | the `src` of the first `image_link_i` match (None when it has none); without one, that of `image_link_ii`; without either, the sentinel |
| Product.StoreDropsVisitThe | scrapers/scraper.py:304 | `StoreName`: "Visit the X" gives "X" |
| Product.Images | scrapers/scraper.py:303 | one image entry per `image_lists` match, in order, each that match's `src` (None when it has none) |
| Product.ProductName | scrapers/scraper.py:244-249 | the name is returned exactly when it is present and not the sentinel |
| Product.ExtractRecord | scrapers/scraper.py:241-306 | an attempt yields a record exactly when the name, the price and the deal price all succeed; every field of the record is then the value its reader gives |
| Product.CardLinks | scrapers/scraper.py:207 | the links are returned exactly when every card has a link: one per card, in order, each the site root plus the card's href |
| Retry.FirstFetched | scrapers/scraper.py:77-80 | the first attempt that brings a page: every earlier attempt failed |
| Retry.PagesRunShape | scrapers/scraper.py:77-101 | `num_of_pages` requests once per attempt up to the first fetched page (all of them when none is fetched) and sleeps 5 s after a reset and 4 s after another failure, never after its last attempt |
| Retry.PagesRunOutcome | scrapers/scraper.py:78-92 | `num_of_pages` returns the page count of the first fetched page |
| Retry.PagesRunRaises | scrapers/scraper.py:77-101 | `num_of_pages` raises exactly when no attempt fetches a page, and it raises the exhausted-retries exception |
| Retry.NumOfPages | scrapers/scraper.py:67-101 | the retry loop does what `PagesRun` describes: its result and its trace of requests and sleeps |
| Retry.FirstSettled | scrapers/scraper.py:185-208 | the first attempt that ends `product_urls`: a reset, or a page whose cards all have links |
| Retry.LinksRunShape | scrapers/scraper.py:184-217 | `product_urls` makes s+1 attempts (13 when it is exhausted), each with a request and a 5 s sleep, plus 4 s after each failure below `max_retries - 1`; it raises the exhausted exception exactly when all 13 attempts fail |
| Retry.LinksExhausted | scrapers/scraper.py:185-217 | when all 13 attempts fail, `product_urls` raises the exhausted exception quoting `max_retries`, after 13 requests |
| Retry.LinksExhaustedEndsAsleep | scrapers/scraper.py:213-217 | with `max_retries` above 13, an exhausted `product_urls` ends with a 4 s sleep after its 13th attempt |
| Retry.LinksResetEscapes | scrapers/scraper.py:209-210 | a reset escapes at once as UnboundLocalError |
| Retry.ProductUrls | scrapers/scraper.py:184-217 | the retry loop does what `LinksRun` describes |
| Retry.ProductRunOnce | scrapers/scraper.py:236-318 | `scrape_product_info` requests at most once, sleeps at most 4 s and returns at most one record, and a record exactly when the first fetch yields one |
| Retry.ProductFailureSleeps | scrapers/scraper.py:313-317 | a failed first attempt with `max_retries` above 1 returns the empty list after one request and a 4 s sleep |
| Retry.ScrapeProductInfo | scrapers/scraper.py:220-318 | the loop does what `ProductRun` describes |
| Crawl.SplitRunLinks | scrapers/scraper.py:103-134 | `split_url` returns the search URL first and one correctly renumbered link per further page |
| Crawl.SplitUrl | scrapers/scraper.py:103-134 | the method does what `SplitRun` describes |
| Crawl.Gather | scrapers/scraper.py:329 | `asyncio.gather` returns all values in order exactly when every task returns; otherwise it raises the first error in task order |
| Crawl.FlattenAppend | scrapers/scraper.py:331 | `Flatten` (`flat`) keeps the links of earlier pages first |
| Crawl.FlattenContains | scrapers/scraper.py:331 | a link is in the flat list exactly when it is in one of the page lists |
| Crawl.LinksRunOnSite | scrapers/scraper.py:207 | every link `product_urls` returns starts with the site root |
| Crawl.CrawlRunLinks | scrapers/scraper.py:321-331 | `crawl_url` succeeds exactly when `split_url` and every `product_urls` call succeed; every link it returns lies on the site |
| Crawl.CrawlUrl | scrapers/scraper.py:321-331 | the method does what `CrawlRun` describes |
| Tools.TryExceptText | tools.py:43-47 | the sentinel for a missing element; otherwise its inner text stripped, which has no surrounding whitespace |
| Tools.TryExceptTextExact | tools.py:45 | a text without surrounding whitespace is read unchanged |
| Tools.TryExceptAttribute | tools.py:49-53 | the sentinel for a missing element; otherwise the attribute's value, or None when the element lacks it |
| Tools.Shuffle | tools.py:14 | `random.shuffle` leaves the list a permutation of itself |
| Tools.RandomMe | tools.py:10-16 | the list stays a permutation; the choice fails exactly on an empty list and is otherwise one of its elements |
| Tools.Candidates | tools.py:23 | the candidates are 3, 4, …, val in order, max(0, val - 2) of them |
| Tools.CandidatesMembers | tools.py:23 | x is a candidate exactly when 3 <= x <= val |
| Tools.RandomTime | tools.py:22-24 | a delay is chosen exactly when val >= 3, and lies between 3 and val |
| Tools.SearchLinkAccepted | tools.py:66 | `IsAmazonSearchLink`: every link "https://www", any non-newline character, "amazon.", "com" or "co.uk", "/s?" and one more non-newline character passes the check (the dot after "www" is unescaped) |
| Tools.SearchLinkOnly | tools.py:66-69 | only such links pass |
| Tools.SearchLinkNeedsQuery | tools.py:66 | a link that ends right after "/s?" is refused |
| Tools.ReviewCount | tools.py:109 | the review count is the text the reader gives with every parenthesis removed and every other character kept in order |
| Tools.ReviewCountUnwraps | tools.py:109 | "(1,234)" gives "1,234" |

## Left out

- HTTP requests and HTML parsing (`Response`, BeautifulSoup, Playwright) are
  not modelled. A fetch oracle and a tree of selector matches stand in for
  them, and CSS selectors are not interpreted.
- `asyncio` concurrency is not modelled. `crawl_url`'s tasks run one after
  the other, so `Gather` reports the first error in task order, not the
  first to occur in time. The sleeps are recorded, not awaited.
- Printing is not modelled.
- `Strings.MaxStrDigits` is CPython's default of 4300 digits. Changing it
  with `sys.set_int_max_str_digits` or `PYTHONINTMAXSTRDIGITS` is not
  modelled, nor are Python versions before 3.11, which have no limit.
- `Strings.Decimal` does not model the same 4300-digit limit on rendering
  an int with an f-string. A page number stays below it, because the page
  count comes through `int()`. A `max_retries` of 10^4300 or more would make
  the f-string of the exhausted-retries message raise ValueError; the model
  renders the number.
- Float values are not computed. A number field keeps the literal that
  `float()` accepted.
- `int()`, `float()` and `\d` also accept non-ASCII Unicode digits. The model
  accepts ASCII digits only.
- The `main_content` error-string return of `product_urls`
  (scrapers/scraper.py:202-205) is left out. `select_one` raising on a
  malformed selector has no counterpart in a page of selector keys.
- `tools.tool` is not part of this model. That module provides the scraper's
  `TryExcept`, `flat`, `domain`, `check_domain`, `verify_amazon`,
  `yaml_load` and `userAgents`.
  - `Scraper.CatchText` and `Scraper.CatchAttribute` assume it behaves like
    the `TryExcept` of `tools.py`.
  - `Crawl.Flatten` assumes `flat` is list concatenation.
  - The country domain and region are taken as given fields of `Amazon`.
- `Tools.RandomMe` leaves the random source open: any index in range may be
  picked. Seeding with `random.seed` is not modelled, and neither is the
  actual distribution.
- The browser loop of `amazonMe` (tools.py:71-121) is not modelled. Only its
  link check (tools.py:66) and its review-count cleaning (tools.py:109) are.
  Reading YAML files and the user-agent file (tools.py:28-38) is left out
  too.
- `status`, `scrape_and_save`, `csv_sheet`, `concurrent_scraping` and
  `export_csv` (scrapers/scraper.py:57-65, 334-433) are left out. They do
  I/O and export through pandas.
