# MercadoLibre car-listing scraper: a Dafny model

This project models the core of a small web application that scrapes
used-car listings from MercadoLibre Argentina and stores daily snapshots of
them. Two views are computed from the stored snapshots: a price-variation
tag for each freshly scraped row, and a per-listing price history. The
model covers these parts:

- **The crawl** (`scrape_mercado_libre`). It builds the URL of each results
  page from the search term and an offset. It stops at the first page that
  is a 404, an HTTP error, a failed request, a "no results" page or a page
  without item containers. Each item is normalised into a listing. An item
  whose numeric fields do not convert is skipped.
- **The persist loop.** Each scraped row is stamped with the run's UTC
  timestamp and its `YYYY-MM-DD` date. It is then upserted with
  `replace_one(..., upsert=True)` on the key (search term, description,
  date).
- **The price-variation column** of the index view.
- **The `/history` aggregation.**
- **The `WebLogger`** buffer that replaces standard output.
- **The seed script:** `SAMPLE_CARS` and `recreate_database`.

## Modules

| file | module | what it holds |
|---|---|---|
| `text.dfy` | `Text` | the Python string operations the core relies on: `str.strip` with Python's whitespace set, `str.replace`, `int(text)` as a partial parse, `str(n)`, zero-padded `strftime` fields, and code-point string order `<` |
| `listings.dfy` | `Listings` | the raw item found in the page, the listing record, the field defaults and the three numeric conversions |
| `crawl.dfy` | `Crawl` | page URLs, page outcomes, the order of the stop checks, the items accumulated, and the crawl loop as a method |
| `store.dfy` | `Store` | timestamps and `date_str`, snapshots, the upsert key, `replace_one` with upsert, and the collection as a class |
| `views.dfy` | `Views` | the variation lookup and tag, and the history grouping, sorting and averaging |
| `weblog.dfy` | `WebLog` | the `WebLogger` class |
| `scrape.dfy` | `Scrape` | stamping, the persist loop, `scrape_mercado_libre` as a whole and the index view's search path |
| `seed.dfy` | `Seed` | `SAMPLE_CARS` and `recreate_database` |

### Modelling choices

**Network and HTML.**
- The network and the HTML parser are abstract. The site is a sequence of
  page outcomes, indexed by page number minus one.
- Each outcome is one of:
  - `Response(status, page)`, where the page holds the "no results" flag
    and the raw items;
  - `RequestFailed`, for any exception raised by `requests.get` or by
    parsing.
- A raw item holds what the selectors found:
  - the title anchor (its text and its `href`, if any);
  - the price fraction text;
  - the attribute list texts;
  - the location text.
  `None` stands for a missing element.

**Python semantics.**
- `int(text)` is Python's base-10 conversion, returning `None` where Python
  raises:
  - surrounding whitespace is ignored, except for the information
    separators U+001C to U+001F: `str.isspace()` holds for them, yet any
    text holding one makes `int()` raise;
  - an optional sign is allowed;
  - ASCII digits may be separated by single underscores;
  - leading zeros are allowed.
- `raise_for_status` raises for statuses 400 to 599. A 404 is caught before
  it.
- A BeautifulSoup tag is always truthy. So an element with an empty text
  falls back to the default. An element whose text is only whitespace gives
  the empty string; for the price that is `US$`, which `int()` rejects.
- String comparison, and the store's `$lt` on strings, compare code points
  lexicographically (`Text.LexLess`).

**The store.**
- The store is a sequence of documents, in insertion order.
- `find_one` with a descending sort on `date_str` returns a document with
  the greatest date among those the filter matches. On a tie the model
  returns the first in collection order. With unique keys, two matches
  cannot share a date.

**Clock and time.**
- `datetime.utcnow()` becomes a parameter: the run's `Timestamp`, and the
  `today` string of the variation lookup.
- `strftime('%Y-%m-%d')` zero-pads to four, two and two digits.

**What the code does not do.** The code extracts no listing identifier
from the link, infers no currency, does not retry a request and does not
detect blocked pages. The upsert key is the description. Every price is
prefixed with `US$`. A failed request ends the crawl.

## Definitions

The functions the lemmas of the model table speak about, with the source
lines each one models and the members that state its properties.

| definition | source | specified by |
|---|---|---|
| `Text.ParseInt` | main.py:93-95 | `Text.ParseIntOfString`, `Text.ParseIntPadded`, `Text.ParseIntBlank`, `Text.ParseIntDigits`, `Text.SeparatorRejected`, `Text.SeparatorPadding` |
| `Listings.TextOr` | main.py:78 | `Listings.TextOrClean`, `Listings.TitleClean` |
| `Listings.LinkOf` | main.py:79 | `Listings.LinkOfSource` |
| `Listings.Detail` | main.py:85-87 | `Listings.DetailClean`, `Listings.ExtraDetailsIgnored` |
| `Listings.PriceNum` | main.py:93 | `Listings.PriceOfDisplay`, `Listings.ZeroNotOnlyMissing`, `Listings.BlankPriceSkipsItem` |
| `Listings.YearNum` | main.py:94 | `Listings.YearOfDisplay`, `Listings.MissingIsZero` |
| `Listings.KilometersNum` | main.py:95 | `Listings.KilometersOfDisplay`, `Listings.MissingIsZero` |
| `Listings.TakenFrom` | main.py:78-90 | `Listings.TextOrClean`, `Listings.DetailClean`, `Listings.DrawnFromUnique` |
| `Listings.DrawnFrom` | main.py:77-90 | `Listings.NormalizeFields`, `Listings.DrawnFromUnique`, `Crawl.KeptFrom` |
| `Listings.Normalize` | main.py:76-112 | `Listings.NormalizeFields`, `Listings.ExtraDetailsIgnored`, `Listings.BlankPriceSkipsItem` |
| `Crawl.PageUrl` | main.py:50 | `Crawl.PageUrlShape`, `Crawl.PageUrlInjective` |
| `Crawl.Judge` | main.py:53-73 | `Crawl.JudgeOrder` |
| `Crawl.Kept` | main.py:75-112 | `Crawl.KeptAppend`, `Crawl.KeptCount`, `Crawl.KeptFrom`, `Crawl.KeptAll` |
| `Crawl.Accumulated` | main.py:49-119 | `Crawl.AccumulatedAppend`, `Crawl.AccumulatedTerm`, `Crawl.CrawlPages` |
| `Store.DateStr` | main.py:127 | `Store.DateStrShape`, `Store.DateStrFields`, `Store.DateStrSameDay`, `Store.DateStrOrder` |
| `Store.UpsertAll` | main.py:128-137 | `Store.UpsertAllUnique`, `Store.UpsertAllLatest`, `Store.UpsertAllOthers`, `Store.UpsertAllSize` |
| `Views.LatestBefore` | main.py:154-158 | `Views.LatestBeforeSpec`, `Views.LatestBeforeUpserted`, `Views.LatestBeforeUpsertAll` |
| `Views.PreviousPrice` | main.py:154-159 | `Views.LatestBeforeSpec` (the document it reads), `Views.VariationExample`, `Views.PriceVariations`, `Scrape.VariationIgnoresRun` |
| `Views.Entries` | main.py:421-425 | `Views.EntriesFrom`, `Views.ZeroPriceIgnored` |
| `Views.GroupsOf` | main.py:420-426 | `Views.GroupsOfPrices`, `Views.DatesHavePrices`, `Views.GroupStep` |
| `Views.Averages` | main.py:427-430 | its own contract, and `Views.History` |

## Model

| member | source | states |
|---|---|---|
| Text.Strip | main.py:24-26 | `str.strip()`: the result has no leading or trailing whitespace, and an already stripped string is unchanged |
| Text.StripEmpty | main.py:25 | the stripped text is empty exactly when the input is all whitespace |
| Text.StripIdempotent | main.py:25-26 | stripping twice is stripping once |
| Text.StripPadded | main.py:93 | whitespace around a text does not change its stripped form |
| Text.ParseIntOfString | main.py:93-95 | `int(str(n)) == n` for every integer (CPython's digit limit is under Left out) |
| Text.ParseIntOfNatural | main.py:94 | `int()` reads back the decimal form of every natural number |
| Text.ParseIntPadded | main.py:93-95 | `int()` ignores surrounding whitespace other than U+001C to U+001F |
| Text.SeparatorRejected | main.py:93-95 | a text holding one of U+001C to U+001F never converts, although `str.isspace()` holds for those characters |
| Text.SeparatorPadding | main.py:93-95 | `strip()` removes a leading U+001C but `int()` does not: the padded digits fail to convert while the bare digits convert |
| Text.ParseIntBlank | main.py:93 | `int()` raises on blank text |
| Text.ParseIntDigits | main.py:93-95 | `int()` of a non-empty digit string is its decimal value |
| Text.PaddedValue | main.py:127 | a zero-padded `strftime` field reads back as the number it was printed from |
| Text.ReplaceAllLeading | main.py:93 | `replace(pat, rep)` rewrites a leading occurrence and continues after it |
| Text.ReplaceAllNoMatch | main.py:93-95 | `replace` leaves a text without the pattern's first character unchanged |
| Text.ReplaceCharByChar | main.py:50 | replacing a character by another keeps the length, maps each position and removes every occurrence |
| Text.RemoveCharGone | main.py:93-95 | after `replace('.', '')` no dot is left |
| Text.LexTransitive | main.py:157 | string `<` is transitive |
| Text.LexTotal | main.py:157 | any two distinct strings are ordered by `<` |
| Text.LexDigits | main.py:157 | on digit strings of equal length `<` agrees with numeric order |
| Listings.TextOrClean | main.py:78 | the text taken from an element is the default when the element is absent or its text empty, and its stripped text otherwise; it has no surrounding whitespace when the default has none; with a non-empty default it is empty exactly when the element's text is whitespace only; a text without surrounding whitespace is taken unchanged |
| Listings.LinkOfSource | main.py:79 | the link is `#` or the anchor's own `href`, and an `href` that is present is always the link |
| Listings.PriceDisplay | main.py:82-83 | the displayed price is `N/A` exactly when the fraction element is absent or its text empty; otherwise it is `US$` followed by the stripped fraction text |
| Listings.PriceDisplayClean | main.py:82-83 | the displayed price has no surrounding whitespace |
| Listings.DetailClean | main.py:85-87 | the year or distance text is `N/A` when its attribute entry is missing or empty, and the stripped entry otherwise; it has no surrounding whitespace, and is empty exactly when its attribute entry exists and is whitespace only |
| Listings.TitleClean | main.py:78 | the description is `No title` without an anchor or with an empty anchor text, and the stripped anchor text otherwise; it has no surrounding whitespace, and is empty exactly when the title anchor's text is whitespace only |
| Listings.NormalizeFields | main.py:76-108 | an item is kept exactly when its three numeric fields convert; a kept listing carries the search term, has numbers that are the conversions of its display fields, no identifier or image, and no surrounding whitespace in any text field; its link is the anchor's `href` when there is one and `#` otherwise; its description, location, year and distance are the stripped texts of their elements, or `No title`/`N/A` when the element is absent or empty; its price is `N/A` exactly when the fraction is absent or empty, and `US$` followed by the stripped fraction otherwise; its description is empty exactly when the title text is whitespace only |
| Listings.DrawnFromUnique | main.py:77-90 | these relations to the item fix every text field and the link: two listings drawn from one item agree on all of them |
| Listings.ExtraDetailsIgnored | main.py:85-87 | attribute entries after the first two do not change the normalised item |
| Listings.MissingIsZero | main.py:93-95 | a display field of `N/A` converts to 0 |
| Listings.ZeroNotOnlyMissing | main.py:93 | 0 does not imply `N/A`: `US$0` also converts to 0 |
| Listings.BlankPriceSkipsItem | main.py:83-112 | a whitespace-only price text displays as `US$`, whose conversion raises, so the item is skipped |
| Listings.Thousands | main.py:83 | the site's dotted number format consists of digits and dots and starts with a digit |
| Listings.ThousandsDigits | main.py:93 | removing the dots from the dotted form leaves digits denoting the number |
| Listings.PriceOfDisplay | main.py:93 | `price_num` of `US$` plus the dotted form of `n` is `n` (so `US$22.000` gives 22000) |
| Listings.KilometersOfDisplay | main.py:95 | `kilometers_num` of the dotted form of `n` followed by ` Km` is `n` |
| Listings.YearOfDisplay | main.py:94 | `year_num` of a plain decimal year is that year |
| Listings.DisplayedConsistent | main.py:93-95 | a listing displayed the site's way, with the matching numbers, is consistent with the normaliser |
| Crawl.Offset | main.py:50 | the offset of a page is positive and one more than a multiple of 48 |
| Crawl.SlugOfTerm | main.py:50 | `replace(' ', '-')` keeps the term's length, changes only its spaces and leaves none |
| Crawl.PageUrlShape | main.py:50 | the URL is exactly the base URL, the term with spaces turned into dashes, `_Desde_` and `(page-1)*48+1` in decimal, and that offset text reads back as the number |
| Crawl.FirstOffsets | main.py:50 | page 1 has offset 1 and page 2 offset 49 |
| Crawl.PageUrlInjective | main.py:50 | distinct pages of one search have distinct URLs |
| Crawl.JudgeOrder | main.py:53-119 | a page proceeds exactly when it fetched, is not an HTTP error, has no "no results" marker and has items; otherwise the stop reason follows the check order 404, other HTTP error, no results, no items, and a failed request |
| Crawl.FirstStop | main.py:49-119 | the crawl stops at the first terminal page |
| Crawl.KeptAppend | main.py:75-112 | keeping items distributes over concatenation, so order is preserved |
| Crawl.KeptCount | main.py:110-112 | a page contributes its item count minus the number of items whose conversion fails |
| Crawl.KeptFrom | main.py:75-108 | every kept listing is the normalisation of one of the page's items, and its link, description, price, year, distance and location are drawn from that item's elements as `Listings.NormalizeFields` states; it carries the term, is consistent and has no surrounding whitespace in its text fields |
| Crawl.KeptAll | main.py:75-108 | when every item converts, the kept listings are the items' normalisations, position by position |
| Crawl.AccumulatedAppend | main.py:97 | the listings of consecutive page runs concatenate in page order |
| Crawl.AccumulatedTerm | main.py:75-108 | every accumulated listing carries the crawl's search term, is consistent, has no identifier or image and no surrounding whitespace in its text fields |
| Crawl.RequestedAt | main.py:46-114 | the `n`-th URL requested is that of page `n` |
| Crawl.KeepItems | main.py:75-112 | the inner loop keeps exactly the page's convertible items, in order |
| Crawl.CrawlPages | main.py:46-119 | the loop requests pages 1 up to the first terminal page, one each; it stops for that page's reason; it returns the listings kept from the earlier pages, page after page |
| Store.DateStrShape | main.py:127 | `strftime('%Y-%m-%d')` of a valid timestamp is ten characters with dashes at positions 4 and 7 |
| Store.DateStrFields | main.py:127 | the date string's year, month and day fields read back as the timestamp's |
| Store.DateStrSameDay | main.py:127-135 | two timestamps give the same date string exactly when they fall on the same day |
| Store.DateStrOrder | main.py:157 | date strings compare with `<` exactly as their days do |
| Store.Upserted | main.py:137 | `replace_one(..., upsert=True)` replaces the first matching document in place (every other position is unchanged), or appends when nothing matches |
| Store.UpsertedUnique | main.py:132-137 | upserting under a document's own key keeps keys unique, and afterwards it is the only document with that key |
| Store.UpsertedTwice | main.py:132-137 | a second upsert under the same key is the same as upserting the second document alone |
| Store.UpsertAllUnique | main.py:128-137 | a run of upserts keeps the store free of duplicate keys |
| Store.UpsertAllLatest | main.py:128-137 | the document stored under a key is the last one upserted with that key |
| Store.UpsertAllOthers | main.py:128-137 | a document whose key no record of the run has stays at its position |
| Store.UpsertAllSize | main.py:128-137 | a run grows the store by at most its number of records |
| Store.Collection.ReplaceOne | main.py:137 | the collection becomes the upserted sequence |
| Store.Collection.DeleteMany | seed_data.py:53 | the collection becomes empty |
| Store.Collection.InsertMany | seed_data.py:68 | the batch is appended in order |
| Views.LatestBeforeSpec | main.py:154-158 | none exactly when no document of the listing is dated before today; otherwise a matching document whose `date_str` no other match exceeds |
| Views.Variation | main.py:159-168 | `''` exactly without an earlier price; otherwise `↑`, `↓` or `=` exactly when the current price is greater, smaller or equal |
| Views.VariationSwapped | main.py:162-168 | exchanging the two prices exchanges rising and falling and keeps equality |
| Views.PriceVariations | main.py:151-170 | one tag per row, in row order, each the variation of that row against its latest earlier snapshot |
| Views.VariationExample | main.py:154-168 | a price going from 20000 yesterday to 22000 today is tagged `↑`, and without an earlier snapshot the tag is empty |
| Views.LatestBeforeUpserted | main.py:137-158 | upserting a document dated today or later does not change the lookup for today |
| Views.LatestBeforeUpsertAll | main.py:128-158 | neither does a run of such upserts |
| Views.EntriesFrom | main.py:421-426 | every price the history loop files is non-zero and comes from a document of the listing, under its timestamp's date |
| Views.DatesHavePrices | main.py:422-426 | a date has filed prices exactly when it is one of the filed dates |
| Views.ZeroPriceIgnored | main.py:424-425 | a document with price 0 files nothing |
| Views.GroupsOfPrices | main.py:420-426 | the dictionary's keys are exactly the filed dates, each holding that date's prices in collection order and never empty; the insertion order lists each key once and nothing else |
| Views.GroupStep | main.py:421-426 | one more document of the query is one more `setdefault(date, []).append(price)` when its price is non-zero, and changes nothing otherwise |
| Views.FloorMean | main.py:428 | the average is the floor of the mean |
| Views.Insert | main.py:429 | insertion into an ascending list of dates keeps it ascending and adds exactly the new date |
| Views.SortDates | main.py:429 | `sorted` gives a strictly ascending permutation of the distinct dates |
| Views.GroupPrices | main.py:420-426 | the grouping loop leaves the dictionary and its key order that the filed entries determine |
| Views.History | main.py:417-431 | the history has strictly ascending, hence unique, dates; they are exactly the dates with a non-zero price; each average is `sum // len` of that date's prices |
| WebLog.Logged | main.py:24-26 | `write` appends the stripped message exactly when it is not blank; earlier entries are unchanged |
| WebLog.LoggedClean | main.py:24-26 | the buffer never holds an empty or unstripped entry |
| WebLog.LoggedTwice | main.py:24-26 | writing an already stripped message logs the same as the original message |
| WebLog.PrintAddsOneLine | main.py:33 | a `print` writes its text and then a line end, and the line end adds nothing |
| WebLog.WebLogger.constructor | main.py:21-22 | the buffer starts empty |
| WebLog.WebLogger.Write | main.py:24-26 | the buffer becomes the logged sequence and stays clean |
| WebLog.WebLogger.Clear | main.py:148 | the index view empties the buffer before a search |
| Scrape.RunSharesStamp | main.py:126-136 | all records of a run share its timestamp and date, carry the search term and are filed under (term, description, date) |
| Scrape.Persist | main.py:128-137 | the store becomes the result of upserting the run's stamped records in order |
| Scrape.PageLineLogged | main.py:51 | a page line reaches the log unchanged, and the line end `print` adds is dropped |
| Scrape.AnnouncePages | main.py:51 | the log gains the page line of every requested URL, in page order |
| Scrape.ScrapeMercadoLibre | main.py:41-138 | the rows returned are the crawl's accumulated listings; an empty result leaves the store alone; otherwise the stamped rows are upserted; the log gains one page line per page requested |
| Scrape.ScrapeLatest | main.py:132-137 | after a run, the record stored for a listing on that date is the run's last row with its description, and no other record has that key |
| Scrape.ScrapeKeepsOtherDays | main.py:132-137 | a run never touches a record of another date, so earlier history survives |
| Scrape.VariationIgnoresRun | main.py:148-158 | the lookup runs after today's records are stored, but sees only earlier days, exactly as before the run |
| Scrape.IndexSearch | main.py:145-170 | the search path clears the log, scrapes, and tags every row against the updated store; the log then holds the page lines of the scrape |
| Seed.RecreateDatabase | seed_data.py:48-70 | the store afterwards holds exactly one stamped copy of each sample, in order, and nothing from before; the result is 3 |
| Seed.SamplesConsistent | seed_data.py:3-46 | every sample's `price_num`, `year_num` and `kilometers_num` is what the normaliser reads from its display fields |
| Seed.CorollaConsistent | seed_data.py:4-17 | the first sample is consistent |
| Seed.RangerConsistent | seed_data.py:18-31 | the second sample is consistent |
| Seed.GolfConsistent | seed_data.py:32-45 | the third sample is consistent |
| Seed.SeededKeysUnique | seed_data.py:59-64 | after a reset the upsert keys are unique, and every record has the reset's timestamp and its date |
| Seed.ResetTwice | seed_data.py:53-68 | two resets leave the same listings in the same order whatever the store held before; with the same timestamp they leave the same store |

## Left out

- HTML parsing and the selectors are outside the model. Items arrive as the texts the selectors would find (main.py:62-89).
- The HTTP request is outside the model, as is the `User-Agent` header. The network is a sequence of page outcomes (main.py:43, 54).
- `time.sleep(2)` is not modelled. It has no effect on the results (main.py:115).
- Of the messages printed during the crawl, only the per-page `Scraping page {page}: {url}` line is modelled (main.py:51). The log buffer receives it because `sys.stdout` is bound to the buffer (main.py:33); the model passes the buffer to the scrape instead.
- Scrape.ScrapeMercadoLibre: the log lines it adds are only the page lines. The other messages are not written: the per-item `Link:` and `Added item:` lines, the stop messages and the error messages (main.py:58, 67, 72, 80, 109, 111, 118). Their texts come partly from exception messages, which are outside the model. The page lines are written after the crawl rather than between the requests; with no other output modelled, the resulting log is the same.
- Scrape.IndexSearch: the log it leaves is the clear followed by the scrape's page lines, so it omits the same messages as `Scrape.ScrapeMercadoLibre`.
- `Crawl.CrawlPages` requires that some page of the site is terminal. The source loop has no page limit and does not end otherwise.
- Text.ParseInt: accepts only ASCII digits, while Python's `int()` also accepts other Unicode decimal digits. It also has no limit on the number of digits, while CPython 3.11 and later raise `ValueError` in `int()` (and in `str()` of an integer) beyond 4300 decimal digits by default. So `Text.ParseIntOfString` and `Text.ParseIntOfNatural` hold in CPython only for integers of at most 4300 digits. No price, year or distance comes near that length.
- The pandas DataFrame is a sequence of listings (main.py:121, 125). So is its conversion to records. The 64-bit integer columns of pandas are unbounded integers.
- Scrape.Persist: leaves out the error path of a number of 2^63 or more. For such a value the BSON encoder raises `OverflowError` in `replace_one` (main.py:137), outside any `try`, so the request fails with the earlier records of the run already written. The model upserts every stamped row instead. No scraped price, year or distance reaches 19 digits. `Scrape.ScrapeMercadoLibre` and `Scrape.IndexSearch` inherit this.
- Requests are modelled one at a time. In the source, Flask's server handles requests on several threads (main.py:440). The log buffer and `sys.stdout` are process globals (main.py:32-33), and so is the collection. Two overlapping searches can therefore clear and interleave one log (main.py:148) and interleave their upserts. `Scrape.IndexSearch`'s log then describes a search that ran alone.
- MongoDB is a sequence of documents.
  - The `_id` field is not modelled.
  - Indexes, concurrency and the query language are not modelled. Only the equality and `$lt` filters the core uses are modelled.
- The history view's branch for a timestamp without `strftime` is not modelled (main.py:423). All stored timestamps come from `datetime.utcnow()`.
- `Store.DateStr`: `%Y` for years below 1000 is modelled as zero-padded to four digits. The platform's `strftime` may print fewer digits for such years. `ValidTimestamp` keeps years in 1..9999.
- `datetime.utcnow()` is a parameter (`Timestamp` and `today`). The index view computes today's date once per row. The model uses one `today` for the whole column.
- `WebLog.WebLogger.Flush` does nothing and has no contract to state.
- `SAMPLE_CARS` is a constant. That the seed script copies each entry, so the constant is never changed, holds in the model by construction.
- The Flask routes, the rendering, the charts, the CSV export and the download route are presentation and I/O (main.py:141-409, 172-173, 434-440).
- The index view's sorting by query parameters is presentation and I/O (main.py:179-180).
- mock_server.py and verify_tabs.py are not part of this model. They are test scaffolding.
