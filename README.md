# A verified model of the Rijksoverheid news scrapers

The repository holds two scripts that collect news of the Dutch central
government (www.rijksoverheid.nl).

- `scrape.py` reads an archived copy of the site's news listing from the web
  archive (sitearchief.nl):
  - it builds the capture URL;
  - it turns every complete `div.brick` of the listing into a record (link,
    stripped title, parsed publication date);
  - it fetches each article page and sets the record's `full_content` to the
    stripped text of the first content container it finds;
  - it partitions the records by publication day ("%Y-%m-%d") into the
    dictionary it saves.
- `open-data.py` pages through the open-data API's "last modified since"
  listing, 200 articles per request:
  - it resumes from the day of the newest `lastmodified` already stored;
  - it skips every article whose `id` is already held, checked against the
    list as it grows;
  - it completes each new article with the members of its detail record,
    adding only the members the article lacks;
  - it stops at a short page, at the first new article past `end_date`, or
    when the list reaches `max_articles`.

The model has six modules:

- `Wrappers`: Option and Result.
- `Text`:
  - `str.strip()` over Python's whitespace set;
  - decimal rendering, as in f-strings and `strftime` fields;
  - Python's order on `str`.
- `Dates`:
  - the `datetime` values the scripts parse and format;
  - the three formats they use.
  - The leap-year rule uses a remainder by repeated subtraction, proved
    equal to `%` (`RemIsMod`).
- `Seqs`: distinctness of a sequence, and records tied to positions of a
  sequence that grows.
- `ArchiveScraper`: `scrape.py`.
- `OpenData`: `open-data.py`.

HTML is abstracted as follows:

- A brick is the three look-ups the parser makes in it: its first anchor, its
  first `h3`, its first `span.publDate`.
- An article page is its two candidate containers.

An article of the listing keeps its `id` and `lastmodified` apart from its
other members. Those are held as the objects merged into the article in turn,
the listing's own object first; an earlier object's member wins. This is how
`article.update` with only the missing keys behaves (`MergeDetailKeeps`).

Network answers are parameters:

- `fetch(link)` is the page an archive link leads to.
- `listingSince(date)` is the API listing for a date. The request at `offset`
  is answered by `PageAt(listing, offset)`, the next 200 articles.
- `detail(id)` is the detail record of an article.

The loops that change state in place are methods proved against
specification functions:

- `ExtractNewsArticles` is proved against `Extracted`.
- `AttachFullContent` works on an `array` and is proved against
  `WithFullContent`.
- `SaveToJson` is proved against `Bucket` and `KeyOrder`.
- `WalkPage` is proved against `WalkFrom`, the walk of one page article by
  article. `CrawlPages` and `GetArticles` are proved against `CrawlFrom`, the
  request loop page by page; `CrawlRequest` is one pass of that loop. These
  two functions fix the result: the list, how much of the listing was walked,
  and the number of requests.
- What the walk does is proved about these functions by induction along them:
  - `WalkFromFacts` and `CrawlFromFacts`: the list is `AddAll` over the walked
    part of the listing.
  - `WalkFromEnded` and `CrawlFromStops`: why the walk ended.
  - `WalkFromPasses`: no article before that point would have ended it.
- `AddAll` is proved equal to the reference definition "stored articles, then
  the enriched `Fresh` ones of the walked listing" (`AddAllIsFresh`).

Two behaviours of `get_articles` are kept exactly as written:

- The page test after the inner loop reads the loop variable's last value.
  That may be an article that was skipped as already held. So a held article
  past `end_date` that ends a full page also ends the run (`CrawlFrom`,
  `StopsFor`).
- `max_articles` only bounds the list when the stored list is shorter than
  it. Otherwise at most one new article is appended before the cap stops the
  loop: the first new article of the first page, unless it lies past
  `end_date`.

## Model

| member | source | states |
|---|---|---|
| Text.Strip | scrape.py:42-43 | `str.strip()` never lengthens the text; `StripSpec` states what it removes |
| Text.StripSpec | scrape.py:42-43 | `str.strip()` returns a contiguous piece of the text that neither starts nor ends with whitespace, and everything removed on either side is whitespace |
| Text.Decimal | open-data.py:13 | an integer interpolated into an f-string is a non-empty digit string, without leading zero unless the number is 0, that reads back as the number |
| Text.PadDec | scrape.py:72 | a `strftime` field is exactly `width` digits that read back as the number |
| Text.PadDecValue | scrape.py:27 | a fixed-width digit field, read and rendered at its width, is unchanged |
| Text.DecimalLength | scrape.py:16 | a number below 10^width renders in at most `width` digits |
| Text.LexLess | open-data.py:40 | Python's `<` on `str` (also behind `max` at line 24): a proper prefix is smaller, and nothing is smaller than the empty string; `LexTrichotomy` and `LexTransitive` make it a total order |
| Text.LexIrreflexive | open-data.py:24 | no string is smaller than itself in Python's `str` order |
| Text.LexTrichotomy | open-data.py:24 | any two strings compare, and never both ways |
| Text.LexTransitive | open-data.py:24 | Python's `str` order is transitive, so `max` over strings is well defined |
| Dates.ParsePublDate | scrape.py:26-27 | `strptime` with "%d-%m-%Y \| %H:%M" accepts only text of that shape, and gives a valid date; the two round trips below pin it down |
| Dates.ParseFormatPublDate | scrape.py:26-27 | every valid date parses back from its own publication-date text (day, month, year, hour, minute) |
| Dates.FormatParsePublDate | scrape.py:26-27 | text that parses is exactly the rendering of its date, so the parse is injective |
| Dates.DateKey | scrape.py:72 | "%Y-%m-%d" is ten characters with dashes at positions 4 and 7, whose digit fields read back as the year, month and day |
| Dates.DateKeySameDay | scrape.py:72 | two dates share a "%Y-%m-%d" key if and only if they are on the same calendar day |
| Dates.ParseIsoTimestamp | open-data.py:25-26 | `strptime` with "%Y-%m-%dT%H:%M:%S.%fZ" accepts only text of that shape with seconds below 60, and gives a valid date; the two round trips below pin it down |
| Dates.ParseFormatIsoTimestamp | open-data.py:25-26 | every valid date, with any second below 60 and any one to six fraction digits, parses back from its timestamp text |
| Dates.FormatParseIsoTimestamp | open-data.py:25-26 | text that parses is exactly the rendering of its date with its own seconds and fraction digits |
| Dates.LeapDay | scrape.py:26-27 | `strptime` accepts February 29th exactly in Gregorian leap years |
| Dates.CompactDay | open-data.py:27 | "%Y%m%d" is eight digits that read back as the year, month and day |
| Dates.CompactDayOfIsoTimestamp | open-data.py:25-27 | reformatting a parsed `lastmodified` as "%Y%m%d" gives its year, month and day digits, 8 characters |
| ArchiveScraper.RootUrl | scrape.py:15-18 | the capture URL is the archive prefix, the date, the capture number in 1 to 6 unpadded digits that read back as the number, then `/https://www.rijksoverheid.nl` |
| ArchiveScraper.BrickArticle | scrape.py:40-44 | a complete brick fails if and only if its anchor lacks `href` or its stripped date text does not parse; the error is `MissingHref` (KeyError) when `href` is missing, and otherwise `BadPublDate` (ValueError) carrying the stripped text; on success its record carries exactly its link, stripped title and parsed date, and no content |
| ArchiveScraper.CompleteIndices | scrape.py:35-40 | the positions of exactly the bricks with anchor, `h3` and date span, in increasing order |
| ArchiveScraper.Extracted | scrape.py:35-46 | on success there are no more records than bricks; the four lemmas below state the rest |
| ArchiveScraper.ExtractedErrorPersists | scrape.py:35-46 | after a brick raises, later bricks change nothing |
| ArchiveScraper.ExtractedOkIff | scrape.py:35-46 | the listing parses if and only if no complete brick raises; incomplete bricks are skipped without error |
| ArchiveScraper.ExtractedRecords | scrape.py:35-46 | on success there is one record per complete brick, in brick order, each the record of its own brick, so no more records than bricks |
| ArchiveScraper.ExtractedFirstError | scrape.py:35-46 | on failure the error is the one raised by the first complete brick that raises |
| ArchiveScraper.ExtractNewsArticles | scrape.py:30-46 | the loop's result is `Extracted(bricks)`, so the four lemmas above hold of it |
| ArchiveScraper.ExtractArticleContent | scrape.py:57-66 | the primary container's stripped text when present, else the fallback's, else "" |
| ArchiveScraper.ArticleContentTrimmed | scrape.py:57-66 | the extracted content never starts or ends with whitespace |
| ArchiveScraper.WithFullContent | scrape.py:89-90 | setting `full_content` keeps the record's link, title and date, and the record then has content |
| ArchiveScraper.AttachFullContent | scrape.py:87-90 | every record in the array gets `full_content` from its own link's page; nothing else in it changes |
| ArchiveScraper.BucketMembers | scrape.py:71-75 | a bucket holds exactly the input elements with its key |
| ArchiveScraper.KeyOrderKeys | scrape.py:73-74 | the dictionary's keys are distinct, and a key is present if and only if some element has it, so no bucket is empty |
| ArchiveScraper.SaveToJson | scrape.py:69-78 | the dictionary holds one key per date that occurs, in first-arrival order; each bucket holds its day's articles in input order; every article is in its day's bucket; the buckets together are a permutation of the input |
| ArchiveScraper.KeySameDay | scrape.py:72 | two articles get the same key if and only if they were published on the same calendar day |
| ArchiveScraper.CollectedBuckets | scrape.py:70-75 | the dictionary's lists, read in key order, are the buckets of the input in that order |
| ArchiveScraper.FlattenAppend | scrape.py:70-75 | concatenated buckets split along the key list |
| ArchiveScraper.FlattenSnoc | scrape.py:71-75 | one more element adds itself once to the buckets of distinct keys if its key is among them |
| ArchiveScraper.BucketsPartition | scrape.py:70-75 | partitioning loses and duplicates nothing: the buckets in key order are a permutation of the input |
| ArchiveScraper.BucketsPartitionSize | scrape.py:70-75 | the bucket lengths add up to the number of input articles |
| ArchiveScraper.FillContents | scrape.py:87-90 | the records as the in-place loop leaves them are the input records, each with its `full_content` |
| ArchiveScraper.BucketsHaveContent | scrape.py:87-92 | every record that lands in a bucket has `full_content` and the bucket's day |
| ArchiveScraper.ScrapeAndSave | scrape.py:81-92 | the run fails exactly when the listing parse fails, with its error; otherwise it reads `<root>/actueel`, and the saved buckets partition the content-completed records by day, one saved record per complete brick, each with `full_content` |
| OpenData.AsRecord | open-data.py:38-40 | an article, as a JSON object, carries its `id` and its `lastmodified` |
| OpenData.GetUrl | open-data.py:12-13 | the listing URL starts with the endpoint and the date; `GetUrlShape` and `GetUrlNumbers` give where each part lies, and `GetUrlInjective` shows it determines the offset and the page size |
| OpenData.GetUrlShape | open-data.py:12-13 | the listing URL is the endpoint, the date, "/?output=json&offset=", the offset's decimal text, "&rows=" and the page size's decimal text, each at the slice boundaries the lemma names |
| OpenData.GetUrlNumbers | open-data.py:12-13 | the offset's slice of the URL is non-empty digits that read back as the offset, and the tail after "&rows=" is digits that read back as the page size; neither has a leading zero unless it is 0 |
| OpenData.QueryInjective | open-data.py:13 | the query part of a listing URL determines the offset and the page size |
| OpenData.GetUrlInjective | open-data.py:12-13 | for one date, listing URLs that differ in offset or page size differ |
| OpenData.ListingUrlAt | open-data.py:29-57 | the k-th request asks for offset 200·k with 200 rows |
| OpenData.ListingUrlsDistinct | open-data.py:29-57 | no listing page is requested twice |
| OpenData.MaxLastModified | open-data.py:24 | `max` over the stored `lastmodified` values is one of them and no smaller than any of them in Python's `str` order |
| OpenData.MaxStep | open-data.py:24 | when the running maximum is overtaken, the new value bounds all earlier ones |
| OpenData.ResumeDate | open-data.py:18-27 | with nothing stored, the given date; otherwise an error exactly when `strptime` rejects the newest `lastmodified`, carrying it, and else its "%Y%m%d" day |
| OpenData.MergeDetail | open-data.py:50 | the merge keeps the article's `id` and `lastmodified`; `MergeDetailKeeps` states the merged object |
| OpenData.MergeDetailKeeps | open-data.py:50 | after the merge the keys are the union of both, the article's own values are kept, and the detail record supplies only missing keys |
| OpenData.Enrich | open-data.py:43-50 | enriching keeps the article's `id` and `lastmodified` |
| OpenData.EnrichAll | open-data.py:43-52 | a pure map over the list: the result has the same length, and each position holds the enriched article of that position |
| OpenData.IdsEnrichAll | open-data.py:50 | enriching keeps the list of ids |
| OpenData.Fresh | open-data.py:37-52 | there are no more new articles than listed ones; `FreshFromStream`, `FreshDistinct`, `FreshSnoc` and `FreshComplete` state which |
| OpenData.FreshComplete | open-data.py:37-52 | every walked listing article's id is held afterwards, either because it was already held or because the article was appended |
| OpenData.FreshFromStream | open-data.py:37-52 | the new articles are drawn from the walked listing, no more of them than walked |
| OpenData.FreshDistinct | open-data.py:37-52 | appending only articles whose id is not yet held keeps the ids distinct, also for duplicates within one page |
| OpenData.StoredIdsStayDistinct | open-data.py:37-52 | stored articles with distinct ids plus the enriched new ones still have distinct ids |
| OpenData.FreshSnoc | open-data.py:38-39 | one more listed article is skipped if and only if its id is already held |
| OpenData.Step | open-data.py:37-52 | the in-place step agrees with the reference definition for one more article |
| OpenData.PageAt | open-data.py:33-35 | a request at an offset is answered by the next 200 articles of the listing: exactly 200 while that many remain, the rest of the listing near its end, and nothing past it |
| OpenData.AnyWithId | open-data.py:38 | the scan finds a match if and only if the id is among the list's ids |
| OpenData.PastEnd | open-data.py:40 | the end-date test, here and again at line 60: an unset `end_date` (falsy, the empty string) never stops the walk; an article stops it only when its `lastmodified` is strictly after `end_date` in Python's `str` order, never when it is at or before it |
| OpenData.CapReached | open-data.py:54 | the cap test, here and again at line 61: an unset cap (falsy, 0) never stops the walk; a negative cap stops it at once; a positive cap stops it exactly when the list holds at least that many articles |
| OpenData.NoneAfterEndExtend | open-data.py:40-41 | "nothing past the end date" holds across a list and its extension |
| OpenData.AddIfNewHolds | open-data.py:38-52 | meeting a listing article keeps the list in front, appends at most one article, and afterwards the article's id is held |
| OpenData.AddAll | open-data.py:37-52 | the list grows by at most one article per listed one; `AddAllIsFresh` states what it holds |
| OpenData.AddAllAppend | open-data.py:32-37 | walking two runs of the listing one after the other is walking their concatenation, so pages compose |
| OpenData.AddAllIsFresh | open-data.py:18-52 | the list the loop builds is the stored articles, unchanged, followed by the enriched new articles in listing order |
| OpenData.AppendBeforeEnd | open-data.py:40-52 | appending an article not past the end date keeps the stored prefix and nothing past the end date |
| OpenData.WalkFrom | open-data.py:37-55 | the walk of a page takes at least the articles it starts after and no more than the page; its loop variable ends inside a non-empty page |
| OpenData.WalkFromHeld | open-data.py:38-39 | an article whose id is held is skipped and the walk goes on |
| OpenData.WalkFromPastEnd | open-data.py:40-41 | a new article past the end date ends the walk before it, with the list unchanged and the loop variable on it |
| OpenData.WalkFromAppend | open-data.py:43-55 | any other article is enriched and appended; the walk ends right after it when the list reaches the cap, and goes on otherwise |
| OpenData.WalkFromEnd | open-data.py:37-55 | a walk that reaches the page's end leaves the loop variable on its last article |
| OpenData.WalkFromPasses | open-data.py:37-55 | no article before the stopping point would have stopped the walk: each was held, or not past the end date and, unless it is the last one walked, left the list below the cap |
| OpenData.WalkFromEnded | open-data.py:37-55 | the walk ends at the page's end; or at a new article past the end date, not walked through; or right after appending a new article that made the list reach the cap |
| OpenData.WalkFromFacts | open-data.py:37-55 | the list the walk leaves is `AddAll` over the articles walked through, keeps the earlier list in front, gets nothing past the end date, and stays within the cap when it starts below it |
| OpenData.WalkPage | open-data.py:37-55 | the inner loop's list, walked count and loop variable are those of `WalkFrom`; hence the list is `AddAll` over the walked part of the page, it keeps the earlier list in front, it gets nothing past the end date, it stays within the cap when it starts below it; it ends at the page's end, at a new article past the end date, or right after an append that reached the cap; and no article before that point would have ended it |
| OpenData.PageStop | open-data.py:57-63 | when the page test stops the loop, the walked part is a prefix of the listing and the stop has a reason |
| OpenData.PagePrefix | open-data.py:33-57 | the listing up to a page, followed by the walked part of that page, is a prefix of the listing |
| OpenData.CrawlFrom | open-data.py:29-63 | the run from an offset makes at least one request, so its last offset is at least one page further on, and the walked count lies between the starting offset and that last offset; `CrawlFromFacts` and `CrawlFromStops` state the rest |
| OpenData.CrawlFromStep | open-data.py:32-63 | one request: the page's walk, then the page test decides between stopping and the next request 200 further on |
| OpenData.CrawlStep | open-data.py:32-55 | after one request, the list is `AddAll` over the listing up to the walked part of the page, with the stored list in front, nothing past the end date and the cap kept |
| OpenData.CrawlStepOn | open-data.py:57-63 | a request after which the loop goes on walked a full page of 200 and leaves the list below the cap |
| OpenData.CrawlFromFacts | open-data.py:29-63 | the loop walks a prefix of the listing that ends within its last page; the list is `AddAll` over that prefix, with the stored list in front, nothing past the end date, and the cap kept when the stored list is below it |
| OpenData.CrawlFromStops | open-data.py:57-63 | the loop stops short of the listing's end only at an article past the end date, right after one, or at the cap |
| OpenData.CrawlRequest | open-data.py:33-63 | one pass of the loop: either it ends the run, with the list and walked count `CrawlFrom` gives for this offset, or the next offset is still inside the listing and the run goes on from there as `CrawlFrom` says |
| OpenData.CrawlFromStart | open-data.py:29-63 | the run from the first request walks a prefix of the listing, ends within its last page, builds `AddAll` over that prefix with the stored list in front, nothing past the end date, the cap kept when the stored list is below it, and stops short only for a reason |
| OpenData.CrawlPages | open-data.py:29-63 | the loop's list, last offset and walked count are those of `CrawlFrom`; the offset is 200 times the number of requests; hence everything `CrawlFromFacts` and `CrawlFromStops` state holds of it |
| OpenData.GetArticles | open-data.py:16-66 | the run fails exactly when the resume date cannot be parsed. Otherwise its result, walked count and requests are those of `CrawlFrom` from the resume date: it requests distinct listing URLs at offsets 0, 200, 400 and so on; its result is the stored list followed by the enriched new articles of the walked listing; ids stay distinct when they were; no new article lies past the end date; the cap holds; it stops only for a reason the loop names |

## Left out

- HTTP requests are parameters: `fetch`, `listingSince` and `detail`. The
  listing is taken as fixed while the script pages through it, and every
  answer is assumed to be well-formed JSON of the expected shape. HTTP errors
  and HTML that fails to parse are not modelled.
- BeautifulSoup is abstracted. A brick is its first anchor, heading text and
  date text. An article page is the text of its two containers. `.text`
  extraction of nested markup is not modelled.
- The archive fetch of each article page calls `get_root_url` with a global
  `date` that exists only when the script runs as a program. This is folded
  into `fetch`, together with the fresh random capture number of each call.
- `random.randint` is the parameter `capture`, bounded to 0..999999.
- `time.sleep`, `print`, `os.path.exists` and file I/O are left out:
  - `stored` is what `articles.json` holds, empty when the file is missing.
  - The results of `GetArticles` and `ScrapeAndSave` are what is written.
  - `json.dump(..., default=str)` rendering of dates is not modelled.
- JSON values are modelled without floats. Python's `==` between ids of
  different types is not modelled (for example `1 == 1.0` or `True == 1`);
  ids compare as model values.
- Listing entries that lack `id` or a string `lastmodified` are outside the
  `Article` type.
- Dictionary key order inside an article is not modelled; articles are maps.
- Dates.ParsePublDate: accepts only the zero-padded canonical shape.
  `strptime` also accepts one-digit fields and any run of whitespace around
  the `|`.
- Dates.ParseIsoTimestamp: same restriction, for the listing's `lastmodified`
  timestamps. `strptime` also matches the literal `T` and `Z` without regard
  to case, so a lower-case `t` or `z` parses in Python; the model accepts only
  upper case.
- Dates.DateKey, Dates.CompactDay: pad years below 1000 to four digits.
  `strftime("%Y")` padding is platform-dependent there. This also affects
  OpenData.ResumeDate.
- OpenData.GetArticles: does not model the `NameError` the page test would
  raise on an empty page without a loop variable. That cannot happen: an
  empty page is shorter than 200, and the test short-circuits first.
