# Metacritic scraper: a verified model of its crawl and save logic

The repository holds two near-identical Selenium scrapers of Metacritic's game
catalogue, `all_time.py` and `split_csv_last_scraper.py`. Each one
(`scrape_metacritic`) walks listing pages 1 to 50. On each page it turns every
product card into a record with six fields: title, release date, rating,
description, metascore and link. It saves those records, then visits the
detail page of every game that has a link (`scrape_reviews`). There it opens
the "User Reviews" tab and scrolls until the page height stops changing. It
turns at most the first 1000 review blocks into records and saves those too.
`all_time.py` writes each table to a single CSV file.
`split_csv_last_scraper.py` hands each table to `save_to_csv`. That function
writes 10000 rows per numbered file and shrinks the chunk size to
`int(0.8 * c)` after any file over 20 MiB.

The model has seven modules:

- `Wrappers`: `Option` and `Result`.
- `Text`: Python's `str.strip()`, BeautifulSoup's `get_text(strip=True)`, and
  the decimal rendering of page numbers in URLs, section ids and file names.
- `Extraction`: the per-card and per-review field lookups with their defaults.
  It also covers the rating lookup that raises when no text follows the
  anchor.
- `Browser`: what the browser and the HTML parser observe. This is a `Site`
  that maps each URL to a listing page (or a timeout) and to a detail page
  (the reviews tab, height readings and review blocks).
- `Listing`: the page loop and the card loop. `ScrapeListings` is proved equal
  to the specification function `Crawl`.
- `Reviews`: the `"N/A"` link filter, the scroll-until-stable loop
  (`ScrollUntilStable` against `Settle`), the 1000-block cap and the review
  loop (`ScrapeReviews` against `CrawlReviews`).
- `Chunking`: `save_to_csv` as a loop (`SaveToCsv`) proved equal to the
  specification function `SaveFrom`. File sizes come from a size oracle.
- `Pipeline`: the two `scrape_metacritic` drivers (`ScrapeAllTime`,
  `ScrapeSplit`) and how their outputs relate.

The listing loop, the extraction expressions and `scrape_reviews` appear in
both scrapers, line for line. They are modelled once. The rows below cite
`all_time.py`. The same code sits at `split_csv_last_scraper.py:60-107` (listing)
and `split_csv_last_scraper.py:122-191` (reviews).

Two behaviours of the code are easy to miss, and the model follows the code in both:

- The 20-second wait for the listing container (`all_time.py:47-49`) is not
  inside any `try`. A timeout therefore ends the whole run, with nothing saved.
  It does not just skip the page. The model's `ListingTimedOut`
  end and `TimeoutSavesNothing` state this.
- A rating anchor with no text after it makes `.strip()` run on `None`. That
  raises `AttributeError`, and the card's `except` drops the whole card rather
  than defaulting the rating to "N/A" (`ExtractCard`, `BrokenCardDropped`).

## Model

| member | source | states |
|---|---|---|
| Text.Strip | all_time.py:77 | the result never starts or ends with whitespace, and it is a contiguous part of the input with only whitespace removed before and after it |
| Text.LeadingEnd | all_time.py:77 | `lstrip` starts at the first non-whitespace character: everything before it is whitespace |
| Text.TrailingStart | all_time.py:77 | `rstrip` ends after the last non-whitespace character: everything after it is whitespace |
| Text.StripUnique | all_time.py:77 | any trimmed part of a string with only whitespace around it is the result of stripping it, so the contract of `Strip` has one solution |
| Text.StripPadded | all_time.py:77 | conversely, whitespace around a trimmed string is exactly what stripping removes |
| Text.StripIdempotent | all_time.py:77 | stripping twice is stripping once |
| Text.StripAllSpace | all_time.py:77 | an all-whitespace string strips to "" |
| Text.GetText | all_time.py:69 | `get_text(strip=True)` never starts or ends with whitespace |
| Text.GetTextSingle | all_time.py:69 | one text node gives that node stripped |
| Text.GetTextBlank | all_time.py:69 | text nodes that are all whitespace give "" |
| Text.Decimal | all_time.py:42 | a page number renders as a non-empty string of decimal digits |
| Text.DecimalRoundTrip | all_time.py:42 | reading the rendered digits back gives the number |
| Text.DecimalInjective | all_time.py:42 | distinct numbers render to distinct digit strings |
| Browser.ListingUrlInjective | all_time.py:42 | distinct page numbers are fetched from distinct URLs |
| Browser.SectionIdInjective | all_time.py:55 | distinct page numbers look for distinct section ids |
| Extraction.ExtractCard | all_time.py:66-101 | a card raises exactly when its rating anchor has no following text. Otherwise title, release date, description and metascore are "N/A" when absent and the trimmed text when present. The rating is "N/A" without an anchor, else the stripped sibling text. The link is the domain followed by `href`, or "N/A" |
| Extraction.LinkNotAvailableIff | all_time.py:88-89 | a record's link is "N/A" exactly when the card has no anchor with an `href` |
| Extraction.EmptyCardDefaults | all_time.py:68-89 | a card with every lookup empty yields a record whose six fields are all "N/A" |
| Extraction.ExtractReview | all_time.py:173-193 | the game title and link are the parent game's. The user is "Anonymous" when absent; score, date and content are "N/A" when absent; each is the trimmed text when present |
| Listing.FindSectionFirst | all_time.py:55-61 | the container lookup finds nothing exactly when no div has the page's section, and otherwise finds the first div that has it |
| Listing.CardRecords | all_time.py:65-101 | a page yields at most one record per card |
| Listing.CardRecordsAppend | all_time.py:65-101 | cards are handled in order: the records of `a + b` are those of `a` followed by those of `b` |
| Listing.CardRecordsAllWellFormed | all_time.py:65-99 | when no card raises there is exactly one record per card, in card order |
| Listing.BrokenCardDropped | all_time.py:76-101 | a card whose rating anchor has no text is dropped, and the cards around it are kept |
| Listing.AppendCards | all_time.py:65-101 | the card loop appends exactly the page's card records after what was collected before |
| Listing.ScrapeListings | all_time.py:41-101 | the page loop returns `Crawl` over pages 1..50: the card records page after page, or the first timeout |
| Listing.TimeoutAbortsCrawl | all_time.py:44-49 | a timeout on page p, after earlier pages loaded, is the result of the whole pass whatever later pages hold |
| Listing.CrawlFailsIff | all_time.py:41-49 | the pass fails exactly when some page in range times out, and it reports the first such page |
| Listing.CrawlPrefix | all_time.py:41-101 | page order: the records of the first m pages are a prefix of those of the first n |
| Listing.MissingContainersAddNothing | all_time.py:55-61 | pages that load but have no container for their section add no records |
| Listing.TwoCardExample | all_time.py:41-101 | a page with one full card and one empty card, and no containers on pages 2-50, gives two records, the second one all "N/A" |
| Reviews.ScrollUntilStable | all_time.py:147-159 | the scroll loop returns `Settle` of the height readings |
| Reviews.SettleMeans | all_time.py:149-159 | the loop stops after the first scroll whose height equals the one before, with every earlier height different from its predecessor. A failing script ends it. It runs out of readings only if every reading differed from the previous one |
| Reviews.SettleAtFirstRepeat | all_time.py:149-159 | conversely, the first repeated height is where the loop stops |
| Reviews.ScrollExample | all_time.py:149-159 | heights 100, 150, 150 give exactly two scrolls |
| Reviews.SettleImmediately | all_time.py:149-159 | two equal heights at the start give exactly one scroll |
| Reviews.FirstBlocks | all_time.py:171 | `reviews[:1000]` has at most 1000 blocks, is a prefix of the blocks, and is all of them when there are at most 1000, and exactly 1000 of them otherwise |
| Reviews.ExtractAll | all_time.py:171-193 | one review record per block, in block order |
| Reviews.AppendReviews | all_time.py:171-193 | the per-review loop appends exactly the records of the blocks, in block order, after the reviews collected before |
| Reviews.GameReviewsShape | all_time.py:131-198 | a game yields at most 1000 records, each carrying its title and link. When its scroll loop settles, it yields exactly min(blocks, 1000) records, one per leading block in document order |
| Reviews.ScrapeReviews | all_time.py:121-198 | the review loop returns `CrawlReviews`: the reviews and visited links game after game, or the link where scrolling never settles |
| Reviews.StuckPersists | all_time.py:152-159 | once a game's scroll loop would not end, no later game is reached |
| Reviews.NoLinkNoVisit | all_time.py:126-128 | a game whose link is "N/A" causes no navigation and no reviews: removing it changes nothing |
| Reviews.SkipNoLink | all_time.py:126-128 | appending a game without a link leaves the pass unchanged |
| Reviews.Linked | all_time.py:125-131 | the links the loop navigates to: no more of them than games, and none "N/A" |
| Reviews.LinkedHasEvery | all_time.py:125-131 | every game with a link has its link among them |
| Reviews.CrawlReviewsShape | all_time.py:125-193 | a completed pass visits exactly the links of the games that have one, once per game and in game order. Every review's link is not "N/A", is a visited link, and its title and link are those of one of the games |
| Chunking.Shrink | split_csv_last_scraper.py:45 | `int(c * 0.8)` never exceeds c, and it is strictly smaller for c >= 1 |
| Chunking.NextChunkSize | split_csv_last_scraper.py:44-45 | the chunk size shrinks after a file over 20 MiB and is otherwise unchanged |
| Chunking.FileNameInjective | split_csv_last_scraper.py:35 | distinct file numbers give distinct file names |
| Chunking.MulIsProduct | split_csv_last_scraper.py:36 | the slice bounds used are the products `(file_count - 1) * chunk_size` and `file_count * chunk_size` |
| Chunking.Rows | split_csv_last_scraper.py:36 | `df.iloc[lo:hi]` is empty exactly when lo is past the data or hi <= lo, and otherwise is the rows from lo up to hi or the end |
| Chunking.SaveToCsv | split_csv_last_scraper.py:24-49 | the loop writes exactly the files of `SaveFrom` from file 1 with chunk size 10000, and reports their number |
| Chunking.SaveFromStops | split_csv_last_scraper.py:34-49 | at the stop, `file_count` is one past the last file and the next slice starts past the data or the chunk size is 0. The final chunk size is what the last file's size left |
| Chunking.SaveFromWindows | split_csv_last_scraper.py:35-41 | file i is numbered k + i, has chunk size >= 1, starts inside the data, and holds rows `[(k+i-1)*c_i, (k+i)*c_i)` cut at the end of the data |
| Chunking.SaveFromNames | split_csv_last_scraper.py:35 | each file is named `{filename}_{file_count}.csv` after its own number |
| Chunking.SaveFromChunkSizes | split_csv_last_scraper.py:44-47 | the first file uses the initial chunk size, and each later one the size its predecessor's byte size left |
| Chunking.ChunkSizeNeverGrows | split_csv_last_scraper.py:28-45 | the chunk size never increases, and every file after one over the limit uses a strictly smaller chunk size |
| Chunking.NoGapBetweenFiles | split_csv_last_scraper.py:36-45 | each file starts at or before where the previous file ended, so shrinking can repeat rows but never leaves a gap |
| Chunking.ZeroChunkStops | split_csv_last_scraper.py:36-39 | with chunk size 0 the next slice is empty and nothing more is written |
| Chunking.RowCovered | split_csv_last_scraper.py:34-47 | unless the chunk size has reached 0 at the stop, every row from the current start on is in some file, at the position its index gives |
| Chunking.NoRowSkipped | split_csv_last_scraper.py:24-49 | unless the chunk size has reached 0 at the stop, every row of the data is in some file |
| Chunking.FileNamesDistinct | split_csv_last_scraper.py:35-47 | no two files share a name, so no file is rewritten |
| Chunking.NoDataNoFiles | split_csv_last_scraper.py:32-39 | no rows: no file is written and the count is 0 |
| Chunking.ThreeFilesExample | split_csv_last_scraper.py:28-47 | 25000 rows with no file over the limit give files `_1`, `_2`, `_3` with 10000, 10000 and 5000 rows |
| Chunking.OverlapExample | split_csv_last_scraper.py:36-45 | with 20000 rows and an oversized first file of 10000 rows, the chunk size becomes 8000, and rows 8000-9999 are written in both of the first two files |
| Chunking.ShrinkToZeroExample | split_csv_last_scraper.py:36-45 | with chunk size 1, an oversized one-row file drops the chunk size to 0, and writing stops whatever rows remain |
| Pipeline.ScrapeAllTime | all_time.py:32-115 | the all_time.py driver gives `RunAllTime`: the games file is written before the review pass and the reviews file after it, each only when non-empty |
| Pipeline.ScrapeSplit | split_csv_last_scraper.py:52-118 | the split driver gives `RunSplit`: the same passes, with each non-empty table saved through `save_to_csv` |
| Pipeline.TimeoutSavesNothing | all_time.py:41-49 | a run ends on a listing timeout exactly when some page times out. It then reports the first such page and saves no file |
| Pipeline.GamesFileIff | all_time.py:104-109 | the games file is written exactly when the listing pass succeeds with at least one record, and it holds those records in order |
| Pipeline.ReviewsFileShape | all_time.py:201-206 | the reviews file is written exactly when the listing and review passes complete with at least one review. It then holds the pass's reviews in order, the run has finished, and every row belongs to one of the listed games |
| Pipeline.SplitEndsLikeAllTime | split_csv_last_scraper.py:110-116 | both scrapers end the same way on the same site. The split one writes files for a table exactly when the all-time one writes its file |
| Pipeline.SaveSplitNonEmpty | split_csv_last_scraper.py:194-197 | saving through `save_to_csv` writes some file exactly when the table is non-empty |
| Pipeline.SplitGamesCoverAllTime | split_csv_last_scraper.py:110-113 | each split games file is a run of consecutive rows of the all-time games table. Unless the chunk size reaches 0, every row of it is in some split file |

## Left out

- Browser I/O is not modelled: `setup_driver`, `driver.get`, `WebDriverWait`,
  `click`, `time.sleep`, `execute_script` and `driver.quit`. A `Site`
  says in advance what each navigation, wait and height reading observes.
- A `Site` maps each URL to one observation, so a URL navigated to twice
  (a game listed on two pages) is modelled as showing the same page both
  times; the browser would load it afresh and could see something else.
- `driver.get(link)` on a detail page (`all_time.py:131`) is outside any
  `try`. The model assumes it always returns. A failure there, which would
  end the run, is not modelled.
- BeautifulSoup's `find`, `find_all` and `find_next_sibling` are not modelled;
  their results are given as data (`Card`, `ReviewBlock`, `ListingDiv`).
  `get_text(strip=True)` is modelled as the stripped text nodes joined.
- pandas and the file system are not modelled. A CSV file is its name and
  rows; the byte size of a written chunk is the oracle `size`. Encoding and
  the CSV text are left out.
- Chunking.Shrink: `int(c * 0.8)` is modelled as `c * 4 / 5`, without
  floating point. The two agree for every chunk size the loop can reach from
  10000.
- Reviews.ScrollUntilStable: the source loop has no bound. The model reads a
  finite sequence of heights. When the heights never repeat within it, the
  outcome is `OutOfReadings` and the run ends with `ScrollNeverSettles`,
  where the source would keep scrolling for ever.
- The per-review `except AttributeError` (`all_time.py:194-195`) is not
  modelled because it cannot fire: no lookup in the review body raises.
- Printing, progress messages, the elapsed-time report and `__main__` are
  left out. The file count that `save_to_csv` prints is returned as
  `reported`.
