/** `scrape_metacritic` of the two scrapers: the listing pass, the save of
    the listing rows, the review pass and the save of the review rows.
    all_time.py writes each table to one CSV file; split_csv_last_scraper.py
    hands each to `save_to_csv`, which splits it into numbered files. A table
    with no rows is not saved at all. */
module Pipeline {
  import opened Wrappers
  import opened Extraction
  import opened Browser
  import opened Listing
  import opened Reviews
  import opened Chunking

  const GamesCsv := "metacritic_detailed_games_all_time.csv"
  const ReviewsCsv := "metacritic_reviews_all_time.csv"
  const GamesBase := "metacritic_detailed_games_all_time"
  const ReviewsBase := "metacritic_reviews_all_time"

  /** One CSV file written whole by `DataFrame.to_csv`. */
  datatype CsvFile<T> = CsvFile(name: string, rows: seq<T>)

  /** How a run ends: normally; with the listing wait timing out on a page,
      which propagates out of `scrape_metacritic`; or stuck scrolling the
      detail page of a game. */
  datatype RunEnd = Finished | ListingTimedOut(page: nat) | ScrollNeverSettles(link: string)

  /** What a run of all_time.py leaves behind. */
  datatype AllTimeRun = AllTimeRun(
    gamesFile: Option<CsvFile<ListingRecord>>,
    reviewsFile: Option<CsvFile<ReviewRecord>>,
    end: RunEnd)

  /** What a run of split_csv_last_scraper.py leaves behind. */
  datatype SplitRun = SplitRun(
    gameFiles: seq<ChunkWrite<ListingRecord>>,
    reviewFiles: seq<ChunkWrite<ReviewRecord>>,
    end: RunEnd)

  /** `if rows: DataFrame(rows).to_csv(name)`. */
  function SaveWhole<T>(name: string, rows: seq<T>): Option<CsvFile<T>> {
    if rows == [] then None else Some(CsvFile(name, rows))
  }

  /** `if rows: save_to_csv(base, rows)`. */
  function SaveSplit<T>(base: string, rows: seq<T>, size: seq<T> -> nat): seq<ChunkWrite<T>> {
    if rows == [] then [] else SaveFrom(base, rows, size, 1, InitialChunkSize).files
  }

  /** The all_time.py run: the games table is saved before the review pass
      starts, the reviews table after it ends. */
  function RunAllTime(site: Site): AllTimeRun {
    match Crawl(site, LastPage)
    case Failure(NavigationTimeout(p)) => AllTimeRun(None, None, ListingTimedOut(p))
    case Success(games) =>
      var gamesFile := SaveWhole(GamesCsv, games);
      match CrawlReviews(games, site)
      case NeverSettles(link) => AllTimeRun(gamesFile, None, ScrollNeverSettles(link))
      case Completed(reviews, _) => AllTimeRun(gamesFile, SaveWhole(ReviewsCsv, reviews), Finished)
  }

  /** The split_csv_last_scraper.py run, with `gameBytes` and `reviewBytes`
      the byte sizes of the CSV files written for a chunk of rows. */
  function RunSplit(site: Site, gameBytes: seq<ListingRecord> -> nat, reviewBytes: seq<ReviewRecord> -> nat): SplitRun {
    match Crawl(site, LastPage)
    case Failure(NavigationTimeout(p)) => SplitRun([], [], ListingTimedOut(p))
    case Success(games) =>
      var gameFiles := SaveSplit(GamesBase, games, gameBytes);
      match CrawlReviews(games, site)
      case NeverSettles(link) => SplitRun(gameFiles, [], ScrollNeverSettles(link))
      case Completed(reviews, _) => SplitRun(gameFiles, SaveSplit(ReviewsBase, reviews, reviewBytes), Finished)
  }

  /** `scrape_metacritic` of all_time.py. */
  method ScrapeAllTime(site: Site) returns (run: AllTimeRun)
    ensures run == RunAllTime(site)
  {
    var listing := ScrapeListings(site);
    if listing.Failure? {
      return AllTimeRun(None, None, ListingTimedOut(listing.error.page));
    }
    var allData := listing.value;
    var gamesFile: Option<CsvFile<ListingRecord>> := None;
    if allData != [] {
      gamesFile := Some(CsvFile(GamesCsv, allData));
    }
    var crawl := ScrapeReviews(allData, site);
    if crawl.NeverSettles? {
      return AllTimeRun(gamesFile, None, ScrollNeverSettles(crawl.link));
    }
    var reviewsFile: Option<CsvFile<ReviewRecord>> := None;
    if crawl.reviews != [] {
      reviewsFile := Some(CsvFile(ReviewsCsv, crawl.reviews));
    }
    return AllTimeRun(gamesFile, reviewsFile, Finished);
  }

  /** `scrape_metacritic` of split_csv_last_scraper.py. */
  method ScrapeSplit(site: Site, gameBytes: seq<ListingRecord> -> nat, reviewBytes: seq<ReviewRecord> -> nat)
    returns (run: SplitRun)
    ensures run == RunSplit(site, gameBytes, reviewBytes)
  {
    var listing := ScrapeListings(site);
    if listing.Failure? {
      return SplitRun([], [], ListingTimedOut(listing.error.page));
    }
    var allData := listing.value;
    var gameFiles: seq<ChunkWrite<ListingRecord>> := [];
    if allData != [] {
      var reported;
      gameFiles, reported := SaveToCsv(GamesBase, allData, gameBytes);
    }
    var crawl := ScrapeReviews(allData, site);
    if crawl.NeverSettles? {
      return SplitRun(gameFiles, [], ScrollNeverSettles(crawl.link));
    }
    var reviewFiles: seq<ChunkWrite<ReviewRecord>> := [];
    if crawl.reviews != [] {
      var reported;
      reviewFiles, reported := SaveToCsv(ReviewsBase, crawl.reviews, reviewBytes);
    }
    return SplitRun(gameFiles, reviewFiles, Finished);
  }

  /** A listing timeout ends the run before anything is saved, and it is
      the first page that timed out; it happens exactly when some page in
      1..50 times out. */
  lemma {:induction false} TimeoutSavesNothing(site: Site)
    ensures RunAllTime(site).end.ListingTimedOut? <==> exists p :: 1 <= p <= LastPage && TimesOut(site, p)
    ensures RunAllTime(site).end.ListingTimedOut? ==>
              var p := RunAllTime(site).end.page;
              && RunAllTime(site).gamesFile.None? && RunAllTime(site).reviewsFile.None?
              && 1 <= p <= LastPage && TimesOut(site, p)
              && forall q :: 1 <= q < p ==> !TimesOut(site, q)
  {
    CrawlFailsIff(site, LastPage);
  }

  /** The games file is written exactly when the listing pass succeeds with
      at least one record, and then it holds those records in page order;
      once written it stays, even if the review pass later gets stuck. */
  lemma GamesFileIff(site: Site)
    ensures RunAllTime(site).gamesFile.Some? <==>
              Crawl(site, LastPage).Success? && Crawl(site, LastPage).value != []
    ensures RunAllTime(site).gamesFile.Some? ==>
              RunAllTime(site).gamesFile.value == CsvFile(GamesCsv, Crawl(site, LastPage).value)
  {
  }

  /** The reviews file is written exactly when the run finishes with at
      least one review, and then it holds the reviews of the pass in order;
      every review row carries a real link and the title and link of one of
      the games listed. */
  lemma {:induction false} ReviewsFileShape(site: Site)
    ensures RunAllTime(site).reviewsFile.Some? <==>
              && Crawl(site, LastPage).Success?
              && CrawlReviews(Crawl(site, LastPage).value, site).Completed?
              && CrawlReviews(Crawl(site, LastPage).value, site).reviews != []
    ensures RunAllTime(site).reviewsFile.Some? ==>
              && RunAllTime(site).end == Finished
              && RunAllTime(site).reviewsFile.value
                 == CsvFile(ReviewsCsv, CrawlReviews(Crawl(site, LastPage).value, site).reviews)
    ensures RunAllTime(site).reviewsFile.Some? ==>
              && Crawl(site, LastPage).Success?
              && var games := Crawl(site, LastPage).value;
                 var rows := RunAllTime(site).reviewsFile.value.rows;
                 forall i :: 0 <= i < |rows| ==>
                   && rows[i].link != NotAvailable
                   && exists j :: 0 <= j < |games| && rows[i].game == games[j].title
                                  && rows[i].link == games[j].link
  {
    if Crawl(site, LastPage).Success? {
      CrawlReviewsShape(Crawl(site, LastPage).value, site);
    }
  }

  /** Both scrapers end the same way on the same site, and save the same
      tables: the split one writes some files for a table exactly when the
      all-time one writes its single file for it. */
  lemma {:induction false} SplitEndsLikeAllTime(site: Site, gameBytes: seq<ListingRecord> -> nat, reviewBytes: seq<ReviewRecord> -> nat)
    ensures RunSplit(site, gameBytes, reviewBytes).end == RunAllTime(site).end
    ensures RunSplit(site, gameBytes, reviewBytes).gameFiles != [] <==> RunAllTime(site).gamesFile.Some?
    ensures RunSplit(site, gameBytes, reviewBytes).reviewFiles != [] <==> RunAllTime(site).reviewsFile.Some?
  {
    match Crawl(site, LastPage)
    case Failure(_) =>
    case Success(games) =>
      SaveSplitNonEmpty(GamesBase, games, gameBytes);
      match CrawlReviews(games, site)
      case NeverSettles(_) =>
      case Completed(reviews, _) =>
        SaveSplitNonEmpty(ReviewsBase, reviews, reviewBytes);
  }

  /** Saving a non-empty table writes at least one file. */
  lemma SaveSplitNonEmpty<T>(base: string, rows: seq<T>, size: seq<T> -> nat)
    ensures SaveSplit(base, rows, size) != [] <==> rows != []
  {
    if rows != [] {
      MulIsProduct(0, InitialChunkSize);
      MulIsProduct(1, InitialChunkSize);
    }
  }

  /** The split games files hold the all-time games file's rows: each split
      file is a run of consecutive rows of it, and unless the chunk size has
      dropped to 0 every row of it is in some split file, at the position
      its index gives. */
  lemma {:induction false} SplitGamesCoverAllTime(site: Site, gameBytes: seq<ListingRecord> -> nat, reviewBytes: seq<ReviewRecord> -> nat)
    requires RunAllTime(site).gamesFile.Some?
    ensures var rows := RunAllTime(site).gamesFile.value.rows;
            var files := RunSplit(site, gameBytes, reviewBytes).gameFiles;
            && files == SaveFrom(GamesBase, rows, gameBytes, 1, InitialChunkSize).files
            && (forall i :: 0 <= i < |files| ==> WindowOk(files[i], rows, 1 + i))
            && (SaveFrom(GamesBase, rows, gameBytes, 1, InitialChunkSize).chunkSize > 0 ==>
                  forall j :: 0 <= j < |rows| ==> RowWritten(files, rows, j))
  {
    var rows := RunAllTime(site).gamesFile.value.rows;
    SaveFromWindows(GamesBase, rows, gameBytes, 1, InitialChunkSize);
    if SaveFrom(GamesBase, rows, gameBytes, 1, InitialChunkSize).chunkSize > 0 {
      forall j | 0 <= j < |rows|
        ensures RowWritten(SaveFrom(GamesBase, rows, gameBytes, 1, InitialChunkSize).files, rows, j)
      {
        NoRowSkipped(GamesBase, rows, gameBytes, j);
      }
    }
  }
}
