/** `scrape_reviews`: for every game with a link, open its detail page, open
    the "User Reviews" tab, scroll until the page height stops changing, and
    extract at most 1000 review blocks. */
module Reviews {
  import opened Wrappers
  import opened Extraction
  import opened Browser

  const ReviewCap := 1000

  /** How the scroll loop ends: the height repeats after `scrolls` scrolls; a
      script raises (caught at the item boundary, so the game is skipped); or
      the readings run out while the height keeps changing, where the source,
      which has no bound on the loop, would go on scrolling. */
  datatype ScrollOutcome = Settled(scrolls: nat) | ScriptFailed | OutOfReadings

  /** The loop from reading `i` on, with `last` the previous height. */
  function SettleFrom(readings: seq<Reading>, i: nat, last: int): ScrollOutcome
    decreases |readings| - i
  {
    if i >= |readings| then OutOfReadings
    else match readings[i]
      case ScriptError => ScriptFailed
      case Height(h) => if h == last then Settled(i) else SettleFrom(readings, i + 1, h)
  }

  /** The scroll loop over the whole reading sequence; reading 0 is the
      height taken before the first scroll. */
  function Settle(readings: seq<Reading>): ScrollOutcome {
    if readings == [] then OutOfReadings
    else match readings[0]
      case ScriptError => ScriptFailed
      case Height(h) => SettleFrom(readings, 1, h)
  }

  /** Readings 0..k are all heights, and each of readings 1..k differs from
      the one before it. */
  ghost predicate GrowsThrough(readings: seq<Reading>, k: int) {
    && k < |readings|
    && (forall j :: 0 <= j <= k ==> readings[j].Height?)
    && (forall j :: 1 <= j <= k ==> readings[j].height != readings[j - 1].height)
  }

  /** The `while True` scroll loop: read the height, then scroll, pause and
      read again until a reading equals the one before it. */
  method ScrollUntilStable(readings: seq<Reading>) returns (o: ScrollOutcome)
    ensures o == Settle(readings)
  {
    if |readings| == 0 {
      return OutOfReadings;
    }
    if readings[0].ScriptError? {
      return ScriptFailed;
    }
    var lastHeight := readings[0].height;
    var i := 1;
    while true
      invariant 1 <= i <= |readings|
      invariant Settle(readings) == SettleFrom(readings, i, lastHeight)
      decreases |readings| - i
    {
      if i == |readings| {
        return OutOfReadings;
      }
      match readings[i]
      case ScriptError =>
        return ScriptFailed;
      case Height(newHeight) =>
        if newHeight == lastHeight {
          return Settled(i);
        }
        lastHeight := newHeight;
        i := i + 1;
    }
  }

  lemma {:induction false} SettleFromMeans(readings: seq<Reading>, i: nat, last: int)
    requires 1 <= i
    requires GrowsThrough(readings, i - 1) && readings[i - 1].height == last
    ensures SettleFrom(readings, i, last).Settled? ==>
              var k := SettleFrom(readings, i, last).scrolls;
              && i <= k < |readings| && GrowsThrough(readings, k - 1)
              && readings[k].Height? && readings[k].height == readings[k - 1].height
    ensures SettleFrom(readings, i, last).ScriptFailed? ==>
              exists e :: i <= e < |readings| && readings[e].ScriptError? && GrowsThrough(readings, e - 1)
    ensures SettleFrom(readings, i, last).OutOfReadings? ==> GrowsThrough(readings, |readings| - 1)
    decreases |readings| - i
  {
    if i < |readings| && readings[i].Height? && readings[i].height != last {
      SettleFromMeans(readings, i + 1, readings[i].height);
    }
  }

  /** What the loop's outcome means for the readings: it stops after the
      first scroll whose height equals the previous one; a failing script
      ends it; and it runs out of readings only if every reading differed
      from the one before. */
  lemma SettleMeans(readings: seq<Reading>)
    ensures Settle(readings).Settled? ==>
              var k := Settle(readings).scrolls;
              && 1 <= k < |readings| && GrowsThrough(readings, k - 1)
              && readings[k].Height? && readings[k].height == readings[k - 1].height
    ensures Settle(readings).ScriptFailed? ==>
              exists e :: 0 <= e < |readings| && readings[e].ScriptError? && GrowsThrough(readings, e - 1)
    ensures Settle(readings).OutOfReadings? ==> GrowsThrough(readings, |readings| - 1)
  {
    if readings != [] && readings[0].Height? {
      SettleFromMeans(readings, 1, readings[0].height);
    } else if readings != [] {
      assert GrowsThrough(readings, -1);
    }
  }

  /** Conversely, the first repeated height is where the loop stops. */
  lemma {:induction false} SettleAtFirstRepeat(readings: seq<Reading>, k: nat)
    requires 1 <= k < |readings|
    requires GrowsThrough(readings, k - 1)
    requires readings[k].Height? && readings[k].height == readings[k - 1].height
    ensures Settle(readings) == Settled(k)
  {
    SettleFromAt(readings, 1, k);
  }

  lemma {:induction false} SettleFromAt(readings: seq<Reading>, i: nat, k: nat)
    requires 1 <= i <= k < |readings|
    requires GrowsThrough(readings, k - 1)
    requires readings[k].Height? && readings[k].height == readings[k - 1].height
    ensures SettleFrom(readings, i, readings[i - 1].height) == Settled(k)
    decreases k - i
  {
    if i < k {
      SettleFromAt(readings, i + 1, k);
    }
  }

  /** Heights 100, 150, 150: two scrolls, then the loop stops. */
  lemma ScrollExample()
    ensures Settle([Height(100), Height(150), Height(150)]) == Settled(2)
  {
  }

  /** Two equal heights in a row from the start: exactly one scroll. */
  lemma SettleImmediately(h: int, rest: seq<Reading>)
    ensures Settle([Height(h), Height(h)] + rest) == Settled(1)
  {
    SettleAtFirstRepeat([Height(h), Height(h)] + rest, 1);
  }

  /** What one game adds: either its records, or `Stuck` when its scroll loop
      would not end within the readings. */
  datatype GameOutcome = Collected(records: seq<ReviewRecord>) | Stuck

  /** `reviews[:1000]`. */
  function FirstBlocks(blocks: seq<ReviewBlock>): (r: seq<ReviewBlock>)
    ensures |r| <= ReviewCap && r <= blocks
    ensures |blocks| <= ReviewCap ==> r == blocks
    ensures |blocks| > ReviewCap ==> |r| == ReviewCap
  {
    if |blocks| <= ReviewCap then blocks else blocks[..ReviewCap]
  }

  function ExtractAll(blocks: seq<ReviewBlock>, game: ListingRecord): (r: seq<ReviewRecord>)
    ensures |r| == |blocks|
    ensures forall i :: 0 <= i < |r| ==> r[i] == ExtractReview(blocks[i], game)
  {
    seq(|blocks|, i requires 0 <= i < |blocks| => ExtractReview(blocks[i], game))
  }

  /** The body of the per-game iteration, for a game whose link is not "N/A". */
  function GameReviews(game: ListingRecord, site: Site): GameOutcome {
    match site.detail(game.link)
    case ReviewsTabUnavailable => Collected([])
    case ReviewsShown(readings, blocks) =>
      match Settle(readings)
      case OutOfReadings => Stuck
      case ScriptFailed => Collected([])
      case Settled(_) =>
        if blocks == [] then Collected([])
        else Collected(ExtractAll(FirstBlocks(blocks), game))
  }

  /** A game contributes at most 1000 records, taken from its first blocks in
      document order, each carrying the game's title and link; and when its
      scroll loop settles it contributes exactly that many. */
  lemma GameReviewsShape(game: ListingRecord, site: Site)
    ensures GameReviews(game, site).Collected? ==>
              var rs := GameReviews(game, site).records;
              && |rs| <= ReviewCap
              && forall i :: 0 <= i < |rs| ==> rs[i].game == game.title && rs[i].link == game.link
    ensures site.detail(game.link).ReviewsShown? && Settle(site.detail(game.link).readings).Settled? ==>
              var blocks := site.detail(game.link).blocks;
              var rs := GameReviews(game, site).records;
              && |rs| == (if |blocks| <= ReviewCap then |blocks| else ReviewCap)
              && forall i :: 0 <= i < |rs| ==> rs[i] == ExtractReview(blocks[i], game)
  {
  }

  /** The review pass: every review so far and every link navigated to, or
      the link of the game whose scroll loop would not end. */
  datatype ReviewCrawl =
    | Completed(reviews: seq<ReviewRecord>, visited: seq<string>)
    | NeverSettles(link: string)

  /** The review pass over `games`, one game at a time in order. */
  function CrawlReviews(games: seq<ListingRecord>, site: Site): ReviewCrawl {
    if games == [] then Completed([], [])
    else NextGame(CrawlReviews(games[..|games| - 1], site), games[|games| - 1], site)
  }

  /** One iteration of the review loop, after the games before it: a game
      without a link is skipped, any other is visited and adds its reviews,
      and nothing is reached once a scroll loop would not end. */
  function NextGame(sofar: ReviewCrawl, game: ListingRecord, site: Site): ReviewCrawl {
    match sofar
    case NeverSettles(l) => NeverSettles(l)
    case Completed(rs, vs) =>
      if game.link == NotAvailable then Completed(rs, vs)
      else
        match GameReviews(game, site)
        case Stuck => NeverSettles(game.link)
        case Collected(recs) => Completed(rs + recs, vs + [game.link])
  }

  lemma CrawlReviewsPrefix(games: seq<ListingRecord>, g: nat, site: Site)
    requires g < |games|
    ensures CrawlReviews(games[..g + 1], site) == NextGame(CrawlReviews(games[..g], site), games[g], site)
  {
    assert games[..g + 1][..g] == games[..g];
  }

  /** The review loop of `scrape_reviews`. */
  method ScrapeReviews(games: seq<ListingRecord>, site: Site) returns (r: ReviewCrawl)
    ensures r == CrawlReviews(games, site)
  {
    var reviewsData: seq<ReviewRecord> := [];
    var visited: seq<string> := [];
    for g := 0 to |games|
      invariant CrawlReviews(games[..g], site) == Completed(reviewsData, visited)
    {
      CrawlReviewsPrefix(games, g, site);
      var game := games[g];
      var link := game.link;
      if link == NotAvailable {
        continue;
      }
      visited := visited + [link];
      var page := site.detail(link);
      if page.ReviewsTabUnavailable? {
        assert reviewsData + [] == reviewsData;
        continue;
      }
      var outcome := ScrollUntilStable(page.readings);
      if outcome.OutOfReadings? {
        StuckPersists(games, g + 1, site);
        assert games[..|games|] == games;
        return NeverSettles(link);
      }
      if outcome.ScriptFailed? {
        assert reviewsData + [] == reviewsData;
        continue;
      }
      var blocks := page.blocks;
      if blocks == [] {
        assert reviewsData + [] == reviewsData;
        continue;
      }
      reviewsData := AppendReviews(reviewsData, FirstBlocks(blocks), game);
    }
    assert games[..|games|] == games;
    return Completed(reviewsData, visited);
  }

  /** The per-review loop: one record per block, appended in block order. */
  method AppendReviews(reviewsData: seq<ReviewRecord>, blocks: seq<ReviewBlock>, game: ListingRecord)
    returns (out: seq<ReviewRecord>)
    ensures out == reviewsData + ExtractAll(blocks, game)
  {
    out := reviewsData;
    for b := 0 to |blocks|
      invariant out == reviewsData + ExtractAll(blocks[..b], game)
    {
      assert ExtractAll(blocks[..b + 1], game) == ExtractAll(blocks[..b], game) + [ExtractReview(blocks[b], game)];
      out := out + [ExtractReview(blocks[b], game)];
    }
    assert blocks[..|blocks|] == blocks;
  }

  /** Once a game's scroll loop would not end, nothing after it is reached. */
  lemma {:induction false} StuckPersists(games: seq<ListingRecord>, k: nat, site: Site)
    requires k <= |games|
    requires CrawlReviews(games[..k], site).NeverSettles?
    ensures CrawlReviews(games, site) == CrawlReviews(games[..k], site)
    decreases |games| - k
  {
    if k < |games| {
      assert games[..k + 1][..k] == games[..k];
      StuckPersists(games, k + 1, site);
    } else {
      assert games[..k] == games;
    }
  }

  /** The pass is built one game at a time: two lists of games the pass
      treats alike stay alike when the same game is appended to both. */
  lemma CrawlReviewsSnoc(a: seq<ListingRecord>, b: seq<ListingRecord>, g: ListingRecord, site: Site)
    requires CrawlReviews(a, site) == CrawlReviews(b, site)
    ensures CrawlReviews(a + [g], site) == CrawlReviews(b + [g], site)
  {
    assert (a + [g])[..|a|] == a;
    assert (b + [g])[..|b|] == b;
  }

  /** A game whose link is "N/A" is skipped before any navigation: removing
      it changes neither the reviews nor the pages visited. */
  lemma {:induction false} NoLinkNoVisit(before: seq<ListingRecord>, game: ListingRecord, after: seq<ListingRecord>, site: Site)
    requires game.link == NotAvailable
    ensures CrawlReviews(before + [game] + after, site) == CrawlReviews(before + after, site)
    decreases |after|
  {
    if after == [] {
      SkipNoLink(before, game, site);
      assert before + [game] + after == before + [game];
      assert before + after == before;
    } else {
      var rest, last := after[..|after| - 1], after[|after| - 1];
      NoLinkNoVisit(before, game, rest, site);
      assert before + [game] + after == (before + [game] + rest) + [last];
      assert before + after == (before + rest) + [last];
      CrawlReviewsSnoc(before + [game] + rest, before + rest, last, site);
    }
  }

  /** Appending a game without a link changes nothing. */
  lemma SkipNoLink(games: seq<ListingRecord>, game: ListingRecord, site: Site)
    requires game.link == NotAvailable
    ensures CrawlReviews(games + [game], site) == CrawlReviews(games, site)
  {
    assert (games + [game])[..|games|] == games;
  }

  /** The links of `games` other than "N/A", in game order. */
  function Linked(games: seq<ListingRecord>): (r: seq<string>)
    ensures |r| <= |games|
    ensures forall i :: 0 <= i < |r| ==> r[i] != NotAvailable
  {
    if games == [] then []
    else
      var last := games[|games| - 1];
      Linked(games[..|games| - 1]) + (if last.link == NotAvailable then [] else [last.link])
  }

  /** Every game with a link has its link among the linked ones. */
  lemma {:induction false} LinkedHasEvery(games: seq<ListingRecord>, j: int)
    requires 0 <= j < |games| && games[j].link != NotAvailable
    ensures games[j].link in Linked(games)
  {
    var init := games[..|games| - 1];
    if j < |games| - 1 {
      assert init[j] == games[j];
      LinkedHasEvery(init, j);
    }
  }

  /** A completed pass navigates to the link of every game that has one, once
      per game and in game order, and to nothing else; every review comes
      from a visited page and carries the title and link of one of the
      games. */
  lemma {:induction false} CrawlReviewsShape(games: seq<ListingRecord>, site: Site)
    ensures CrawlReviews(games, site).Completed? ==>
              var c := CrawlReviews(games, site);
              && c.visited == Linked(games)
              && |c.visited| <= |games|
              && (forall i :: 0 <= i < |c.visited| ==> c.visited[i] != NotAvailable)
              && (forall i :: 0 <= i < |c.reviews| ==>
                    && c.reviews[i].link != NotAvailable
                    && c.reviews[i].link in c.visited
                    && exists j :: 0 <= j < |games| && c.reviews[i].game == games[j].title
                                   && c.reviews[i].link == games[j].link)
  {
    if games != [] {
      var init := games[..|games| - 1];
      var game := games[|games| - 1];
      CrawlReviewsShape(init, site);
      var c := CrawlReviews(games, site);
      var prev := CrawlReviews(init, site);
      if c.Completed? {
        assert prev.Completed?;
        var recs: seq<ReviewRecord> := [];
        if game.link != NotAvailable {
          GameReviewsShape(game, site);
          recs := GameReviews(game, site).records;
          assert c.visited == prev.visited + [game.link];
        } else {
          assert c.visited == prev.visited + [];
        }
        assert c.reviews == prev.reviews + recs;
        forall i | 0 <= i < |c.reviews|
          ensures c.reviews[i].link != NotAvailable && c.reviews[i].link in c.visited
          ensures exists j :: 0 <= j < |games| && c.reviews[i].game == games[j].title
                              && c.reviews[i].link == games[j].link
        {
          if i < |prev.reviews| {
            var j :| 0 <= j < |init| && prev.reviews[i].game == init[j].title
                     && prev.reviews[i].link == init[j].link;
            assert games[j] == init[j];
            assert c.reviews[i] == prev.reviews[i];
          } else {
            assert c.reviews[i] == recs[i - |prev.reviews|];
            assert c.visited[|c.visited| - 1] == game.link;
          }
        }
      }
    }
  }
}
