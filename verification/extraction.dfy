/** Field extraction from one listing card and one review block
    (`scrape_metacritic` and `scrape_reviews` in both scrapers). The parsed
    HTML is abstracted to what each lookup finds: a sub-element found by its
    selector is `Some(Element(...))` with the text nodes below it in document
    order, and a missing one is `None`. */
module Extraction {
  import opened Wrappers
  import opened Text

  const NotAvailable := "N/A"
  const Anonymous := "Anonymous"
  const Domain := "https://www.metacritic.com"

  /** A located sub-element: the text nodes below it, in document order. */
  datatype Element = Element(strings: seq<string>)

  /** The `<span class="u-text-capitalize">` of a card and the first text node
      that follows it as a sibling, if there is one. */
  datatype RatingAnchor = RatingAnchor(nextString: Option<string>)

  /** A `c-finderProductCard` div, seen through the six lookups made on it. */
  datatype Card = Card(
    title: Option<Element>,        // div.c-finderProductCard_title
    releaseDate: Option<Element>,  // span.u-text-uppercase
    rating: Option<RatingAnchor>,  // span.u-text-capitalize
    description: Option<Element>,  // div.c-finderProductCard_description
    metascore: Option<Element>,    // div.c-siteReviewScore
    href: Option<string>)          // href of the first <a> that has one

  datatype ListingRecord = ListingRecord(
    title: string, releaseDate: string, rating: string,
    description: string, metascore: string, link: string)

  /** The AttributeError raised by `.strip()` on the `None` that
      `find_next_sibling(string=True)` returns when no text follows the
      rating anchor. */
  datatype CardError = RatingTextMissing

  /** A `c-siteReview_main` div, seen through the four lookups made on it. */
  datatype ReviewBlock = ReviewBlock(
    user: Option<Element>,     // a.c-siteReviewHeader_username
    score: Option<Element>,    // div.c-siteReviewScore
    date: Option<Element>,     // div.c-siteReviewHeader_reviewDate
    content: Option<Element>)  // div.c-siteReview_quote

  datatype ReviewRecord = ReviewRecord(
    game: string, user: string, score: string,
    date: string, content: string, link: string)

  /** `el.get_text(strip=True) if el else default`. */
  function TextOr(e: Option<Element>, default: string): string {
    match e
    case None => default
    case Some(el) => GetText(el.strings)
  }

  /** The value a field takes: the default when its element is missing, the
      element's stripped text otherwise. */
  ghost predicate DefaultedField(e: Option<Element>, default: string, v: string) {
    && (e.None? ==> v == default)
    && (e.Some? ==> v == GetText(e.value.strings) && Trimmed(v))
  }

  /** `f"https://www.metacritic.com{link['href']}" if link else "N/A"`. */
  function LinkOf(href: Option<string>): string {
    match href
    case None => NotAvailable
    case Some(h) => Domain + h
  }

  /** The rating lookup: "N/A" without an anchor, the stripped sibling text
      with one, and the AttributeError when the anchor has no sibling text. */
  function RatingOf(anchor: Option<RatingAnchor>): Result<string, CardError> {
    match anchor
    case None => Success(NotAvailable)
    case Some(RatingAnchor(None)) => Failure(RatingTextMissing)
    case Some(RatingAnchor(Some(t))) => Success(Strip(t))
  }

  /** The body of the per-card `try`: a record, or the error that makes the
      listing loop drop this card. */
  function ExtractCard(c: Card): (r: Result<ListingRecord, CardError>)
    ensures r.Failure? <==> c.rating == Some(RatingAnchor(None))
    ensures r.Success? ==>
      && DefaultedField(c.title, NotAvailable, r.value.title)
      && DefaultedField(c.releaseDate, NotAvailable, r.value.releaseDate)
      && DefaultedField(c.description, NotAvailable, r.value.description)
      && DefaultedField(c.metascore, NotAvailable, r.value.metascore)
      && (c.rating.None? ==> r.value.rating == NotAvailable)
      && (c.rating.Some? ==> r.value.rating == Strip(c.rating.value.nextString.value)
                             && Trimmed(r.value.rating))
      && (c.href.Some? ==> r.value.link == Domain + c.href.value)
      && (c.href.None? ==> r.value.link == NotAvailable)
  {
    match RatingOf(c.rating)
    case Failure(e) => Failure(e)
    case Success(rating) =>
      Success(ListingRecord(
        TextOr(c.title, NotAvailable),
        TextOr(c.releaseDate, NotAvailable),
        rating,
        TextOr(c.description, NotAvailable),
        TextOr(c.metascore, NotAvailable),
        LinkOf(c.href)))
  }

  /** A card's link is "N/A" exactly when the card has no anchor with an
      href: a joined link always starts with the domain, so it is never
      "N/A". This is what lets the review crawl tell linkless games apart. */
  lemma LinkNotAvailableIff(c: Card)
    requires ExtractCard(c).Success?
    ensures ExtractCard(c).value.link == NotAvailable <==> c.href.None?
  {
    if c.href.Some? {
      var link := Domain + c.href.value;
      assert link[0] == 'h' != NotAvailable[0];
    }
  }

  /** A card in which every lookup comes back empty still yields a record,
      and every field of it is "N/A". */
  lemma EmptyCardDefaults()
    ensures ExtractCard(Card(None, None, None, None, None, None))
         == Success(ListingRecord(NotAvailable, NotAvailable, NotAvailable,
                                  NotAvailable, NotAvailable, NotAvailable))
  {
  }

  /** The body of the per-review `try`. No lookup in it can raise, so it is
      total: the review's own fields default or are stripped, and the game
      title and link come from the parent listing record. */
  function ExtractReview(b: ReviewBlock, game: ListingRecord): (r: ReviewRecord)
    ensures r.game == game.title && r.link == game.link
    ensures DefaultedField(b.user, Anonymous, r.user)
    ensures DefaultedField(b.score, NotAvailable, r.score)
    ensures DefaultedField(b.date, NotAvailable, r.date)
    ensures DefaultedField(b.content, NotAvailable, r.content)
  {
    ReviewRecord(
      game.title,
      TextOr(b.user, Anonymous),
      TextOr(b.score, NotAvailable),
      TextOr(b.date, NotAvailable),
      TextOr(b.content, NotAvailable),
      game.link)
  }
}
