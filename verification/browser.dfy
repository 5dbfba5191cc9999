/** What the Selenium session and BeautifulSoup report, as data. The scrapers
    only navigate, wait, scroll, read the page height and parse the page
    source; a `Site` fixes in advance what each of those observes. */
module Browser {
  import opened Wrappers
  import opened Text
  import opened Extraction

  /** A `div.c-productListings` of a rendered listing page: its `section`
      attribute and the `c-finderProductCard` divs inside it, in order. */
  datatype ListingDiv = ListingDiv(section: string, cards: seq<Card>)

  /** A listing page after `driver.get`: either the 20-second wait for
      `c-productListings` times out, or the page source parses to these divs. */
  datatype ListingLoad = WaitTimedOut | Rendered(divs: seq<ListingDiv>)

  /** One `document.body.scrollHeight` reading (for every reading after the
      first, taken after a scroll and a pause), or a script that raised. */
  datatype Reading = Height(height: int) | ScriptError

  /** A detail page after `driver.get`: either the "User Reviews" tab cannot
      be clicked or the review container never appears, or the tab opens and
      the page yields these height readings and, once scrolling stops, these
      `c-siteReview_main` blocks in document order. */
  datatype DetailLoad =
    | ReviewsTabUnavailable
    | ReviewsShown(readings: seq<Reading>, blocks: seq<ReviewBlock>)

  /** The site as the browser sees it, keyed by the URL navigated to. */
  datatype Site = Site(listing: string -> ListingLoad, detail: string -> DetailLoad)

  const BaseUrl := "https://www.metacritic.com/browse/game/?releaseYearMin=1958&releaseYearMax=2025&page="

  /** `base_url.format(page)`. */
  function ListingUrl(page: nat): string {
    BaseUrl + Decimal(page)
  }

  /** `f"detailed|{page}"`, the section of the listing container of a page. */
  function SectionId(page: nat): string {
    "detailed|" + Decimal(page)
  }

  /** Distinct pages are fetched from distinct URLs. */
  lemma ListingUrlInjective(a: nat, b: nat)
    requires ListingUrl(a) == ListingUrl(b)
    ensures a == b
  {
    assert Decimal(a) == ListingUrl(a)[|BaseUrl|..];
    assert Decimal(b) == ListingUrl(b)[|BaseUrl|..];
    DecimalInjective(a, b);
  }

  /** Distinct pages look for distinct listing sections. */
  lemma SectionIdInjective(a: nat, b: nat)
    requires SectionId(a) == SectionId(b)
    ensures a == b
  {
    assert Decimal(a) == SectionId(a)[|"detailed|"|..];
    assert Decimal(b) == SectionId(b)[|"detailed|"|..];
    DecimalInjective(a, b);
  }
}
