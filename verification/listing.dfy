/** The listing loop of `scrape_metacritic` (pages 1 to 50, one container per
    page, one record per card). */
module Listing {
  import opened Wrappers
  import opened Extraction
  import opened Browser

  const LastPage := 50

  /** The wait at the start of each page is outside any `try`: its timeout
      ends the whole run. */
  datatype ListingError = NavigationTimeout(page: nat)

  /** `soup.find("div", {"section": id, "class": "c-productListings"})`: the
      first listing div whose section is `id`. */
  function FindSection(divs: seq<ListingDiv>, id: string): Option<ListingDiv> {
    if divs == [] then None
    else if divs[0].section == id then Some(divs[0])
    else FindSection(divs[1..], id)
  }

  /** The lookup finds nothing exactly when no div has the section, and
      otherwise finds the first div that has it. */
  lemma {:induction false} FindSectionFirst(divs: seq<ListingDiv>, id: string)
    ensures FindSection(divs, id).None? <==> forall i :: 0 <= i < |divs| ==> divs[i].section != id
    ensures FindSection(divs, id).Some? ==>
              exists i :: 0 <= i < |divs| && divs[i] == FindSection(divs, id).value
                          && divs[i].section == id
                          && forall j :: 0 <= j < i ==> divs[j].section != id
  {
    if divs != [] && divs[0].section != id {
      FindSectionFirst(divs[1..], id);
      var r := FindSection(divs[1..], id);
      if r.Some? {
        var i :| 0 <= i < |divs[1..]| && divs[1..][i] == r.value && divs[1..][i].section == id
                 && forall j :: 0 <= j < i ==> divs[1..][j].section != id;
        assert divs[i + 1] == r.value;
      }
    }
  }

  /** The records of a page's cards, in card order; a card whose extraction
      raises contributes nothing. */
  function CardRecords(cards: seq<Card>): (r: seq<ListingRecord>)
    ensures |r| <= |cards|
  {
    if cards == [] then [] else CardRecord(cards[0]) + CardRecords(cards[1..])
  }

  /** What one card adds to the page: its record, or nothing if it raises. */
  function CardRecord(c: Card): (r: seq<ListingRecord>)
    ensures |r| <= 1
  {
    match ExtractCard(c)
    case Success(rec) => [rec]
    case Failure(_) => []
  }

  /** Cards are handled one after another: the records of `a + b` are those
      of `a` followed by those of `b`. */
  lemma {:induction false} CardRecordsAppend(a: seq<Card>, b: seq<Card>)
    ensures CardRecords(a + b) == CardRecords(a) + CardRecords(b)
  {
    if a == [] {
      assert a + b == b;
    } else {
      assert (a + b)[0] == a[0];
      assert (a + b)[1..] == a[1..] + b;
      CardRecordsAppend(a[1..], b);
    }
  }

  lemma CardRecordsSnoc(cards: seq<Card>, i: nat)
    requires i < |cards|
    ensures CardRecords(cards[..i + 1]) == CardRecords(cards[..i]) + CardRecord(cards[i])
  {
    assert cards[..i + 1] == cards[..i] + [cards[i]];
    CardRecordsAppend(cards[..i], [cards[i]]);
    CardRecordsSingle(cards[i]);
  }

  /** Only the broken cards are lost: when no card raises, there is one
      record per card, in card order. */
  lemma {:induction false} CardRecordsAllWellFormed(cards: seq<Card>)
    requires forall i :: 0 <= i < |cards| ==> ExtractCard(cards[i]).Success?
    ensures |CardRecords(cards)| == |cards|
    ensures forall i :: 0 <= i < |cards| ==> CardRecords(cards)[i] == ExtractCard(cards[i]).value
  {
    if cards != [] {
      CardRecordsAllWellFormed(cards[1..]);
    }
  }

  /** A card whose rating anchor has no text after it is dropped, and the
      cards around it are kept. */
  lemma BrokenCardDropped(before: seq<Card>, c: Card, after: seq<Card>)
    requires c.rating == Some(RatingAnchor(None))
    ensures CardRecords(before + [c] + after) == CardRecords(before) + CardRecords(after)
  {
    CardRecordsAppend(before + [c], after);
    CardRecordsAppend(before, [c]);
    CardRecordsSingle(c);
    assert CardRecord(c) == [];
    assert CardRecords(before) + [] == CardRecords(before);
  }

  lemma CardRecordsSingle(c: Card)
    ensures CardRecords([c]) == CardRecord(c)
  {
    assert [c][1..] == [];
  }

  /** What one page adds: an abort on timeout, nothing when the page has no
      container for its section, and its card records otherwise. */
  function PageRecords(site: Site, page: nat): Result<seq<ListingRecord>, ListingError> {
    match site.listing(ListingUrl(page))
    case WaitTimedOut => Failure(NavigationTimeout(page))
    case Rendered(divs) =>
      match FindSection(divs, SectionId(page))
      case None => Success([])
      case Some(div) => Success(CardRecords(div.cards))
  }

  /** The listing pass over pages 1..last: the records of each page appended
      in page order, or the first timeout. */
  function Crawl(site: Site, last: nat): Result<seq<ListingRecord>, ListingError> {
    if last == 0 then Success([])
    else
      match Crawl(site, last - 1)
      case Failure(e) => Failure(e)
      case Success(acc) =>
        match PageRecords(site, last)
        case Failure(e) => Failure(e)
        case Success(rs) => Success(acc + rs)
  }

  /** The listing loop of `scrape_metacritic`. */
  method ScrapeListings(site: Site) returns (r: Result<seq<ListingRecord>, ListingError>)
    ensures r == Crawl(site, LastPage)
  {
    var allData: seq<ListingRecord> := [];
    for page := 1 to LastPage + 1
      invariant Crawl(site, page - 1) == Success(allData)
    {
      match site.listing(ListingUrl(page))
      case WaitTimedOut =>
        TimeoutAbortsCrawl(site, page, LastPage);
        return Failure(NavigationTimeout(page));
      case Rendered(divs) =>
        var mainDiv := FindSection(divs, SectionId(page));
        if mainDiv.None? {
          CrawlNext(site, page, allData, []);
          assert allData + [] == allData;
          continue;
        }
        var before := allData;
        allData := AppendCards(allData, mainDiv.value.cards);
        CrawlNext(site, page, before, CardRecords(mainDiv.value.cards));
    }
    return Success(allData);
  }

  /** The card loop of one page: each card's record is appended in turn, and
      a card whose extraction raises is skipped. */
  method AppendCards(allData: seq<ListingRecord>, cards: seq<Card>) returns (out: seq<ListingRecord>)
    ensures out == allData + CardRecords(cards)
  {
    out := allData;
    for i := 0 to |cards|
      invariant out == allData + CardRecords(cards[..i])
    {
      CardRecordsSnoc(cards, i);
      var rec := ExtractCard(cards[i]);
      if rec.Success? {
        out := out + [rec.value];
      }
    }
    assert cards[..|cards|] == cards;
  }

  /** A page that loads adds its records after those of the pages before. */
  lemma CrawlNext(site: Site, page: nat, acc: seq<ListingRecord>, rs: seq<ListingRecord>)
    requires page >= 1 && Crawl(site, page - 1) == Success(acc)
    requires PageRecords(site, page) == Success(rs)
    ensures Crawl(site, page) == Success(acc + rs)
  {
  }

  /** A timeout on page `p`, after pages before it loaded, is the result of
      the whole pass, whatever the later pages hold. */
  lemma {:induction false} TimeoutAbortsCrawl(site: Site, p: nat, last: nat)
    requires 1 <= p <= last
    requires Crawl(site, p - 1).Success?
    requires site.listing(ListingUrl(p)).WaitTimedOut?
    ensures Crawl(site, last) == Failure(NavigationTimeout(p))
  {
    if last > p {
      TimeoutAbortsCrawl(site, p, last - 1);
    }
  }

  predicate TimesOut(site: Site, page: nat) {
    site.listing(ListingUrl(page)).WaitTimedOut?
  }

  /** The pass fails exactly when some page in range times out, and then it
      reports the first such page. */
  lemma {:induction false} CrawlFailsIff(site: Site, last: nat)
    ensures Crawl(site, last).Failure? <==> exists p :: 1 <= p <= last && TimesOut(site, p)
    ensures Crawl(site, last).Failure? ==>
            var p := Crawl(site, last).error.page;
            && 1 <= p <= last && TimesOut(site, p)
            && forall q :: 1 <= q < p ==> !TimesOut(site, q)
  {
    if last > 0 {
      CrawlFailsIff(site, last - 1);
      var prev := Crawl(site, last - 1);
      if prev.Failure? {
        var p := prev.error.page;
        assert 1 <= p <= last && TimesOut(site, p);
      } else if TimesOut(site, last) {
        assert PageRecords(site, last) == Failure(NavigationTimeout(last));
      } else {
        assert PageRecords(site, last).Success?;
        assert Crawl(site, last).Success?;
        forall p | 1 <= p <= last ensures !TimesOut(site, p) {
          if p < last {
            assert !(1 <= p <= last - 1 && TimesOut(site, p));
          }
        }
      }
    }
  }

  /** One more page keeps what the earlier pages gave and adds after it. */
  lemma CrawlStep(site: Site, n: nat)
    requires n >= 1
    requires Crawl(site, n).Success?
    ensures Crawl(site, n - 1).Success?
    ensures Crawl(site, n - 1).value <= Crawl(site, n).value
  {
    var prev := Crawl(site, n - 1);
    assert prev.Success?;
    var page := PageRecords(site, n);
    assert page.Success?;
    assert Crawl(site, n).value == prev.value + page.value;
  }

  /** Page order: the records of the first `m` pages are a prefix of the
      records of the first `n`. */
  lemma {:induction false} CrawlPrefix(site: Site, m: nat, n: nat)
    requires m <= n
    requires Crawl(site, n).Success?
    ensures Crawl(site, m).Success?
    ensures Crawl(site, m).value <= Crawl(site, n).value
  {
    if m < n {
      CrawlStep(site, n);
      CrawlPrefix(site, m, n - 1);
    }
  }

  /** Pages that load but hold no container for their section add nothing. */
  lemma {:induction false} MissingContainersAddNothing(site: Site, m: nat, n: nat)
    requires m <= n
    requires forall p :: m < p <= n ==>
      site.listing(ListingUrl(p)).Rendered?
      && FindSection(site.listing(ListingUrl(p)).divs, SectionId(p)).None?
    ensures Crawl(site, n) == Crawl(site, m)
  {
    if m < n {
      assert site.listing(ListingUrl(n)).Rendered?
             && FindSection(site.listing(ListingUrl(n)).divs, SectionId(n)).None?;
      assert PageRecords(site, n) == Success([]);
      MissingContainersAddNothing(site, m, n - 1);
      if Crawl(site, n - 1).Success? {
        assert Crawl(site, n - 1).value + [] == Crawl(site, n - 1).value;
      }
    }
  }

  /** Two cards on page 1, one fully populated and one with nothing in it,
      and no container on pages 2 to 50: two records, the second all "N/A". */
  lemma TwoCardExample(site: Site, full: Card)
    requires full.rating.None? || full.rating.value.nextString.Some?
    requires site.listing(ListingUrl(1))
             == Rendered([ListingDiv(SectionId(1), [full, Card(None, None, None, None, None, None)])])
    requires forall p :: 2 <= p <= LastPage ==> site.listing(ListingUrl(p)) == Rendered([])
    ensures Crawl(site, LastPage).Success?
    ensures |Crawl(site, LastPage).value| == 2
    ensures Crawl(site, LastPage).value[0] == ExtractCard(full).value
    ensures Crawl(site, LastPage).value[1]
            == ListingRecord(NotAvailable, NotAvailable, NotAvailable,
                             NotAvailable, NotAvailable, NotAvailable)
  {
    var empty := Card(None, None, None, None, None, None);
    EmptyCardDefaults();
    CardRecordsAllWellFormed([full, empty]);
    MissingContainersAddNothing(site, 1, LastPage);
  }
}
