/**
  The Nature listing crawler (app/crawler/nature.py). The listing page and
  each article page are given as what the HTML selectors extracted from them;
  date parsing is a function parameter.
 */
module NatureListing {
  import opened Wrappers
  import opened Builtins
  import opened Papers

  const BaseUrl := "https://www.nature.com"

  /** The `href` attribute of a card's title link: absent, one value, or a list of values. */
  datatype Href = NoHref | HrefText(text: string) | HrefList(values: seq<string>)

  /** The `h3 a` element of a card: its stripped text and its `href`. */
  datatype TitleLink = TitleLink(text: string, href: Href)

  /** The article page fetched for a card: a failed request, or the abstract text and `dc.identifier` content found on it. */
  datatype DetailResponse = DetailFailed | DetailPage(abstractText: Option<string>, identifier: Option<string>)

  /** One `article.c-card`: its title link, its `time` element's `datetime`, its author names, and its article page. */
  datatype Card = Card(titleLink: Option<TitleLink>, datetimeAttr: Option<string>, authors: seq<string>, detail: DetailResponse)

  /** The listing page: a failed request (raised to the caller), or its cards in document order. */
  datatype ListingResponse = ListingFailed | ListingPage(cards: seq<Card>)

  /** The `href` read in `fetch_latest`: a list gives its first value (or ""), a missing or empty value gives "". */
  function HrefValue(h: Href): string {
    match h
    case NoHref => ""
    case HrefText(s) => s
    case HrefList(vs) => if |vs| > 0 then vs[0] else ""
  }

  /** The url `fetch_latest` stores: an `href` starting with "http" is kept, anything else is appended to the site's base URL. */
  function AbsoluteUrl(href: string): (url: string)
    ensures StartsWith(url, "http")
    ensures StartsWith(href, "http") ==> url == href
    ensures |href| <= |url| && url[|url| - |href|..] == href
  {
    if StartsWith(href, "http") then href
    else
      var url := BaseUrl + href;
      assert url[|BaseUrl|..] == href;
      url
  }

  /** Making a URL absolute twice changes nothing more. */
  lemma AbsoluteUrlIdempotent(href: string)
    ensures AbsoluteUrl(AbsoluteUrl(href)) == AbsoluteUrl(href)
  {
  }

  /** A relative path lands under the site's base URL. */
  lemma RelativeUrlUnderBase(href: string)
    requires !StartsWith(href, "http")
    ensures StartsWith(AbsoluteUrl(href), BaseUrl)
    ensures AbsoluteUrl(href)[|BaseUrl|..] == href
  {
  }

  /** The DOI `_fetch_detail` reads: the identifier after a leading "doi:", and absent otherwise. */
  function DoiFromIdentifier(content: Option<string>): (doi: Option<string>)
    ensures doi.Some? ==> content == Some("doi:" + doi.value)
  {
    if content.Some? && StartsWith(content.value, "doi:") then
      assert content.value == content.value[..4] + content.value[4..];
      Some(content.value[4..])
    else None
  }

  /** Every DOI comes back from its "doi:" identifier, and a content without that prefix gives no DOI. */
  lemma DoiRoundTrip(d: string, other: string)
    requires !StartsWith(other, "doi:")
    ensures DoiFromIdentifier(Some("doi:" + d)) == Some(d)
    ensures DoiFromIdentifier(Some(other)) == None
  {
  }

  /** `_fetch_detail`: (abstract, DOI); a failed request gives (None, None) instead of raising. */
  function FetchDetail(r: DetailResponse): (result: (Option<string>, Option<string>))
    ensures r.DetailFailed? ==> result == (None, None)
    ensures r.DetailPage? ==> result.0 == r.abstractText && result.1 == DoiFromIdentifier(r.identifier)
  {
    match r
    case DetailFailed => (None, None)
    case DetailPage(a, id) => (a, DoiFromIdentifier(id))
  }

  /** The date `fetch_latest` reads from a card: the `datetime` attribute with "Z" read as "+00:00", parsed; a parse failure is no date. */
  function PublishedAt(attr: Option<string>, parseIso: string -> Option<DateTime>): Option<DateTime> {
    if attr.Some? then parseIso(Replace(attr.value, "Z", "+00:00")) else None
  }

  /** The paper built from a card that has a title link (the body of the card loop of `fetch_latest`). */
  function CardPaper(c: Card, link: TitleLink, parseIso: string -> Option<DateTime>): Paper {
    var url := AbsoluteUrl(HrefValue(link.href));
    var detail := FetchDetail(c.detail);
    Paper(
      title := link.text,
      url := url,
      doi := detail.1,
      source := "nature",
      publishedAt := PublishedAt(c.datetimeAttr, parseIso),
      authors := if |c.authors| > 0 then Some(c.authors) else None,
      abstractText := detail.0,
      journal := Some("Nature"),
      extras := None)
  }

  /** The papers of a run of cards, in card order, cards without a title link skipped. */
  function CardsPapers(cards: seq<Card>, parseIso: string -> Option<DateTime>): seq<Paper>
    decreases |cards|
  {
    if |cards| == 0 then []
    else
      var c := cards[|cards| - 1];
      CardsPapers(cards[..|cards| - 1], parseIso)
      + (if c.titleLink.Some? then [CardPaper(c, c.titleLink.value, parseIso)] else [])
  }

  /** The number of cards that have a title link. */
  function LinkedCount(cards: seq<Card>): nat
    decreases |cards|
  {
    if |cards| == 0 then 0
    else LinkedCount(cards[..|cards| - 1]) + (if cards[|cards| - 1].titleLink.Some? then 1 else 0)
  }

  /**
    `fetch_latest`: the first `maxItems` cards (Python's `cards[:max_items]`),
    each with a title link turned into a paper. A failed listing request raises.
   */
  method FetchLatest(listing: ListingResponse, maxItems: int, parseIso: string -> Option<DateTime>) returns (r: FetchOutcome)
    ensures listing.ListingFailed? ==> r == Raised
    ensures listing.ListingPage? ==> r == Returned(CardsPapers(PyPrefix(listing.cards, maxItems), parseIso))
  {
    if listing.ListingFailed? {
      return Raised;
    }
    var cards := PyPrefix(listing.cards, maxItems);
    var papers: seq<Paper> := [];
    var i := 0;
    while i < |cards|
      invariant 0 <= i <= |cards|
      invariant papers == CardsPapers(cards[..i], parseIso)
    {
      var card := cards[i];
      assert cards[..i + 1][..i] == cards[..i];
      i := i + 1;
      if card.titleLink.None? {
        continue;
      }
      papers := papers + [CardPaper(card, card.titleLink.value, parseIso)];
    }
    assert cards[..i] == cards;
    return Returned(papers);
  }

  /** One paper per card with a title link: the skip rule drops exactly the cards without one. */
  lemma {:induction false} CardsPapersCount(cards: seq<Card>, parseIso: string -> Option<DateTime>)
    ensures |CardsPapers(cards, parseIso)| == LinkedCount(cards) <= |cards|
    decreases |cards|
  {
    if |cards| > 0 {
      CardsPapersCount(cards[..|cards| - 1], parseIso);
    }
  }

  /** Cards are processed in order: the papers of two runs of cards are those of the first, then the second. */
  lemma {:induction false} CardsPapersAppend(a: seq<Card>, b: seq<Card>, parseIso: string -> Option<DateTime>)
    ensures CardsPapers(a + b, parseIso) == CardsPapers(a, parseIso) + CardsPapers(b, parseIso)
    decreases |b|
  {
    if |b| > 0 {
      assert (a + b)[..|a + b| - 1] == a + b[..|b| - 1];
      CardsPapersAppend(a, b[..|b| - 1], parseIso);
    } else {
      assert a + b == a;
    }
  }

  /**
    Every paper is tagged "nature", journal "Nature", no extras; its url is
    absolute; an empty author list is stored as `None`; and its url is that of
    one of the cards.
   */
  lemma {:induction false} CardsPapersShape(cards: seq<Card>, parseIso: string -> Option<DateTime>)
    ensures forall p :: p in CardsPapers(cards, parseIso) ==>
      && p.source == "nature" && p.journal == Some("Nature") && p.extras.None?
      && StartsWith(p.url, "http")
      && (p.authors.Some? ==> |p.authors.value| > 0)
      && exists c :: c in cards && c.titleLink.Some? && p.url == AbsoluteUrl(HrefValue(c.titleLink.value.href))
    decreases |cards|
  {
    if |cards| > 0 {
      CardsPapersShape(cards[..|cards| - 1], parseIso);
      var c := cards[|cards| - 1];
      forall c' | c' in cards[..|cards| - 1] ensures c' in cards { }
    }
  }

  /** At most `maxItems` papers come back (for a non-negative bound). */
  lemma FetchLatestBound(cards: seq<Card>, maxItems: int, parseIso: string -> Option<DateTime>)
    requires maxItems >= 0
    ensures |CardsPapers(PyPrefix(cards, maxItems), parseIso)| <= maxItems
  {
    CardsPapersCount(PyPrefix(cards, maxItems), parseIso);
  }
}
