/**
  The Nature Portfolio RSS crawler (app/crawler/nature_rss.py). Each feed is
  given as the response to its request; each item as the fields its XML
  elements yielded and the response to its article request. `urlparse(...)
  .netloc` and `strptime` are function parameters: `netloc` returns `None`
  where `urlparse` raises, and `parseRfc` returns `None` where `strptime` does.
 */
module NatureRss {
  import opened Wrappers
  import opened Builtins
  import opened Papers

  const DoiPrefix := "https://doi.org/"

  /** The article page of an item: a failed request, or its abstract text and the text of its first doi.org anchor. */
  datatype RssDetail = RssDetailFailed | RssDetailPage(abstractText: Option<string>, doiAnchor: Option<string>)

  /** One `item`: `title` and `link` texts and `pubDate` string (`None` where the element is missing), and its article page. */
  datatype Item = Item(title: Option<string>, link: Option<string>, pubDate: Option<string>, detail: RssDetail)

  datatype FeedResponse = FeedFailed | FeedDocument(items: seq<Item>)

  /** A configured feed URL with the response its request got. */
  datatype Feed = Feed(url: string, response: FeedResponse)

  predicate Truthy(o: Option<string>) { o.Some? && |o.value| > 0 }

  /** The DOI `_fetch_detail` reads: the anchor text with every "https://doi.org/" removed. */
  function StripDoiPrefix(anchor: string): string {
    Replace(anchor, DoiPrefix, "")
  }

  /** A DOI written as a doi.org link comes back as the bare DOI. */
  lemma StripDoiPrefixRoundTrip(doi: string)
    requires !Contains(doi, DoiPrefix)
    ensures StripDoiPrefix(DoiPrefix + doi) == doi
  {
    RemovePrefixOnce(DoiPrefix, doi);
  }

  /** `_fetch_detail(link)`: (abstract, DOI), and (None, None) for an empty link or a failed request. */
  function FetchDetail(link: Option<string>, r: RssDetail): (result: (Option<string>, Option<string>))
    ensures !Truthy(link) || r.RssDetailFailed? ==> result == (None, None)
    ensures Truthy(link) && r.RssDetailPage? ==>
      result.0 == r.abstractText && (result.1.Some? <==> r.doiAnchor.Some?)
    ensures Truthy(link) && r.RssDetailPage? && r.doiAnchor.Some? ==> result.1 == Some(StripDoiPrefix(r.doiAnchor.value))
  {
    if !Truthy(link) then (None, None)
    else match r
      case RssDetailFailed => (None, None)
      case RssDetailPage(a, anchor) => (a, if anchor.Some? then Some(StripDoiPrefix(anchor.value)) else None)
  }

  /** An article page whose DOI anchor is a doi.org link to `doi` gives back exactly `doi`. */
  lemma FetchDetailDoiLink(link: string, abstractText: Option<string>, doi: string)
    requires |link| > 0 && !Contains(doi, DoiPrefix)
    ensures FetchDetail(Some(link), RssDetailPage(abstractText, Some(DoiPrefix + doi))) == (abstractText, Some(doi))
  {
    StripDoiPrefixRoundTrip(doi);
  }

  /** The date `fetch_latest` reads from an item: a non-empty `pubDate` string, stripped and parsed; a parse failure is no date. */
  function PubDate(s: Option<string>, parseRfc: string -> Option<DateTime>): Option<DateTime> {
    if Truthy(s) then parseRfc(Strip(s.value)) else None
  }

  /** What one item does to its feed's loop: raise (ending the feed), or go on, with or without a paper. */
  datatype ItemStep = Abort | Next(paper: Option<Paper>)

  function FeedExtras(feed: string): Extras {
    map["feed" := Text(feed)]
  }

  /** One turn of the item loop of `fetch_latest`. `urlparse` runs on every non-empty link, before the title check. */
  function StepItem(feed: string, it: Item, netloc: string -> Option<string>, parseRfc: string -> Option<DateTime>): ItemStep {
    var journal := if Truthy(it.link) then netloc(it.link.value) else None;
    if Truthy(it.link) && journal.None? then Abort
    else
      var detail := FetchDetail(it.link, it.detail);
      if Truthy(it.title) && Truthy(it.link) then
        Next(Some(Paper(
          title := it.title.value,
          url := it.link.value,
          doi := detail.1,
          source := "nature-portfolio",
          publishedAt := PubDate(it.pubDate, parseRfc),
          authors := None,
          abstractText := detail.0,
          journal := journal,
          extras := Some(FeedExtras(feed)))))
      else Next(None)
  }

  /** The papers one feed's items yield, in document order, up to the first item that raises. */
  function ItemsPapers(feed: string, items: seq<Item>, netloc: string -> Option<string>, parseRfc: string -> Option<DateTime>): seq<Paper>
    decreases |items|
  {
    if |items| == 0 then []
    else match StepItem(feed, items[0], netloc, parseRfc)
      case Abort => []
      case Next(p) => (if p.Some? then [p.value] else []) + ItemsPapers(feed, items[1..], netloc, parseRfc)
  }

  /** One step of `ItemsPapers`, for the loop of `ReadFeedItems`. */
  lemma ItemsPapersUnfold(feed: string, items: seq<Item>, netloc: string -> Option<string>, parseRfc: string -> Option<DateTime>)
    requires |items| > 0
    ensures var step := StepItem(feed, items[0], netloc, parseRfc);
      ItemsPapers(feed, items, netloc, parseRfc) ==
        if step.Abort? then []
        else (if step.paper.Some? then [step.paper.value] else []) + ItemsPapers(feed, items[1..], netloc, parseRfc)
  {
  }

  /** One feed: nothing if its request failed, otherwise its first `maxItems` items' papers. */
  function FeedPapers(f: Feed, maxItems: int, netloc: string -> Option<string>, parseRfc: string -> Option<DateTime>): seq<Paper> {
    match f.response
    case FeedFailed => []
    case FeedDocument(items) => ItemsPapers(f.url, PyPrefix(items, maxItems), netloc, parseRfc)
  }

  /** The whole crawl: the feeds' papers, concatenated in feed order. */
  function FeedsPapers(feeds: seq<Feed>, maxItems: int, netloc: string -> Option<string>, parseRfc: string -> Option<DateTime>): seq<Paper>
    decreases |feeds|
  {
    if |feeds| == 0 then [] else FeedPapers(feeds[0], maxItems, netloc, parseRfc) + FeedsPapers(feeds[1..], maxItems, netloc, parseRfc)
  }

  /**
    The body of the per-feed try block of `fetch_latest`: the first `maxItems`
    items in document order, appending each item's paper, until an item
    raises; what was appended before that stays.
   */
  method ReadFeedItems(feed: string, allItems: seq<Item>, maxItems: int,
                       netloc: string -> Option<string>, parseRfc: string -> Option<DateTime>)
    returns (papers: seq<Paper>)
    ensures papers == ItemsPapers(feed, PyPrefix(allItems, maxItems), netloc, parseRfc)
  {
    var items := PyPrefix(allItems, maxItems);
    papers := [];
    var i := 0;
    var aborted := false;
    while i < |items| && !aborted
      invariant 0 <= i <= |items|
      invariant aborted ==> papers == ItemsPapers(feed, items, netloc, parseRfc)
      invariant !aborted ==> papers + ItemsPapers(feed, items[i..], netloc, parseRfc) == ItemsPapers(feed, items, netloc, parseRfc)
      decreases |items| - i, if aborted then 0 else 1
    {
      assert items[i..][1..] == items[i + 1..];
      var step := StepItem(feed, items[i], netloc, parseRfc);
      ItemsPapersUnfold(feed, items[i..], netloc, parseRfc);
      if step.Abort? {
        aborted := true;
      } else {
        ghost var rest := ItemsPapers(feed, items[i + 1..], netloc, parseRfc);
        if step.paper.Some? {
          assert (papers + [step.paper.value]) + rest == papers + ([step.paper.value] + rest);
          papers := papers + [step.paper.value];
        } else {
          assert [] + rest == rest;
        }
        i := i + 1;
      }
    }
    assert !aborted ==> items[i..] == [];
  }

  lemma FeedsPapersStep(feeds: seq<Feed>, f: nat, maxItems: int,
                        netloc: string -> Option<string>, parseRfc: string -> Option<DateTime>)
    requires f < |feeds|
    ensures FeedsPapers(feeds[f..], maxItems, netloc, parseRfc)
         == FeedPapers(feeds[f], maxItems, netloc, parseRfc) + FeedsPapers(feeds[f + 1..], maxItems, netloc, parseRfc)
  {
    assert feeds[f..][1..] == feeds[f + 1..];
  }

  /**
    `fetch_latest`: every feed in turn, each inside its own try block, so a
    failed request or a failing item ends only that feed, keeping what it had
    already appended, and the crawl goes on with the next feed.
   */
  method FetchLatest(feeds: seq<Feed>, maxItems: int, netloc: string -> Option<string>, parseRfc: string -> Option<DateTime>)
    returns (allPapers: seq<Paper>)
    ensures allPapers == FeedsPapers(feeds, maxItems, netloc, parseRfc)
  {
    ghost var total := FeedsPapers(feeds, maxItems, netloc, parseRfc);
    allPapers := [];
    var f := 0;
    while f < |feeds|
      invariant 0 <= f <= |feeds|
      invariant allPapers + FeedsPapers(feeds[f..], maxItems, netloc, parseRfc) == total
    {
      FeedsPapersStep(feeds, f, maxItems, netloc, parseRfc);
      var fromFeed := ReadFeed(feeds[f], maxItems, netloc, parseRfc);
      AppendShift(allPapers, fromFeed, FeedsPapers(feeds[f + 1..], maxItems, netloc, parseRfc), total);
      allPapers := allPapers + fromFeed;
      f := f + 1;
    }
    assert feeds[f..] == [];
  }

  /** One iteration of the feed loop: nothing from a failed request, otherwise the feed's items. */
  method ReadFeed(feed: Feed, maxItems: int, netloc: string -> Option<string>, parseRfc: string -> Option<DateTime>)
    returns (fromFeed: seq<Paper>)
    ensures fromFeed == FeedPapers(feed, maxItems, netloc, parseRfc)
  {
    fromFeed := [];
    if feed.response.FeedDocument? {
      fromFeed := ReadFeedItems(feed.url, feed.response.items, maxItems, netloc, parseRfc);
    }
  }

  lemma AppendShift(acc: seq<Paper>, x: seq<Paper>, later: seq<Paper>, total: seq<Paper>)
    requires acc + (x + later) == total
    ensures (acc + x) + later == total
  {
  }

  /** Feeds are independent: the crawl of two lists of feeds is the crawl of the first, then of the second. */
  lemma {:induction false} FeedsPapersAppend(a: seq<Feed>, b: seq<Feed>, maxItems: int,
                                             netloc: string -> Option<string>, parseRfc: string -> Option<DateTime>)
    ensures FeedsPapers(a + b, maxItems, netloc, parseRfc)
         == FeedsPapers(a, maxItems, netloc, parseRfc) + FeedsPapers(b, maxItems, netloc, parseRfc)
    decreases |a|
  {
    if |a| > 0 {
      assert (a + b)[1..] == a[1..] + b;
      FeedsPapersAppend(a[1..], b, maxItems, netloc, parseRfc);
    } else {
      assert a + b == b;
    }
  }

  /** A feed whose request fails contributes nothing, and the feeds around it are crawled as if it were absent. */
  lemma FailedFeedIsolated(a: seq<Feed>, url: string, b: seq<Feed>, maxItems: int,
                           netloc: string -> Option<string>, parseRfc: string -> Option<DateTime>)
    ensures FeedsPapers(a + [Feed(url, FeedFailed)] + b, maxItems, netloc, parseRfc)
         == FeedsPapers(a, maxItems, netloc, parseRfc) + FeedsPapers(b, maxItems, netloc, parseRfc)
  {
    var failed := [Feed(url, FeedFailed)];
    assert failed[1..] == [];
    assert FeedsPapers(failed, maxItems, netloc, parseRfc) == [];
    FeedsPapersAppend(a + failed, b, maxItems, netloc, parseRfc);
    FeedsPapersAppend(a, failed, maxItems, netloc, parseRfc);
    assert FeedsPapers(a + failed, maxItems, netloc, parseRfc) == FeedsPapers(a, maxItems, netloc, parseRfc);
  }

  /** An item that raises drops itself and every later item of its feed, and keeps the papers of the items before it. */
  lemma {:induction false} AbortKeepsEarlier(feed: string, items: seq<Item>, k: nat,
                                             netloc: string -> Option<string>, parseRfc: string -> Option<DateTime>)
    requires k < |items|
    requires StepItem(feed, items[k], netloc, parseRfc).Abort?
    ensures ItemsPapers(feed, items, netloc, parseRfc) == ItemsPapers(feed, items[..k], netloc, parseRfc)
    decreases k
  {
    if k > 0 {
      assert items[1..][..k - 1] == items[..k][1..];
      assert items[1..][k - 1] == items[k];
      AbortKeepsEarlier(feed, items[1..], k - 1, netloc, parseRfc);
    }
  }

  /** An item with a non-empty title and link, whose link `urlparse` reads, puts its paper in front of the later items' papers. */
  lemma ItemEmitted(feed: string, it: Item, rest: seq<Item>,
                    netloc: string -> Option<string>, parseRfc: string -> Option<DateTime>)
    requires Truthy(it.title) && Truthy(it.link) && netloc(it.link.value).Some?
    ensures ItemsPapers(feed, [it] + rest, netloc, parseRfc)
         == [Paper(it.title.value, it.link.value, FetchDetail(it.link, it.detail).1, "nature-portfolio",
                   PubDate(it.pubDate, parseRfc), None, FetchDetail(it.link, it.detail).0,
                   netloc(it.link.value), Some(FeedExtras(feed)))]
            + ItemsPapers(feed, rest, netloc, parseRfc)
  {
  }

  /** An item missing its title or its link yields nothing, and the loop goes on with the next item. */
  lemma ItemSkipped(feed: string, it: Item, rest: seq<Item>,
                    netloc: string -> Option<string>, parseRfc: string -> Option<DateTime>)
    requires !(Truthy(it.title) && Truthy(it.link))
    requires Truthy(it.link) ==> netloc(it.link.value).Some?
    ensures ItemsPapers(feed, [it] + rest, netloc, parseRfc) == ItemsPapers(feed, rest, netloc, parseRfc)
  {
  }

  /** An item ends its feed exactly when it has a non-empty link that `urlparse` refuses. */
  lemma ItemAbortsIff(feed: string, it: Item, netloc: string -> Option<string>, parseRfc: string -> Option<DateTime>)
    ensures StepItem(feed, it, netloc, parseRfc).Abort? <==> Truthy(it.link) && netloc(it.link.value).None?
  {
  }

  /** Whether no item of the run makes `urlparse` raise. */
  predicate NoItemRaises(items: seq<Item>, netloc: string -> Option<string>) {
    forall i :: 0 <= i < |items| && Truthy(items[i].link) ==> netloc(items[i].link.value).Some?
  }

  /** The number of items with both a non-empty title and a non-empty link. */
  function CountComplete(items: seq<Item>): nat
    decreases |items|
  {
    if |items| == 0 then 0
    else (if Truthy(items[0].title) && Truthy(items[0].link) then 1 else 0) + CountComplete(items[1..])
  }

  /** When no item raises, the feed yields exactly one paper per item with a title and a link. */
  lemma {:induction false} ItemsPapersCount(feed: string, items: seq<Item>,
                                            netloc: string -> Option<string>, parseRfc: string -> Option<DateTime>)
    requires NoItemRaises(items, netloc)
    ensures |ItemsPapers(feed, items, netloc, parseRfc)| == CountComplete(items)
    decreases |items|
  {
    if |items| > 0 {
      assert Truthy(items[0].link) ==> netloc(items[0].link.value).Some?;
      assert NoItemRaises(items[1..], netloc) by {
        forall i | 0 <= i < |items[1..]| && Truthy(items[1..][i].link)
          ensures netloc(items[1..][i].link.value).Some?
        {
          assert items[1..][i] == items[i + 1];
        }
      }
      ItemsPapersCount(feed, items[1..], netloc, parseRfc);
    }
  }

  lemma {:induction false} ItemsPapersBound(feed: string, items: seq<Item>,
                                            netloc: string -> Option<string>, parseRfc: string -> Option<DateTime>)
    ensures |ItemsPapers(feed, items, netloc, parseRfc)| <= |items|
    decreases |items|
  {
    if |items| > 0 {
      ItemsPapersBound(feed, items[1..], netloc, parseRfc);
    }
  }

  lemma MulStep(n: int, m: int)
    requires n > 0
    ensures n * m == m + (n - 1) * m
  {
  }

  /** At most `maxItems` items are read per feed, so at most `|feeds| * maxItems` papers come back. */
  lemma {:induction false} FeedsPapersBound(feeds: seq<Feed>, maxItems: int,
                                            netloc: string -> Option<string>, parseRfc: string -> Option<DateTime>)
    requires maxItems >= 0
    ensures |FeedsPapers(feeds, maxItems, netloc, parseRfc)| <= |feeds| * maxItems
    decreases |feeds|
  {
    if |feeds| > 0 {
      var head := FeedPapers(feeds[0], maxItems, netloc, parseRfc);
      var tail := FeedsPapers(feeds[1..], maxItems, netloc, parseRfc);
      FeedsPapersBound(feeds[1..], maxItems, netloc, parseRfc);
      if feeds[0].response.FeedDocument? {
        ItemsPapersBound(feeds[0].url, PyPrefix(feeds[0].response.items, maxItems), netloc, parseRfc);
      }
      assert |head| <= maxItems;
      assert FeedsPapers(feeds, maxItems, netloc, parseRfc) == head + tail;
      MulStep(|feeds|, maxItems);
    }
  }

  /** The shape of one item's paper, and the feed it names in its extras. */
  predicate WellFormedFrom(p: Paper, feed: string, netloc: string -> Option<string>) {
    && |p.title| > 0 && |p.url| > 0
    && p.source == "nature-portfolio"
    && p.authors.None?
    && p.journal.Some? && netloc(p.url) == p.journal
    && p.extras == Some(FeedExtras(feed))
  }

  lemma {:induction false} ItemsPapersShape(feed: string, items: seq<Item>,
                                            netloc: string -> Option<string>, parseRfc: string -> Option<DateTime>)
    ensures forall p :: p in ItemsPapers(feed, items, netloc, parseRfc) ==> WellFormedFrom(p, feed, netloc)
    decreases |items|
  {
    if |items| > 0 {
      ItemsPapersShape(feed, items[1..], netloc, parseRfc);
    }
  }

  /**
    Every paper has a non-empty title and url, the source "nature-portfolio",
    no authors, the netloc of its url as journal, and `{"feed": f}` as extras
    for the configured feed `f` it came from.
   */
  lemma {:induction false} FeedsPapersShape(feeds: seq<Feed>, maxItems: int,
                                            netloc: string -> Option<string>, parseRfc: string -> Option<DateTime>)
    ensures forall p :: p in FeedsPapers(feeds, maxItems, netloc, parseRfc) ==>
      exists k :: 0 <= k < |feeds| && WellFormedFrom(p, feeds[k].url, netloc)
    decreases |feeds|
  {
    if |feeds| > 0 {
      FeedsPapersShape(feeds[1..], maxItems, netloc, parseRfc);
      if feeds[0].response.FeedDocument? {
        ItemsPapersShape(feeds[0].url, PyPrefix(feeds[0].response.items, maxItems), netloc, parseRfc);
      }
      var head := FeedPapers(feeds[0], maxItems, netloc, parseRfc);
      var tail := FeedsPapers(feeds[1..], maxItems, netloc, parseRfc);
      assert FeedsPapers(feeds, maxItems, netloc, parseRfc) == head + tail;
      forall p | p in FeedsPapers(feeds, maxItems, netloc, parseRfc)
        ensures exists k :: 0 <= k < |feeds| && WellFormedFrom(p, feeds[k].url, netloc)
      {
        if p in head {
          assert WellFormedFrom(p, feeds[0].url, netloc);
        } else {
          assert p in tail;
          var k :| 0 <= k < |feeds[1..]| && WellFormedFrom(p, feeds[1..][k].url, netloc);
          assert feeds[1..][k] == feeds[k + 1];
        }
      }
    }
  }
}
