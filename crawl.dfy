/**
 * `split_url` and `crawl_url`: the list of result-page links of a search,
 * and the product links gathered from all of them.
 */
module Crawl {
  import opened Strings
  import opened Dom
  import opened Scraper
  import opened Pages
  import opened Product
  import opened Retry

  // ---------------------------------------------------------------------------
  // split_url
  // ---------------------------------------------------------------------------

  /** `split_url` asks `num_of_pages` with its default of 13 attempts. */
  const PageAttempts: int := 13

  /**
   * `split_url`: the page count from `num_of_pages` (whose exception
   * escapes), then one more request for the search page, which is not
   * retried, and finally the planned page links built from its "next page"
   * link.
   */
  function SplitRun(amazon: Amazon, pagesFetch: nat -> Fetch, linkFetch: Fetch): Run<seq<string>>
  {
    var pages := PagesRun(pagesFetch, PageAttempts);
    match pages.outcome
    case Raised(e) => Run(Raised(e), pages.trace)
    case Returned(total) =>
      var trace := pages.trace + [Request];
      match linkFetch
      case Reset => Run(Raised(ConnectionReset), trace)
      case Failed => Run(Raised(TransportError), trace)
      case Fetched(page) => Run(Returned(PlannedUrls(amazon.baseUrl, NextLink(amazon, page), total)), trace)
  }

  /**
   * What `split_url` returns: the search URL first, then for each further
   * page k + 1 a link in which every `page=<digits>` reads `page={k+1}` and
   * every `sr_pg_<digits>` reads `sr_pg_{k}`; one link per counted page,
   * and at least one.
   */
  lemma SplitRunLinks(amazon: Amazon, pagesFetch: nat -> Fetch, linkFetch: Fetch)
    requires SplitRun(amazon, pagesFetch, linkFetch).outcome.Returned?
    ensures var urls := SplitRun(amazon, pagesFetch, linkFetch).outcome.value;
      var total := PagesRun(pagesFetch, PageAttempts).outcome.value;
      && PagesRun(pagesFetch, PageAttempts).outcome.Returned? && linkFetch.Fetched?
      && |urls| == (if total < 1 then 1 else total)
      && urls[0] == amazon.baseUrl
      && forall k :: 1 <= k < |urls| ==>
           Numbered(urls[k], PageKey, Decimal(k + 1)) && Numbered(urls[k], TrackKey, Decimal(k))
  {
    var urls := SplitRun(amazon, pagesFetch, linkFetch).outcome.value;
    forall k | 1 <= k < |urls|
      ensures Numbered(urls[k], PageKey, Decimal(k + 1)) && Numbered(urls[k], TrackKey, Decimal(k))
    {
      PageUrlNumbers(NextLink(amazon, linkFetch.page), k);
    }
  }

  /** `split_url`, with its `for num in range(1, total_pages)` loop, proved to do what `SplitRun` describes. */
  method SplitUrl(amazon: Amazon, pagesFetch: nat -> Fetch, linkFetch: Fetch) returns (r: Outcome<seq<string>>, trace: seq<Step>)
    ensures Run(r, trace) == SplitRun(amazon, pagesFetch, linkFetch)
  {
    var urls := [amazon.baseUrl];
    var total;
    total, trace := NumOfPages(pagesFetch, PageAttempts);
    if total.Raised? {
      r := Raised(total.error);
      return;
    }
    trace := trace + [Request];
    if linkFetch.Reset? {
      r := Raised(ConnectionReset);
      return;
    }
    if linkFetch.Failed? {
      r := Raised(TransportError);
      return;
    }
    var next := NextLink(amazon, linkFetch.page);
    var last := if total.value < 1 then 1 else total.value;
    for num := 1 to last
      invariant urls == PlannedUrls(amazon.baseUrl, next, num)
    {
      PlannedUrlsGrow(amazon.baseUrl, next, num);
      urls := urls + [PageUrl(next, num)];
    }
    r := Returned(urls);
  }

  // ---------------------------------------------------------------------------
  // asyncio.gather and flat
  // ---------------------------------------------------------------------------

  /**
   * `asyncio.gather` over finished tasks: all their values in task order,
   * or the exception of the first task, in task order, that raised.
   */
  function Gather<T>(outs: seq<Outcome<T>>): (r: Outcome<seq<T>>)
    ensures r.Returned? <==> forall i :: 0 <= i < |outs| ==> outs[i].Returned?
    ensures r.Returned? ==> |r.value| == |outs| && forall i :: 0 <= i < |outs| ==> r.value[i] == outs[i].value
    ensures r.Raised? ==>
      exists k :: 0 <= k < |outs| && outs[k] == Raised(r.error) && forall i :: 0 <= i < k ==> outs[i].Returned?
  {
    if outs == [] then Returned([])
    else match outs[0]
      case Raised(e) => Raised(e)
      case Returned(v) =>
        var rest := Gather(outs[1..]);
        assert forall i :: 1 <= i < |outs| ==> outs[i] == outs[1..][i - 1];
        match rest
        case Raised(e) =>
          var k :| 0 <= k < |outs[1..]| && outs[1..][k] == Raised(e) && forall i :: 0 <= i < k ==> outs[1..][i].Returned?;
          assert outs[k + 1] == Raised(e);
          Raised(e)
        case Returned(vs) => Returned([v] + vs)
  }

  /** `flat`: the concatenation of the lists, in order. */
  function Flatten<T>(xss: seq<seq<T>>): seq<T>
  {
    if xss == [] then [] else xss[0] + Flatten(xss[1..])
  }

  /** Flattening distributes over concatenation: the links of earlier pages come first. */
  lemma {:induction false} FlattenAppend<T>(a: seq<seq<T>>, b: seq<seq<T>>)
    ensures Flatten(a + b) == Flatten(a) + Flatten(b)
  {
    if a == [] {
      assert a + b == b;
    } else {
      assert (a + b)[1..] == a[1..] + b;
      FlattenAppend(a[1..], b);
    }
  }

  /** An element is in the flattened list exactly when it is in one of the lists. */
  lemma {:induction false} FlattenContains<T>(xss: seq<seq<T>>, x: T)
    ensures x in Flatten(xss) <==> exists i :: 0 <= i < |xss| && x in xss[i]
  {
    if xss != [] {
      FlattenContains(xss[1..], x);
      if x in Flatten(xss[1..]) {
        var i :| 0 <= i < |xss[1..]| && x in xss[1..][i];
        assert x in xss[i + 1];
      }
      if exists i :: 0 <= i < |xss| && x in xss[i] {
        var i :| 0 <= i < |xss| && x in xss[i];
        if i > 0 {
          assert x in xss[1..][i - 1];
        }
      }
    }
  }

  // ---------------------------------------------------------------------------
  // crawl_url
  // ---------------------------------------------------------------------------

  /** `crawl_url` calls `product_urls` with its default `max_retries`. */
  const LinkRetries: int := 13

  /** The outcome of `product_urls` on each of the page links, the i-th answered by `linksFetch(i)`. */
  function PageOutcomes(amazon: Amazon, count: nat, linksFetch: nat -> nat -> Fetch): (r: seq<Outcome<seq<string>>>)
    ensures |r| == count
    ensures forall i :: 0 <= i < count ==> r[i] == LinksRun(amazon, linksFetch(i), LinkRetries).outcome
  {
    seq(count, i requires 0 <= i < count => LinksRun(amazon, linksFetch(i), LinkRetries).outcome)
  }

  /** One more page link adds the outcome of `product_urls` on it at the end. */
  lemma PageOutcomesGrow(amazon: Amazon, count: nat, linksFetch: nat -> nat -> Fetch)
    ensures PageOutcomes(amazon, count + 1, linksFetch)
      == PageOutcomes(amazon, count, linksFetch) + [LinksRun(amazon, linksFetch(count), LinkRetries).outcome]
  {
    var longer := PageOutcomes(amazon, count + 1, linksFetch);
    var shorter := PageOutcomes(amazon, count, linksFetch);
    var last := LinksRun(amazon, linksFetch(count), LinkRetries).outcome;
    SnocOfPointwise(longer, shorter, last);
  }

  /** A sequence that agrees with `shorter` and then holds `last` is `shorter + [last]`. */
  lemma SnocOfPointwise<T>(longer: seq<T>, shorter: seq<T>, last: T)
    requires |longer| == |shorter| + 1 && longer[|shorter|] == last
    requires forall i :: 0 <= i < |shorter| ==> longer[i] == shorter[i]
    ensures longer == shorter + [last]
  {
    assert longer[..|shorter|] == shorter;
  }

  /**
   * `crawl_url`: the page links from `split_url`, then `product_urls` on
   * each of them, gathered and flattened into one list of product links.
   */
  function CrawlRun(amazon: Amazon, pagesFetch: nat -> Fetch, linkFetch: Fetch, linksFetch: nat -> nat -> Fetch): Outcome<seq<string>>
  {
    match SplitRun(amazon, pagesFetch, linkFetch).outcome
    case Raised(e) => Raised(e)
    case Returned(urls) =>
      match Gather(PageOutcomes(amazon, |urls|, linksFetch))
      case Raised(e) => Raised(e)
      case Returned(lists) => Returned(Flatten(lists))
  }

  /** The links `product_urls` returns all lie on the scraper's own site. */
  lemma LinksRunOnSite(amazon: Amazon, fetch: nat -> Fetch, maxRetries: int)
    requires LinksRun(amazon, fetch, maxRetries).outcome.Returned?
    ensures forall x :: x in LinksRun(amazon, fetch, maxRetries).outcome.value ==> OnSite(amazon, x)
  {
    var s := FirstSettled(amazon, fetch, 0);
    var page := fetch(s).page;
    var cards := Select(page, "main_content");
    forall x | x in LinksRun(amazon, fetch, maxRetries).outcome.value
      ensures OnSite(amazon, x)
    {
      var i :| 0 <= i < |CardLinks(amazon, page).value| && CardLinks(amazon, page).value[i] == x;
      assert x == SitePrefix(amazon) + Show(Get(Select(cards[i], "hyperlink")[0], "href"));
    }
  }

  /** `x` starts with the site root "https://www.amazon.<domain>". */
  predicate OnSite(amazon: Amazon, x: string)
  {
    |SitePrefix(amazon)| <= |x| && x[..|SitePrefix(amazon)|] == SitePrefix(amazon)
  }

  /**
   * `crawl_url` succeeds exactly when `split_url` does and `product_urls`
   * returns for every page; then every product link it returns lies on the
   * scraper's own site and comes from one of the pages.
   */
  lemma CrawlRunLinks(amazon: Amazon, pagesFetch: nat -> Fetch, linkFetch: Fetch, linksFetch: nat -> nat -> Fetch)
    ensures var r := CrawlRun(amazon, pagesFetch, linkFetch, linksFetch);
      var split := SplitRun(amazon, pagesFetch, linkFetch).outcome;
      r.Returned? <==> (split.Returned? &&
        forall i :: 0 <= i < |split.value| ==> LinksRun(amazon, linksFetch(i), LinkRetries).outcome.Returned?)
    ensures var r := CrawlRun(amazon, pagesFetch, linkFetch, linksFetch);
      r.Returned? ==> forall x :: x in r.value ==> OnSite(amazon, x)
  {
    var r := CrawlRun(amazon, pagesFetch, linkFetch, linksFetch);
    var split := SplitRun(amazon, pagesFetch, linkFetch).outcome;
    if split.Returned? {
      var outs := PageOutcomes(amazon, |split.value|, linksFetch);
      var g := Gather(outs);
      if g.Returned? {
        forall x | x in r.value
          ensures OnSite(amazon, x)
        {
          FlattenContains(g.value, x);
          var i :| 0 <= i < |g.value| && x in g.value[i];
          LinksRunOnSite(amazon, linksFetch(i), LinkRetries);
        }
      }
    }
  }

  /**
   * `crawl_url`, proved to do what `CrawlRun` describes. The tasks of
   * `asyncio.gather` run here one after the other, in list order.
   */
  method CrawlUrl(amazon: Amazon, pagesFetch: nat -> Fetch, linkFetch: Fetch, linksFetch: nat -> nat -> Fetch)
    returns (r: Outcome<seq<string>>)
    ensures r == CrawlRun(amazon, pagesFetch, linkFetch, linksFetch)
  {
    var pageLists, _ := SplitUrl(amazon, pagesFetch, linkFetch);
    if pageLists.Raised? {
      r := Raised(pageLists.error);
      return;
    }
    var urls := pageLists.value;
    var outs: seq<Outcome<seq<string>>> := [];
    for i := 0 to |urls|
      invariant outs == PageOutcomes(amazon, i, linksFetch)
    {
      var links, _ := ProductUrls(amazon, linksFetch(i), LinkRetries);
      PageOutcomesGrow(amazon, i, linksFetch);
      outs := outs + [links];
    }
    assert SplitRun(amazon, pagesFetch, linkFetch).outcome == Returned(urls);
    var results := Gather(outs);
    if results.Raised? {
      r := Raised(results.error);
      return;
    }
    r := Returned(Flatten(results.value));
  }
}
