/**
 * The three retry loops of the scraper: `num_of_pages`, `product_urls` and
 * `scrape_product_info`. Each request is answered by a fetch oracle indexed
 * by attempt number; the requests and the `asyncio.sleep` calls are recorded
 * in a trace. Each loop is a method proved equal to a specification that
 * says which attempt ends the loop, what it returns or raises, and which
 * requests and sleeps happen on the way.
 */
module Retry {
  import opened Scraper
  import opened Pages
  import opened Product

  /** What a retry loop does that is observable: request a page, or sleep. */
  datatype Step = Request | Sleep(seconds: nat)

  /** The result of running a loop: how the call ended, and what it did on the way. */
  datatype Run<+T> = Run(outcome: Outcome<T>, trace: seq<Step>)

  /** The handler's delay after a failed attempt: 5 seconds after a reset, 4 after anything else. */
  function Backoff(f: Fetch): nat
  {
    if f.Reset? then 5 else 4
  }

  /** The handler sleeps only when another attempt follows (`retry < max_retries - 1`). */
  function PauseAfter(retry: int, maxRetries: int, seconds: nat): seq<Step>
  {
    if retry < maxRetries - 1 then [Sleep(seconds)] else []
  }

  /** The number of requests a trace makes. */
  function Requests(trace: seq<Step>): nat
  {
    if trace == [] then 0 else (if trace[0].Request? then 1 else 0) + Requests(trace[1..])
  }

  /** The seconds a trace spends asleep. */
  function Slept(trace: seq<Step>): nat
  {
    if trace == [] then 0 else (if trace[0].Sleep? then trace[0].seconds else 0) + Slept(trace[1..])
  }

  lemma {:induction false} TraceAppend(a: seq<Step>, b: seq<Step>)
    ensures Requests(a + b) == Requests(a) + Requests(b)
    ensures Slept(a + b) == Slept(a) + Slept(b)
  {
    if a == [] {
      assert a + b == b;
    } else {
      assert (a + b)[1..] == a[1..] + b;
      TraceAppend(a[1..], b);
    }
  }

  lemma PauseCounts(retry: int, maxRetries: int, seconds: nat)
    ensures Requests(PauseAfter(retry, maxRetries, seconds)) == 0
    ensures Slept(PauseAfter(retry, maxRetries, seconds)) == (if retry < maxRetries - 1 then seconds else 0)
  {
    var p := PauseAfter(retry, maxRetries, seconds);
    if p != [] {
      assert p[1..] == [];
    }
  }

  // ---------------------------------------------------------------------------
  // num_of_pages
  // ---------------------------------------------------------------------------

  /** The first attempt below `maxRetries`, at or after `from`, whose fetch brings a page; `maxRetries` when none does. */
  function FirstFetched(fetch: nat -> Fetch, from: nat, maxRetries: int): (s: int)
    ensures s == maxRetries || (from <= s < maxRetries && fetch(s).Fetched?)
    ensures from <= maxRetries ==> from <= s
    ensures forall i :: from <= i < s && i < maxRetries ==> !fetch(i).Fetched?
    decreases maxRetries - from
  {
    if from >= maxRetries then maxRetries
    else if fetch(from).Fetched? then from
    else FirstFetched(fetch, from + 1, maxRetries)
  }

  /** When the attempts before `from` all failed, the first page is found from `from` on. */
  lemma {:induction false} FirstFetchedSkips(fetch: nat -> Fetch, from: nat, maxRetries: int)
    requires from < maxRetries && !fetch(from).Fetched?
    ensures FirstFetched(fetch, from, maxRetries) == FirstFetched(fetch, from + 1, maxRetries)
  {
  }

  /**
   * The trace of the first `n` attempts of `num_of_pages` when they all
   * fail: each one requests the page and, unless it is the last allowed
   * attempt, sleeps 5 seconds after a reset and 4 after another failure.
   */
  function FailedPageAttempts(fetch: nat -> Fetch, n: int, maxRetries: int): seq<Step>
    decreases n
  {
    if n <= 0 then []
    else FailedPageAttempts(fetch, n - 1, maxRetries) + [Request] + PauseAfter(n - 1, maxRetries, Backoff(fetch(n - 1)))
  }

  /** The delays `num_of_pages` sleeps after the failed attempts `0 .. n - 1`. */
  function BackoffTotal(fetch: nat -> Fetch, n: int): nat
    decreases n
  {
    if n <= 0 then 0 else BackoffTotal(fetch, n - 1) + Backoff(fetch(n - 1))
  }

  /**
   * `num_of_pages`: the first attempt that fetches a page returns its page
   * count; when none of the `max_retries` attempts does, the
   * exhausted-retries exception is raised after all of them.
   */
  function PagesRun(fetch: nat -> Fetch, maxRetries: int): Run<int>
  {
    var s := FirstFetched(fetch, 0, maxRetries);
    if s < maxRetries then Run(Returned(PageCount(fetch(s).page)), FailedPageAttempts(fetch, s, maxRetries) + [Request])
    else Run(Raised(RetriesExhausted(ExhaustedMessage(maxRetries))), FailedPageAttempts(fetch, maxRetries, maxRetries))
  }

  /** Failed attempts of `num_of_pages`: one request each, and their delays except after the last allowed one. */
  lemma {:induction false} FailedPageAttemptsCounts(fetch: nat -> Fetch, n: nat, maxRetries: int)
    requires n <= maxRetries
    ensures Requests(FailedPageAttempts(fetch, n, maxRetries)) == n
    ensures Slept(FailedPageAttempts(fetch, n, maxRetries)) == BackoffTotal(fetch, if n < maxRetries then n else n - 1)
    ensures n == maxRetries && n > 0 ==> FailedPageAttempts(fetch, n, maxRetries)[|FailedPageAttempts(fetch, n, maxRetries)| - 1] == Request
  {
    if n > 0 {
      var before := FailedPageAttempts(fetch, n - 1, maxRetries);
      var pause := PauseAfter(n - 1, maxRetries, Backoff(fetch(n - 1)));
      FailedPageAttemptsCounts(fetch, n - 1, maxRetries);
      TraceAppend(before, [Request]);
      TraceAppend(before + [Request], pause);
      PauseCounts(n - 1, maxRetries, Backoff(fetch(n - 1)));
      assert Requests([Request]) == 1 && Slept([Request]) == 0;
      if n == maxRetries {
        assert pause == [];
        assert before + [Request] + pause == before + [Request];
      }
    }
  }

  /**
   * `num_of_pages` in closed form: it requests once per attempt up to and
   * including the first that fetches a page (all `max_retries` when none
   * does); it sleeps 5 seconds after every reset and 4 after every other
   * failure, but never after the last attempt it makes; and its last step
   * is always a request.
   */
  lemma PagesRunShape(fetch: nat -> Fetch, maxRetries: int)
    ensures var r := PagesRun(fetch, maxRetries);
      var s := FirstFetched(fetch, 0, maxRetries);
      && Requests(r.trace) == (if s < maxRetries then s + 1 else if maxRetries < 0 then 0 else maxRetries)
      && Slept(r.trace) == BackoffTotal(fetch, if s < maxRetries then s else maxRetries - 1)
      && (r.trace != [] ==> r.trace[|r.trace| - 1] == Request)
  {
    var s := FirstFetched(fetch, 0, maxRetries);
    if s < maxRetries {
      FailedPageAttemptsCounts(fetch, s, maxRetries);
      TraceAppend(FailedPageAttempts(fetch, s, maxRetries), [Request]);
      assert Requests([Request]) == 1 && Slept([Request]) == 0;
    } else if maxRetries > 0 {
      FailedPageAttemptsCounts(fetch, maxRetries, maxRetries);
    }
  }

  /** `num_of_pages`' result when some attempt fetches a page: the page count of the first such page. */
  lemma PagesRunOutcome(fetch: nat -> Fetch, maxRetries: int, k: nat)
    requires k < maxRetries && fetch(k).Fetched?
    requires forall i :: 0 <= i < k ==> !fetch(i).Fetched?
    ensures PagesRun(fetch, maxRetries).outcome == Returned(PageCount(fetch(k).page))
  {
    assert FirstFetched(fetch, 0, maxRetries) == k;
  }

  /**
   * `num_of_pages` raises exactly when none of its `max_retries` attempts
   * fetches a page, and what it raises is the exhausted-retries exception.
   */
  lemma PagesRunRaises(fetch: nat -> Fetch, maxRetries: int)
    ensures PagesRun(fetch, maxRetries).outcome.Raised? <==> forall i :: 0 <= i < maxRetries ==> !fetch(i).Fetched?
    ensures PagesRun(fetch, maxRetries).outcome.Raised? ==>
      PagesRun(fetch, maxRetries).outcome == Raised(RetriesExhausted(ExhaustedMessage(maxRetries)))
  {
    var s := FirstFetched(fetch, 0, maxRetries);
    if s < maxRetries {
      assert fetch(s).Fetched?;
    }
  }

  /** `num_of_pages`: the loop of `for retry in range(max_retries)`, proved to do what `PagesRun` describes. */
  method NumOfPages(fetch: nat -> Fetch, maxRetries: int) returns (r: Outcome<int>, trace: seq<Step>)
    ensures Run(r, trace) == PagesRun(fetch, maxRetries)
  {
    trace := [];
    var retry: nat := 0;
    while retry < maxRetries
      invariant retry == 0 || retry <= maxRetries
      invariant FirstFetched(fetch, 0, maxRetries) == FirstFetched(fetch, retry, maxRetries)
      invariant trace == FailedPageAttempts(fetch, retry, maxRetries)
      decreases maxRetries - retry
    {
      var f := fetch(retry);
      trace := trace + [Request];
      if f.Fetched? {
        r := Returned(PageCount(f.page));
        return;
      }
      if retry < maxRetries - 1 {
        var seconds := if f.Reset? then 5 else 4;
        trace := trace + [Sleep(seconds)];
      }
      FirstFetchedSkips(fetch, retry, maxRetries);
      retry := retry + 1;
    }
    r := Raised(RetriesExhausted(ExhaustedMessage(maxRetries)));
  }

  // ---------------------------------------------------------------------------
  // product_urls
  // ---------------------------------------------------------------------------

  /** `product_urls` always makes up to 13 attempts, whatever `max_retries` says. */
  const LinkAttempts: nat := 13

  /** An attempt of `product_urls` ends the loop: a reset, or a page whose cards all have links. */
  predicate LinksSettle(amazon: Amazon, f: Fetch)
  {
    f.Reset? || (f.Fetched? && CardLinks(amazon, f.page).Returned?)
  }

  /** The first attempt at or after `from` that ends `product_urls`, or 13 when none does. */
  function FirstSettled(amazon: Amazon, fetch: nat -> Fetch, from: nat): (s: nat)
    requires from <= LinkAttempts
    ensures from <= s <= LinkAttempts
    ensures s < LinkAttempts ==> LinksSettle(amazon, fetch(s))
    ensures forall i :: from <= i < s ==> !LinksSettle(amazon, fetch(i))
    decreases LinkAttempts - from
  {
    if from == LinkAttempts then LinkAttempts
    else if LinksSettle(amazon, fetch(from)) then from
    else FirstSettled(amazon, fetch, from + 1)
  }

  lemma {:induction false} FirstSettledSkips(amazon: Amazon, fetch: nat -> Fetch, from: nat)
    requires from < LinkAttempts && !LinksSettle(amazon, fetch(from))
    ensures FirstSettled(amazon, fetch, from) == FirstSettled(amazon, fetch, from + 1)
  {
  }

  /**
   * The trace of the first `n` attempts of `product_urls` when they all
   * fail: each one sleeps 5 seconds, requests the page, and sleeps 4 more
   * seconds when `retry < max_retries - 1`.
   */
  function FailedLinkAttempts(n: nat, maxRetries: int): seq<Step>
  {
    if n == 0 then []
    else FailedLinkAttempts(n - 1, maxRetries) + [Sleep(5), Request] + PauseAfter(n - 1, maxRetries, 4)
  }

  /** The number of attempts among the first `n` after which `product_urls` sleeps 4 seconds. */
  function Pauses(n: nat, maxRetries: int): nat
  {
    if n < maxRetries - 1 then n else if maxRetries < 1 then 0 else maxRetries - 1
  }

  /**
   * `product_urls`: the first attempt that settles decides the call. A reset
   * escapes as an UnboundLocalError, because the handler formats the
   * unbound `e`; a page whose cards all have links gives those links. When
   * all 13 attempts fail, the exhausted-retries exception, quoting
   * `max_retries`, is raised.
   */
  function LinksRun(amazon: Amazon, fetch: nat -> Fetch, maxRetries: int): Run<seq<string>>
  {
    var s := FirstSettled(amazon, fetch, 0);
    if s == LinkAttempts then Run(Raised(RetriesExhausted(ExhaustedMessage(maxRetries))), FailedLinkAttempts(LinkAttempts, maxRetries))
    else
      var trace := FailedLinkAttempts(s, maxRetries) + [Sleep(5), Request];
      if fetch(s).Reset? then Run(Raised(UnboundLocal("e")), trace)
      else Run(CardLinks(amazon, fetch(s).page), trace)
  }

  /** Failed attempts of `product_urls`: one request and a 5 second sleep each, and 4 more seconds below `max_retries - 1`. */
  lemma {:induction false} FailedLinkAttemptsCounts(n: nat, maxRetries: int)
    ensures Requests(FailedLinkAttempts(n, maxRetries)) == n
    ensures Slept(FailedLinkAttempts(n, maxRetries)) == 5 * n + 4 * Pauses(n, maxRetries)
  {
    var attempt := [Sleep(5), Request];
    assert Requests(attempt) == 1 && Slept(attempt) == 5 by {
      assert attempt[1..] == [Request];
    }
    if n > 0 {
      var before := FailedLinkAttempts(n - 1, maxRetries);
      FailedLinkAttemptsCounts(n - 1, maxRetries);
      TraceAppend(before, attempt);
      TraceAppend(before + attempt, PauseAfter(n - 1, maxRetries, 4));
      PauseCounts(n - 1, maxRetries, 4);
    }
  }

  /**
   * `product_urls` in closed form: a settled call made `s + 1` attempts, an
   * exhausted one all 13; every attempt made requests once and sleeps 5
   * seconds before, and each failed one below `max_retries - 1` sleeps 4
   * seconds after. A page whose cards all have links is never retried.
   */
  lemma LinksRunShape(amazon: Amazon, fetch: nat -> Fetch, maxRetries: int)
    ensures var r := LinksRun(amazon, fetch, maxRetries);
      var s := FirstSettled(amazon, fetch, 0);
      var made := if s < LinkAttempts then s + 1 else LinkAttempts;
      && Requests(r.trace) == made
      && Slept(r.trace) == 5 * made + 4 * Pauses(s, maxRetries)
      && (r.outcome.Raised? && r.outcome.error.RetriesExhausted? <==> s == LinkAttempts)
  {
    var s := FirstSettled(amazon, fetch, 0);
    FailedLinkAttemptsCounts(s, maxRetries);
    if s < LinkAttempts {
      var attempt := [Sleep(5), Request];
      assert Requests(attempt) == 1 && Slept(attempt) == 5 by {
        assert attempt[1..] == [Request];
      }
      TraceAppend(FailedLinkAttempts(s, maxRetries), attempt);
    }
  }

  /** When all 13 attempts fail, `product_urls` sleeps 65 seconds before them and 4 after each of the first `min(13, max_retries - 1)`. */
  lemma LinksExhausted(amazon: Amazon, fetch: nat -> Fetch, maxRetries: int)
    requires forall i :: 0 <= i < LinkAttempts ==> !LinksSettle(amazon, fetch(i))
    ensures var r := LinksRun(amazon, fetch, maxRetries);
      && r.outcome == Raised(RetriesExhausted(ExhaustedMessage(maxRetries)))
      && Requests(r.trace) == 13
      && Slept(r.trace) == 65 + 4 * (if maxRetries < 1 then 0 else if maxRetries > 13 then 13 else maxRetries - 1)
  {
    LinksRunShape(amazon, fetch, maxRetries);
    assert FirstSettled(amazon, fetch, 0) == LinkAttempts;
  }

  /** With `max_retries` above 13, an exhausted `product_urls` sleeps 4 seconds after its 13th attempt too, just before raising. */
  lemma LinksExhaustedEndsAsleep(amazon: Amazon, fetch: nat -> Fetch, maxRetries: int)
    requires forall i :: 0 <= i < LinkAttempts ==> !LinksSettle(amazon, fetch(i))
    requires maxRetries > LinkAttempts
    ensures var r := LinksRun(amazon, fetch, maxRetries);
      r.trace != [] && r.trace[|r.trace| - 1] == Sleep(4)
  {
    assert FirstSettled(amazon, fetch, 0) == LinkAttempts;
    var before := FailedLinkAttempts(LinkAttempts - 1, maxRetries) + [Sleep(5), Request];
    assert FailedLinkAttempts(LinkAttempts, maxRetries) == before + [Sleep(4)];
  }

  /** A reset on the first attempt of `product_urls` escapes at once, after one request and a 5 second sleep. */
  lemma LinksResetEscapes(amazon: Amazon, fetch: nat -> Fetch, maxRetries: int)
    requires fetch(0).Reset?
    ensures LinksRun(amazon, fetch, maxRetries) == Run(Raised(UnboundLocal("e")), [Sleep(5), Request])
  {
    assert FirstSettled(amazon, fetch, 0) == 0;
  }

  /** `product_urls`: the loop of `for retry in range(13)`, proved to do what `LinksRun` describes. */
  method ProductUrls(amazon: Amazon, fetch: nat -> Fetch, maxRetries: int) returns (r: Outcome<seq<string>>, trace: seq<Step>)
    ensures Run(r, trace) == LinksRun(amazon, fetch, maxRetries)
  {
    trace := [];
    for retry := 0 to LinkAttempts
      invariant FirstSettled(amazon, fetch, 0) == FirstSettled(amazon, fetch, retry)
      invariant trace == FailedLinkAttempts(retry, maxRetries)
    {
      trace := trace + [Sleep(5), Request];
      var f := fetch(retry);
      if f.Reset? {
        assert FirstSettled(amazon, fetch, retry) == retry;
        r := Raised(UnboundLocal("e"));
        return;
      }
      if f.Fetched? {
        var links := CardLinks(amazon, f.page);
        if links.Returned? {
          assert FirstSettled(amazon, fetch, retry) == retry;
          r := links;
          return;
        }
      }
      if retry < maxRetries - 1 {
        trace := trace + [Sleep(4)];
      }
      assert trace == FailedLinkAttempts(retry + 1, maxRetries);
      FirstSettledSkips(amazon, fetch, retry);
    }
    r := Raised(RetriesExhausted(ExhaustedMessage(maxRetries)));
  }

  // ---------------------------------------------------------------------------
  // scrape_product_info
  // ---------------------------------------------------------------------------

  /**
   * `scrape_product_info`: with no attempt allowed it raises the
   * exhausted-retries exception; otherwise its first attempt ends the call.
   * A page from which a record is extracted gives the one-record list; a
   * reset escapes as an UnboundLocalError; any other failure gives the
   * empty list, after a 4 second sleep when `max_retries` is above 1.
   */
  function ProductRun(amazon: Amazon, url: string, fetch: nat -> Fetch, maxRetries: int): Run<seq<ProductRecord>>
  {
    if maxRetries <= 0 then Run(Raised(RetriesExhausted(ExhaustedMessage(maxRetries))), [])
    else match fetch(0)
      case Reset => Run(Raised(UnboundLocal("e")), [Request])
      case Failed => Run(Returned([]), [Request] + PauseAfter(0, maxRetries, 4))
      case Fetched(page) =>
        match ExtractRecord(amazon, url, page)
        case Returned(record) => Run(Returned([record]), [Request])
        case Raised(_) => Run(Returned([]), [Request] + PauseAfter(0, maxRetries, 4))
  }

  /**
   * `scrape_product_info` never retries: it requests at most once, sleeps
   * at most 4 seconds, returns at most one record, and the record is there
   * exactly when the first fetch brought a page from which a record is
   * extracted.
   */
  lemma ProductRunOnce(amazon: Amazon, url: string, fetch: nat -> Fetch, maxRetries: int)
    ensures var r := ProductRun(amazon, url, fetch, maxRetries);
      && Requests(r.trace) == (if maxRetries <= 0 then 0 else 1)
      && Slept(r.trace) <= 4
      && (r.outcome.Returned? ==> |r.outcome.value| <= 1)
      && (r.outcome.Returned? && r.outcome.value != [] <==>
          maxRetries > 0 && fetch(0).Fetched? && ExtractRecord(amazon, url, fetch(0).page).Returned?)
  {
    if maxRetries > 0 {
      TraceAppend([Request], PauseAfter(0, maxRetries, 4));
      PauseCounts(0, maxRetries, 4);
      assert Requests([Request]) == 1 && Slept([Request]) == 0;
    }
  }

  /**
   * A failed first attempt of `scrape_product_info` with `max_retries`
   * above 1 ends the call with the empty list after a 4 second sleep that
   * no further attempt follows.
   */
  lemma ProductFailureSleeps(amazon: Amazon, url: string, fetch: nat -> Fetch, maxRetries: int)
    requires maxRetries > 1
    requires fetch(0).Failed? || (fetch(0).Fetched? && ExtractRecord(amazon, url, fetch(0).page).Raised?)
    ensures ProductRun(amazon, url, fetch, maxRetries) == Run(Returned([]), [Request, Sleep(4)])
  {
  }

  /**
   * `scrape_product_info`: the loop of `for retry in range(max_retries)`,
   * proved to do what `ProductRun` describes.
   */
  method ScrapeProductInfo(amazon: Amazon, url: string, fetch: nat -> Fetch, maxRetries: int)
    returns (r: Outcome<seq<ProductRecord>>, trace: seq<Step>)
    ensures Run(r, trace) == ProductRun(amazon, url, fetch, maxRetries)
  {
    var records: seq<ProductRecord> := [];
    trace := [];
    var attempts: nat := if maxRetries < 0 then 0 else maxRetries;
    for retry := 0 to attempts
      invariant retry == 0 && trace == [] && records == []
    {
      var f := fetch(retry);
      trace := trace + [Request];
      if f.Reset? {
        r := Raised(UnboundLocal("e"));
        return;
      }
      if f.Fetched? {
        var extracted := ExtractRecord(amazon, url, f.page);
        if extracted.Returned? {
          records := records + [extracted.value];
          assert records == [extracted.value] && trace == [Request];
          assert ProductRun(amazon, url, fetch, maxRetries) == Run(Returned([extracted.value]), [Request]);
          r := Returned(records);
          return;
        }
      }
      if retry < maxRetries - 1 {
        trace := trace + [Sleep(4)];
      }
      assert trace == [Request] + PauseAfter(0, maxRetries, 4);
      assert f == fetch(0) && (f.Failed? || ExtractRecord(amazon, url, f.page).Raised?);
      r := Returned(records);
      return;
    }
    r := Raised(RetriesExhausted(ExhaustedMessage(maxRetries)));
  }
}
