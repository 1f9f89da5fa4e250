/**
 * What every part of the scraper shares: the constant state of an `Amazon`
 * scraper object, the exceptions its methods raise, the outcome of one fetch
 * of a page, and the scraper's sentinel-returning element readers.
 */
module Scraper {
  import opened Strings
  import opened Dom

  /** The sentinel that stands for a value the page does not have. */
  const NotAvailable: string := "N/A"

  /**
   * The fields an `Amazon` object sets in its constructor and never changes:
   * the search URL, the country domain and region derived from it.
   */
  datatype Amazon = Amazon(baseUrl: string, countryDomain: string, region: string)

  /** The site root every relative link of the page is appended to. */
  function SitePrefix(amazon: Amazon): string
  {
    "https://www.amazon." + amazon.countryDomain
  }

  /** The exceptions the scraper's methods raise or catch. */
  datatype Exception =
    | ConnectionReset                  // ConnectionResetError from the transport
    | TransportError                   // any other failure to fetch or parse a page
    | MissingElement(key: string)      // AttributeError: a selector matched nothing
    | ProductNotAvailable              // the product name read as the sentinel
    | ValueError(text: string)         // float() refused the text
    | RetriesExhausted(message: string) // the exception raised when every retry failed
    | UnboundLocal(name: string)       // a handler formatted a variable that is not bound

  /** A Python call either returns a value or raises. */
  datatype Outcome<+T> = Returned(value: T) | Raised(error: Exception)

  /** The outcome of one request for a page: the parsed page, a connection reset, or another failure. */
  datatype Fetch = Fetched(page: Element) | Reset | Failed

  /** f"{n}" for any int. */
  function IntText(n: int): string
  {
    if n < 0 then "-" + Decimal(-n) else Decimal(n)
  }

  /**
   * The text the exhausted-retries exception carries: the fixed opening, the
   * f-string rendering of `max_retries`, and the fixed close.
   */
  function ExhaustedMessage(maxRetries: int): (m: string)
    ensures |m| > 45
    ensures m[..36] == "Failed to retrieve valid data after "
    ensures m[36..|m| - 9] == IntText(maxRetries)
    ensures m[|m| - 9..] == " retries."
  {
    var m := "Failed to retrieve valid data after " + IntText(maxRetries) + " retries.";
    assert m[36..|m| - 9] == IntText(maxRetries);
    m
  }

  /** The rendering of an int names it: different ints are rendered differently. */
  lemma IntTextInjective(a: int, b: int)
    requires IntText(a) == IntText(b)
    ensures a == b
  {
    if a < 0 && b < 0 {
      assert Decimal(-a) == IntText(a)[1..] == IntText(b)[1..] == Decimal(-b);
    }
  }

  /** The message of the exhausted-retries exception tells which `max_retries` the call was given. */
  lemma ExhaustedMessageNames(a: int, b: int)
    requires ExhaustedMessage(a) == ExhaustedMessage(b)
    ensures a == b
  {
    var m := ExhaustedMessage(a);
    assert IntText(a) == m[36..|m| - 9] == IntText(b);
    IntTextInjective(a, b);
  }

  /**
   * The scraper's `catch.text(element)`: the sentinel when the element is
   * absent, its text without surrounding whitespace otherwise.
   */
  function CatchText(e: Option<Element>): (r: string)
    ensures e.None? ==> r == NotAvailable
    ensures e.Some? ==> r == Strip(e.value.text)
  {
    match e
    case None => NotAvailable
    case Some(el) => Strip(el.text)
  }

  /**
   * The scraper's `catch.attributes(element, name)`: the sentinel when the
   * element is absent, the attribute (None when it has none) otherwise.
   */
  function CatchAttribute(e: Option<Element>, name: string): (r: Option<string>)
    ensures e.None? ==> r == Some(NotAvailable)
    ensures e.Some? ==> r == Get(e.value, name)
  {
    match e
    case None => Some(NotAvailable)
    case Some(el) => Get(el, name)
  }
}
