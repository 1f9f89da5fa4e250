/**
 * A parsed page, as the scraper sees it through BeautifulSoup (and tools.py
 * through Playwright): an element has its text, its attributes, and for each
 * selector key of the selector configuration the elements that key matches
 * beneath it, in document order. The page itself is the root element.
 */
module Dom {
  import opened Strings

  datatype Element = Element(text: string, attrs: map<string, string>, children: map<string, seq<Element>>)

  /** `soup.select(selector)`: every match, in document order. */
  function Select(e: Element, key: string): seq<Element>
  {
    if key in e.children then e.children[key] else []
  }

  /** `soup.select_one(selector)`: the first match, or None. */
  function SelectOne(e: Element, key: string): (r: Option<Element>)
    ensures r.Some? <==> Select(e, key) != []
    ensures r.Some? ==> r.value == Select(e, key)[0]
  {
    var all := Select(e, key);
    if all == [] then None else Some(all[0])
  }

  /** `element.get(name)` / `element.get_attribute(name)`: the value, or Python's None. */
  function Get(e: Element, name: string): Option<string>
  {
    if name in e.attrs then Some(e.attrs[name]) else None
  }

  /** How an f-string renders a value that may be None. */
  function Show(v: Option<string>): string
  {
    match v
    case Some(s) => s
    case None => "None"
  }
}
