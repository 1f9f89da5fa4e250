/**
 * `category_name`: the title of a search page, read through a chain of four
 * selectors (searches_I to searches_IV) of which the first that matches wins.
 */
module Category {
  import opened Strings
  import opened Dom
  import opened Scraper

  const SearchKeys: seq<string> := ["searches_I", "searches_II", "searches_III", "searches_IV"]

  /** re.sub(r'["]', '', text): every double quote removed. */
  const Quotes: CharClass := CharClass({'"'}, false)

  /**
   * A selector fallback chain: the index of the first key that matches an
   * element of the page, or None when none does. Later keys are consulted
   * only when every earlier one matched nothing.
   */
  function FirstPresent(page: Element, keys: seq<string>): (r: Option<nat>)
    ensures r.Some? ==> r.value < |keys| && Select(page, keys[r.value]) != []
    ensures r.Some? ==> forall j :: 0 <= j < r.value ==> Select(page, keys[j]) == []
    ensures r.None? <==> forall j :: 0 <= j < |keys| ==> Select(page, keys[j]) == []
  {
    if keys == [] then None
    else if Select(page, keys[0]) != [] then Some(0)
    else match FirstPresent(page, keys[1..])
      case None => None
      case Some(k) => Some(k + 1)
  }

  /**
   * The search title: the stripped text of the first of the four selectors
   * that matches, with double quotes removed when it is searches_II; when
   * none matches, reading searches_IV raises AttributeError.
   */
  function SearchTitle(page: Element): (r: Outcome<string>)
    ensures r.Returned? <==> exists j :: 0 <= j < |SearchKeys| && Select(page, SearchKeys[j]) != []
    ensures r.Raised? ==> r == Raised(MissingElement("searches_IV"))
    ensures forall k :: 0 <= k < |SearchKeys| && FirstPresent(page, SearchKeys) == Some(k) ==>
      var t := Strip(Select(page, SearchKeys[k])[0].text);
      r == Returned(if k == 1 then RemoveChars(t, Quotes) else t)
  {
    match FirstPresent(page, SearchKeys)
    case None => Raised(MissingElement("searches_IV"))
    case Some(k) =>
      var text := Strip(SelectOne(page, SearchKeys[k]).value.text);
      Returned(if k == 1 then RemoveChars(text, Quotes) else text)
  }

  /**
   * `category_name()`: one fetch of the search page (a failure propagates),
   * then "{region} - {title}.".
   */
  function CategoryName(amazon: Amazon, fetch: Fetch): (r: Outcome<string>)
    ensures r.Returned? <==>
      fetch.Fetched? && exists j :: 0 <= j < |SearchKeys| && Select(fetch.page, SearchKeys[j]) != []
    ensures fetch.Reset? ==> r == Raised(ConnectionReset)
    ensures r.Returned? ==> r.value == amazon.region + " - " + SearchTitle(fetch.page).value + "."
    ensures r.Returned? ==> var n := |amazon.region|;
      |r.value| >= n + 4 && r.value[..n] == amazon.region
      && r.value[n..n + 3] == " - " && r.value[|r.value| - 1] == '.'
  {
    match fetch
    case Reset => Raised(ConnectionReset)
    case Failed => Raised(TransportError)
    case Fetched(page) =>
      match SearchTitle(page)
      case Raised(e) => Raised(e)
      case Returned(title) =>
        TitleFramed(amazon.region, title);
        Returned(amazon.region + " - " + title + ".")
  }

  /** "{region} - {title}." starts with the region and " - ", and ends with a full stop. */
  lemma TitleFramed(region: string, title: string)
    ensures var v := region + " - " + title + "."; var n := |region|;
      |v| >= n + 4 && v[..n] == region && v[n..n + 3] == " - " && v[|v| - 1] == '.'
  {
    var v := region + " - " + title + ".";
    assert v == region + (" - " + (title + "."));
  }

  /**
   * The title is read from the selector the chain stops at: the `k`-th
   * selector, when it matches and none before it does. Its stripped text is
   * the title, and only the second selector (searches_II) loses its double
   * quotes; searches_I, searches_III and searches_IV keep theirs.
   */
  lemma TitleFromSelector(page: Element, k: nat)
    requires k < |SearchKeys| && Select(page, SearchKeys[k]) != []
    requires forall j :: 0 <= j < k ==> Select(page, SearchKeys[j]) == []
    ensures var t := Strip(Select(page, SearchKeys[k])[0].text);
      SearchTitle(page) == Returned(if k == 1 then RemoveChars(t, Quotes) else t)
  {
    assert FirstPresent(page, SearchKeys) == Some(k);
  }

  /** Short-circuit: when searches_I matches, its stripped text is the title, whatever the other selectors match. */
  lemma FirstSelectorWins(page: Element)
    requires Select(page, "searches_I") != []
    ensures SearchTitle(page) == Returned(Strip(Select(page, "searches_I")[0].text))
  {
  }

  /** The searches_II variant is the only one whose title loses its double quotes. */
  lemma SecondSelectorDropsQuotes(page: Element)
    requires Select(page, "searches_I") == [] && Select(page, "searches_II") != []
    ensures SearchTitle(page).Returned?
    ensures var t := SearchTitle(page).value;
      t == RemoveChars(Strip(Select(page, "searches_II")[0].text), Quotes)
      && forall i :: 0 <= i < |t| ==> t[i] != '"'
  {
    var r := FirstPresent(page, SearchKeys);
    assert SearchKeys[0] == "searches_I" && SearchKeys[1] == "searches_II";
    assert r == Some(1);
    var t := SearchTitle(page).value;
    assert forall i :: 0 <= i < |t| ==> !Quotes.Has(t[i]);
  }
}
