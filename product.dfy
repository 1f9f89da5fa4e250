/**
 * What one attempt of `scrape_product_info` and of `product_urls` computes
 * from a parsed page: the product record with its field rules, and the list
 * of product links of a search page.
 */
module Product {
  import opened Strings
  import opened Dom
  import opened Scraper
  import opened Asin

  /** The currency pattern `[$₹,R\$€£kr()%¥\s]`. */
  const Currency: CharClass := CharClass({'$', '₹', ',', 'R', '€', '£', 'k', 'r', '(', ')', '%', '¥'}, true)

  /** The rating-count noise pattern `[,\sratings]`. */
  const RatingNoise: CharClass := CharClass({',', 'r', 'a', 't', 'i', 'n', 'g', 's'}, true)

  /** A numeric field: the text float() accepted, or the sentinel. */
  datatype Field = Number(literal: string) | Unavailable

  /** The record `scrape_product_info` builds: one value per key of its dictionary. */
  datatype ProductRecord = ProductRecord(
    name: string,
    asin: string,
    region: string,
    description: string,
    breakdown: string,
    price: Field,
    dealPrice: Field,
    saved: string,
    rating: Field,
    ratingCount: Field,
    availability: string,
    hyperlink: string,
    image: Option<string>,
    images: seq<Option<string>>,
    store: string,
    storeLink: string)

  /** `' '.join(parts)`. */
  function Join(parts: seq<string>): string
  {
    if parts == [] then "" else if |parts| == 1 then parts[0] else parts[0] + " " + Join(parts[1..])
  }

  /** Joining grows from the left: one more part is appended after a single space. */
  lemma {:induction false} JoinSnoc(parts: seq<string>, x: string)
    ensures Join(parts + [x]) == if parts == [] then x else Join(parts) + " " + x
    decreases |parts|
  {
    if parts == [] {
      assert parts + [x] == [x];
    } else if |parts| == 1 {
      assert parts + [x] == [parts[0], x];
      assert [parts[0], x][1..] == [x];
    } else {
      var rest := parts[1..];
      assert (parts + [x])[1..] == rest + [x];
      JoinSnoc(rest, x);
      assert parts[0] + " " + (Join(rest) + " " + x) == (parts[0] + " " + Join(rest)) + " " + x;
    }
  }

  /** The characters of the parts, in total. */
  function TotalLength(parts: seq<string>): nat
  {
    if parts == [] then 0 else |parts[0]| + TotalLength(parts[1..])
  }

  /** The joined length is the parts' total length plus one per gap between neighbours. */
  lemma {:induction false} JoinLength(parts: seq<string>)
    requires parts != []
    ensures |Join(parts)| == TotalLength(parts) + |parts| - 1
    decreases |parts|
  {
    if |parts| > 1 {
      JoinLength(parts[1..]);
    }
  }

  /**
   * Where part `i` sits in the joined text: after the parts before it and
   * one space per part before it, unchanged, and followed by a space unless
   * it is the last part. With JoinLength this fixes every character of the join.
   */
  lemma {:induction false} JoinPlaces(parts: seq<string>, i: nat)
    requires i < |parts|
    ensures var o := TotalLength(parts[..i]) + i;
      var j := Join(parts);
      o + |parts[i]| <= |j| && j[o..o + |parts[i]|] == parts[i]
      && (i < |parts| - 1 ==> o + |parts[i]| < |j| && j[o + |parts[i]|] == ' ')
    decreases i
  {
    if i == 0 {
      assert parts[..i] == [];
      if |parts| > 1 {
        JoinShift(parts[0], Join(parts[1..]), 0, 0);
      }
    } else {
      var rest := parts[1..];
      JoinPlaces(rest, i - 1);
      TotalLengthTake(parts, i);
      JoinShift(parts[0], Join(rest), TotalLength(rest[..i - 1]) + (i - 1), |parts[i]|);
    }
  }

  /** Positions in the joined tail, seen from the whole join `head + " " + tail`. */
  lemma JoinShift(head: string, tail: string, o: nat, n: nat)
    requires o + n <= |tail|
    ensures var j := head + " " + tail; var p := |head| + 1 + o;
      p + n <= |j| && j[p..p + n] == tail[o..o + n]
      && (o == 0 ==> j[..|head|] == head && j[|head|] == ' ')
      && (o + n < |tail| ==> j[p + n] == tail[o + n])
  {
  }

  /** The parts before part `i` are the first part and the tail's parts before `i - 1`. */
  lemma TotalLengthTake(parts: seq<string>, i: nat)
    requires 0 < i <= |parts|
    ensures TotalLength(parts[..i]) == |parts[0]| + TotalLength(parts[1..][..i - 1])
  {
    assert parts[..i][1..] == parts[1..][..i - 1];
  }

  /** The stripped texts of the elements, in document order. */
  function Texts(elems: seq<Dom.Element>): (r: seq<string>)
    ensures |r| == |elems| && forall i :: 0 <= i < |r| ==> r[i] == Strip(elems[i].text)
  {
    seq(|elems|, i requires 0 <= i < |elems| => Strip(elems[i].text))
  }

  // ---------------------------------------------------------------------------
  // Price and deal price
  // ---------------------------------------------------------------------------

  /**
   * The price text: the `price_us` text, unless `Page` is one of its
   * whitespace-separated words, in which case the `price_us_i` text.
   */
  function PriceText(page: Dom.Element): string
  {
    var p := CatchText(SelectOne(page, "price_us"));
    if "Page" in Split(p) then CatchText(SelectOne(page, "price_us_i")) else p
  }

  /**
   * The deal-price text: the sentinel when `deal_price` matches nothing or
   * its first match has `Page` as one of its words, that match's text otherwise.
   */
  function DealText(page: Dom.Element): (r: string)
    ensures Select(page, "deal_price") == [] ==> r == NotAvailable
  {
    var deals := Select(page, "deal_price");
    if deals == [] then NotAvailable
    else
      var d := CatchText(Some(deals[0]));
      if "Page" in Split(d) then NotAvailable else d
  }

  /**
   * `price if price == "N/A" else float(re.sub(currency, '', price))`:
   * the sentinel stays the sentinel; any other text loses every currency
   * character and must then be accepted by float(), or ValueError is raised.
   */
  function Amount(text: string): (r: Outcome<Field>)
    ensures text == NotAvailable ==> r == Returned(Unavailable)
    ensures text != NotAvailable ==> (r.Returned? <==> FloatAccepts(RemoveChars(text, Currency)))
    ensures text != NotAvailable && r.Returned? ==> r.value == Number(RemoveChars(text, Currency))
    ensures r.Returned? && r.value.Number? ==>
      r.value.literal == RemoveChars(text, Currency) && Avoids(r.value.literal, Currency)
  {
    if text == NotAvailable then Returned(Unavailable)
    else
      var stripped := RemoveChars(text, Currency);
      if FloatAccepts(stripped) then Returned(Number(stripped)) else Raised(ValueError(stripped))
  }

  /** `Page` as a whitespace-delimited word of the price text sends the reader to `price_us_i`. */
  lemma PriceFallsBack(page: Dom.Element, i: int)
    requires TokenAt(CatchText(SelectOne(page, "price_us")), i, "Page")
    ensures PriceText(page) == CatchText(SelectOne(page, "price_us_i"))
  {
    SplitContains(CatchText(SelectOne(page, "price_us")), "Page");
  }

  /** Without `Page` as a word, the `price_us` text is kept. */
  lemma PriceKept(page: Dom.Element)
    requires forall i :: !TokenAt(CatchText(SelectOne(page, "price_us")), i, "Page")
    ensures PriceText(page) == CatchText(SelectOne(page, "price_us"))
  {
    SplitContains(CatchText(SelectOne(page, "price_us")), "Page");
  }

  /** A deal text with `Page` as a word becomes the sentinel. */
  lemma DealDropsPage(page: Dom.Element, i: int)
    requires Select(page, "deal_price") != []
    requires TokenAt(CatchText(Some(Select(page, "deal_price")[0])), i, "Page")
    ensures DealText(page) == NotAvailable
  {
    DealDropsWord(page, CatchText(Some(Select(page, "deal_price")[0])), i);
  }

  /** `Page` as a word of the first deal text `d` makes the deal text the sentinel. */
  lemma DealDropsWord(page: Dom.Element, d: string, i: int)
    requires Select(page, "deal_price") != []
    requires CatchText(Some(Select(page, "deal_price")[0])) == d
    requires TokenAt(d, i, "Page")
    ensures DealText(page) == NotAvailable
  {
    TokenInSplit(d, i, "Page");
    DealTextOf(page, d);
  }

  /** The deal-price text in terms of the first deal element's text `d`. */
  lemma DealTextOf(page: Dom.Element, d: string)
    requires Select(page, "deal_price") != []
    requires CatchText(Some(Select(page, "deal_price")[0])) == d
    ensures DealText(page) == if "Page" in Split(d) then NotAvailable else d
  {
  }

  /** Without `Page` as a word, the first deal-price text is kept. */
  lemma DealKept(page: Dom.Element)
    requires Select(page, "deal_price") != []
    requires forall i :: !TokenAt(CatchText(Some(Select(page, "deal_price")[0])), i, "Page")
    ensures DealText(page) == CatchText(Some(Select(page, "deal_price")[0]))
  {
    var d := CatchText(Some(Select(page, "deal_price")[0]));
    SplitContains(d, "Page");
    DealTextOf(page, d);
  }

  /**
   * Any text other than the sentinel that the currency clean-up reduces to
   * digits, a point and digits is read as exactly that decimal.
   */
  lemma AmountOfMarkedPrice(text: string, whole: string, frac: string)
    requires text != NotAvailable
    requires whole != [] && AllDigits(whole) && AllDigits(frac)
    requires RemoveChars(text, Currency) == whole + "." + frac
    ensures Amount(text) == Returned(Number(whole + "." + frac))
  {
    FloatAcceptsPlainDecimal(whole, frac);
  }

  /**
   * A price written with currency marks before it and a thousands separator
   * inside its whole part, `marks + head + "," + tail + "." + frac`, is read
   * as the decimal without them: "$1,299.99" gives "1299.99".
   */
  lemma AmountWithSeparator(marks: string, head: string, tail: string, frac: string)
    requires forall i :: 0 <= i < |marks| ==> Currency.Has(marks[i])
    requires head != [] && AllDigits(head) && AllDigits(tail) && AllDigits(frac)
    ensures Amount(marks + head + "," + tail + "." + frac) == Returned(Number(head + tail + "." + frac))
  {
    var text := marks + head + "," + tail + "." + frac;
    RemoveCharsOnlyClass(marks, Currency);
    SeparatedPriceCleaned(marks, head, tail, frac);
    assert text[|text| - 1] == (tail + "." + frac)[|tail + "." + frac| - 1];
    AmountOfMarkedPrice(text, head + tail, frac);
  }

  /** The currency clean-up drops the marks and the separator and keeps the digits and the point. */
  lemma SeparatedPriceCleaned(marks: string, head: string, tail: string, frac: string)
    requires RemoveChars(marks, Currency) == []
    requires AllDigits(head) && AllDigits(tail) && AllDigits(frac)
    ensures RemoveChars(marks + head + "," + tail + "." + frac, Currency) == (head + tail) + "." + frac
  {
    var after := tail + "." + frac;
    assert marks + head + "," + tail + "." + frac == marks + head + "," + after;
    DecimalAvoidsCurrency(head, "");
    DecimalAvoidsCurrency(tail, frac);
    CommaIsCurrency();
    RemoveCharsSeparated(marks, head, ",", after, Currency);
    assert head + after == (head + tail) + "." + frac;
  }

  /** The thousands separator is one of the currency characters. */
  lemma CommaIsCurrency()
    ensures RemoveChars(",", Currency) == []
  {
    assert Currency.Has(',');
  }

  /** Marks the clean-up drops, a class-free part, a dropped separator and another class-free part: the two parts remain. */
  lemma RemoveCharsSeparated(marks: string, head: string, sep: string, tail: string, cls: CharClass)
    requires RemoveChars(marks, cls) == [] && RemoveChars(sep, cls) == []
    requires Avoids(head, cls) && Avoids(tail, cls)
    ensures RemoveChars(marks + head + sep + tail, cls) == head + tail
  {
    var a := marks + head;
    var b := a + sep;
    RemoveCharsKeeps(head, cls);
    RemoveCharsKeeps(tail, cls);
    RemoveCharsAppend(marks, head, cls);
    assert RemoveChars(a, cls) == head by {
      assert [] + head == head;
    }
    RemoveCharsAppend(a, sep, cls);
    assert RemoveChars(b, cls) == head by {
      assert head + [] == head;
    }
    RemoveCharsAppend(b, tail, cls);
  }

  /** Digits, or digits, a point and digits, hold no currency character. */
  lemma DecimalAvoidsCurrency(whole: string, frac: string)
    requires AllDigits(whole) && AllDigits(frac)
    ensures Avoids(whole, Currency)
    ensures Avoids(whole + "." + frac, Currency)
  {
    var lit := whole + "." + frac;
    forall i | 0 <= i < |lit| ensures !Currency.Has(lit[i]) {
      assert IsDigit(lit[i]) || lit[i] == '.';
    }
  }

  /** Text made only of class characters is removed entirely. */
  lemma {:induction false} RemoveCharsOnlyClass(s: string, cls: CharClass)
    requires forall i :: 0 <= i < |s| ==> cls.Has(s[i])
    ensures RemoveChars(s, cls) == []
  {
    if s != [] {
      RemoveCharsOnlyClass(s[1..], cls);
    }
  }

  // ---------------------------------------------------------------------------
  // The other fields
  // ---------------------------------------------------------------------------

  /** Availability: the stripped `availability` text, and "In stock" when the page has none. */
  function Availability(page: Dom.Element): (r: string)
    ensures Select(page, "availability") == [] ==> r == "In stock"
    ensures Select(page, "availability") != [] ==> r == Strip(Select(page, "availability")[0].text)
  {
    match SelectOne(page, "availability")
    case None => "In stock"
    case Some(e) => Strip(e.text)
  }

  /** `float(text)` inside a try: the accepted literal, or the sentinel. */
  function Lenient(text: string): (r: Field)
    ensures r.Number? <==> FloatAccepts(text)
    ensures r.Number? ==> r.literal == text
  {
    if FloatAccepts(text) then Number(text) else Unavailable
  }

  /** The suffix a rating text is cleaned of. */
  const OutOfFive: string := " out of 5 stars"

  /**
   * Rating: the stripped `review` text with every " out of 5 stars"
   * removed, when the element is present and float() accepts that text;
   * the sentinel otherwise.
   */
  function Rating(page: Dom.Element): (r: Field)
    ensures Select(page, "review") == [] ==> r == Unavailable
    ensures r.Number? <==> (Select(page, "review") != [] &&
      FloatAccepts(Replace(Strip(Select(page, "review")[0].text), OutOfFive, "")))
    ensures r.Number? ==> r.literal == Replace(Strip(Select(page, "review")[0].text), OutOfFive, "")
  {
    match SelectOne(page, "review")
    case None => Unavailable
    case Some(e) => Lenient(Replace(Strip(e.text), OutOfFive, ""))
  }

  /**
   * Rating count: the stripped `rating_count` text without commas,
   * whitespace and the letters of "ratings", when the element is present
   * and float() accepts what is left; the sentinel otherwise.
   */
  function RatingCount(page: Dom.Element): (r: Field)
    ensures Select(page, "rating_count") == [] ==> r == Unavailable
    ensures r.Number? <==> (Select(page, "rating_count") != [] &&
      FloatAccepts(RemoveChars(Strip(Select(page, "rating_count")[0].text), RatingNoise)))
    ensures r.Number? ==> r.literal == RemoveChars(Strip(Select(page, "rating_count")[0].text), RatingNoise)
    ensures r.Number? ==> Avoids(r.literal, RatingNoise)
  {
    match SelectOne(page, "rating_count")
    case None => Unavailable
    case Some(e) => Lenient(RemoveChars(Strip(e.text), RatingNoise))
  }

  /** "4.5 out of 5 stars" loses its suffix and leaves a literal float() accepts. */
  lemma StarsText(whole: string, frac: string)
    requires whole != [] && AllDigits(whole) && AllDigits(frac)
    ensures Replace(whole + "." + frac + OutOfFive, OutOfFive, "") == whole + "." + frac
    ensures FloatAccepts(whole + "." + frac)
  {
    var lit := whole + "." + frac;
    assert forall i :: 0 <= i < |lit| ==> lit[i] != ' ' by {
      forall i | 0 <= i < |lit| ensures lit[i] != ' ' {
        assert IsDigit(lit[i]) || lit[i] == '.';
      }
    }
    ReplaceCopies(lit, OutOfFive, OutOfFive, "");
    ReplaceLeading(OutOfFive, "", "");
    assert OutOfFive + "" == OutOfFive;
    FloatAcceptsPlainDecimal(whole, frac);
  }

  /** A review reading "4.5 out of 5 stars" gives the rating 4.5. */
  lemma RatingOfStars(page: Dom.Element, whole: string, frac: string)
    requires whole != [] && AllDigits(whole) && AllDigits(frac)
    requires Select(page, "review") != []
    requires Strip(Select(page, "review")[0].text) == whole + "." + frac + OutOfFive
    ensures Rating(page) == Number(whole + "." + frac)
  {
    StarsText(whole, frac);
  }

  /** Digits are not rating-count noise. */
  lemma DigitsAvoidNoise(d: string)
    requires AllDigits(d)
    ensures Avoids(d, RatingNoise)
  {
    forall i | 0 <= i < |d| ensures !RatingNoise.Has(d[i]) {
      assert IsDigit(d[i]);
    }
  }

  /** The separator and the " ratings" label are noise, and are dropped whole. */
  lemma NoiseDropped(sep: string)
    requires sep == "" || sep == ","
    ensures RemoveChars(sep, RatingNoise) == []
    ensures RemoveChars(" ratings", RatingNoise) == []
  {
    assert forall i :: 0 <= i < |sep| ==> sep[i] == ',';
    RemoveCharsOnlyClass(sep, RatingNoise);
    var suffix := " ratings";
    assert forall i :: 0 <= i < |suffix| ==> RatingNoise.Has(suffix[i]);
    RemoveCharsOnlyClass(suffix, RatingNoise);
  }

  /** Removing a class from kept text, a dropped separator, kept text and a dropped suffix leaves the two kept texts. */
  lemma RemoveCharsAround(head: string, sep: string, tail: string, suffix: string, cls: CharClass)
    requires Avoids(head, cls) && Avoids(tail, cls)
    requires RemoveChars(sep, cls) == [] && RemoveChars(suffix, cls) == []
    ensures RemoveChars(head + sep + tail + suffix, cls) == head + tail
  {
    var a := head + sep;
    var b := a + tail;
    RemoveCharsKeeps(head, cls);
    RemoveCharsKeeps(tail, cls);
    RemoveCharsAppend(head, sep, cls);
    assert RemoveChars(a, cls) == head by {
      assert head + [] == head;
    }
    RemoveCharsAppend(a, tail, cls);
    assert RemoveChars(b, cls) == head + tail;
    RemoveCharsAppend(b, suffix, cls);
    assert head + tail + [] == head + tail;
  }

  /** "1,234 ratings" is cleaned down to its digits "1234", which float() accepts. */
  lemma CountText(head: string, sep: string, tail: string)
    requires head != [] && AllDigits(head) && AllDigits(tail) && (sep == "" || sep == ",")
    ensures RemoveChars(head + sep + tail + " ratings", RatingNoise) == head + tail
    ensures FloatAccepts(head + tail)
  {
    DigitsAvoidNoise(head);
    DigitsAvoidNoise(tail);
    NoiseDropped(sep);
    RemoveCharsAround(head, sep, tail, " ratings", RatingNoise);
    assert AllDigits(head + tail);
    FloatAcceptsDigits(head + tail);
  }

  /** A count reading "1,234 ratings" (or "87 ratings") gives the count's digits. */
  lemma RatingCountOfLabel(page: Dom.Element, head: string, sep: string, tail: string)
    requires head != [] && AllDigits(head) && AllDigits(tail) && (sep == "" || sep == ",")
    requires Select(page, "rating_count") != []
    requires Strip(Select(page, "rating_count")[0].text) == head + sep + tail + " ratings"
    ensures RatingCount(page) == Number(head + tail)
  {
    CountText(head, sep, tail);
  }

  /** Savings: the stripped text of the last `savings` match, or the sentinel when there is none. */
  function Saved(page: Dom.Element): (r: string)
    ensures Select(page, "savings") == [] ==> r == NotAvailable
    ensures Select(page, "savings") != [] ==> var all := Select(page, "savings"); r == Strip(all[|all| - 1].text)
  {
    var all := Select(page, "savings");
    if all == [] then NotAvailable else CatchText(Some(all[|all| - 1]))
  }

  /** Store name: the `store` text with every "Visit the " removed. */
  function StoreName(page: Dom.Element): string
  {
    Replace(CatchText(SelectOne(page, "store")), "Visit the ", "")
  }

  /** "Visit the Acme Store" gives "Acme Store" whenever the rest holds no further "Visit the ". */
  lemma StoreDropsVisitThe(page: Dom.Element, rest: string)
    requires CatchText(SelectOne(page, "store")) == "Visit the " + rest
    requires NoOccurrence(rest, "Visit the ")
    ensures StoreName(page) == rest
  {
    ReplaceLeading("Visit the ", rest, "");
    ReplaceAbsent(rest, "Visit the ", "");
  }

  /** The hero image: `image_link_i`'s src, falling back to `image_link_ii` through the sentinel reader. */
  function ImageLink(page: Dom.Element): (r: Option<string>)
    ensures Select(page, "image_link_i") != [] ==> r == Get(Select(page, "image_link_i")[0], "src")
    ensures Select(page, "image_link_i") == [] && Select(page, "image_link_ii") != [] ==>
      r == Get(Select(page, "image_link_ii")[0], "src")
    ensures Select(page, "image_link_i") == [] && Select(page, "image_link_ii") == [] ==> r == Some(NotAvailable)
  {
    match SelectOne(page, "image_link_i")
    case Some(e) => Get(e, "src")
    case None => CatchAttribute(SelectOne(page, "image_link_ii"), "src")
  }

  /** The src of every `image_lists` match, in document order. */
  function Images(page: Dom.Element): (r: seq<Option<string>>)
    ensures |r| == |Select(page, "image_lists")|
    ensures forall i :: 0 <= i < |r| ==> r[i] == Get(Select(page, "image_lists")[i], "src")
  {
    var all := Select(page, "image_lists");
    seq(|all|, i requires 0 <= i < |all| => Get(all[i], "src"))
  }

  /** The product name: absent raises AttributeError, the sentinel raises to force a retry. */
  function ProductName(page: Dom.Element): (r: Outcome<string>)
    ensures r.Returned? <==> Select(page, "name") != [] && Strip(Select(page, "name")[0].text) != NotAvailable
    ensures r.Returned? ==> r.value == Strip(Select(page, "name")[0].text)
  {
    match SelectOne(page, "name")
    case None => Raised(MissingElement("name"))
    case Some(e) =>
      var name := Strip(e.text);
      if name == NotAvailable then Raised(ProductNotAvailable) else Returned(name)
  }

  /**
   * The body of one `scrape_product_info` attempt on a fetched page. It
   * succeeds exactly when the name is present and not the sentinel and both
   * the price and the deal price are the sentinel or accepted by float();
   * then every field follows its rule.
   */
  function ExtractRecord(amazon: Amazon, url: string, page: Dom.Element): (r: Outcome<ProductRecord>)
    ensures r.Returned? <==>
      ProductName(page).Returned? && Amount(PriceText(page)).Returned? && Amount(DealText(page)).Returned?
    ensures r.Returned? ==> var rec := r.value;
      && rec.name != NotAvailable && rec.name == Strip(Select(page, "name")[0].text)
      && rec.asin == GetAsin(url) && rec.hyperlink == url && rec.region == amazon.region
      && rec.price == Amount(PriceText(page)).value
      && rec.dealPrice == Amount(DealText(page)).value
      && rec.availability == Availability(page)
      && rec.description == Join(Texts(Select(page, "description")))
      && rec.breakdown == Join(Texts(Select(page, "prod_des")))
      && rec.saved == Saved(page)
      && rec.rating == Rating(page)
      && rec.ratingCount == RatingCount(page)
      && rec.image == ImageLink(page)
      && rec.images == Images(page)
      && rec.store == StoreName(page)
      && rec.storeLink == SitePrefix(amazon) + Show(CatchAttribute(SelectOne(page, "store"), "href"))
      && (rec.price.Number? ==> Avoids(rec.price.literal, Currency) && FloatAccepts(rec.price.literal))
      && (rec.dealPrice.Number? ==> Avoids(rec.dealPrice.literal, Currency) && FloatAccepts(rec.dealPrice.literal))
  {
    match ProductName(page)
    case Raised(e) => Raised(e)
    case Returned(name) =>
      var image := ImageLink(page);
      var availability := Availability(page);
      match Amount(PriceText(page))
      case Raised(e) => Raised(e)
      case Returned(price) =>
        match Amount(DealText(page))
        case Raised(e) => Raised(e)
        case Returned(deal) =>
          Returned(ProductRecord(
            name := name,
            asin := GetAsin(url),
            region := amazon.region,
            description := Join(Texts(Select(page, "description"))),
            breakdown := Join(Texts(Select(page, "prod_des"))),
            price := price,
            dealPrice := deal,
            saved := Saved(page),
            rating := Rating(page),
            ratingCount := RatingCount(page),
            availability := availability,
            hyperlink := url,
            image := image,
            images := Images(page),
            store := StoreName(page),
            storeLink := SitePrefix(amazon) + Show(CatchAttribute(SelectOne(page, "store"), "href"))))
  }

  // ---------------------------------------------------------------------------
  // Product links of a search page (one attempt of product_urls)
  // ---------------------------------------------------------------------------

  /** Every product card has a `hyperlink` element under it. */
  predicate CardsHaveLinks(page: Dom.Element)
  {
    forall i :: 0 <= i < |Select(page, "main_content")| ==> Select(Select(page, "main_content")[i], "hyperlink") != []
  }

  /** The absolute link of a card: the site root followed by the href of its first `hyperlink`. */
  function CardLink(amazon: Amazon, card: Dom.Element): string
    requires Select(card, "hyperlink") != []
  {
    SitePrefix(amazon) + Show(Get(Select(card, "hyperlink")[0], "href"))
  }

  /**
   * The product links of a search page: one per `main_content` card, in
   * document order, each the site root followed by the card's href; a card
   * without a link raises AttributeError.
   */
  function CardLinks(amazon: Amazon, page: Dom.Element): (r: Outcome<seq<string>>)
    ensures r.Returned? <==> CardsHaveLinks(page)
    ensures r.Returned? ==> |r.value| == |Select(page, "main_content")|
    ensures r.Returned? ==> forall i :: 0 <= i < |r.value| ==>
      r.value[i] == CardLink(amazon, Select(page, "main_content")[i])
  {
    var cards := Select(page, "main_content");
    if CardsHaveLinks(page) then
      Returned(seq(|cards|, i requires 0 <= i < |cards| && CardsHaveLinks(page) => CardLink(amazon, cards[i])))
    else Raised(MissingElement("hyperlink"))
  }
}
