/**
 * The helpers of the browser-driven scraper module: the sentinel-returning
 * element readers, the random delay and random choice, the check a search
 * link must pass, and the cleaning of a review count.
 */
module Tools {
  import opened Strings

  /** The sentinel the readers return for a missing element. */
  const Missing: string := "N/A"

  /** A browser element handle: its rendered inner text and its attributes. */
  datatype Handle = Handle(innerText: string, attributes: map<string, string>)

  // ---------------------------------------------------------------------------
  // TryExcept
  // ---------------------------------------------------------------------------

  /**
   * `TryExcept.text`: the sentinel for a missing element; otherwise its
   * inner text stripped, which has no surrounding whitespace and which
   * stripping again does not change.
   */
  function TryExceptText(element: Option<Handle>): (r: string)
    ensures element.None? ==> r == Missing
    ensures element.Some? ==> r == Strip(element.value.innerText)
    ensures element.Some? ==> r != [] ==> !IsSpace(r[0]) && !IsSpace(r[|r| - 1])
    ensures element.Some? ==> Strip(r) == r
  {
    match element
    case None => Missing
    case Some(h) =>
      StripIdempotent(h.innerText);
      Strip(h.innerText)
  }

  /** An element whose inner text has no surrounding whitespace reads as that text. */
  lemma TryExceptTextExact(h: Handle)
    requires h.innerText == [] || (!IsSpace(h.innerText[0]) && !IsSpace(h.innerText[|h.innerText| - 1]))
    ensures TryExceptText(Some(h)) == h.innerText
  {
    StripNoMargin(h.innerText);
  }

  /**
   * `TryExcept.attributes`: the sentinel for a missing element; otherwise
   * the attribute's value, or None when the element does not carry it.
   */
  function TryExceptAttribute(element: Option<Handle>, name: string): (r: Option<string>)
    ensures element.None? ==> r == Some(Missing)
    ensures element.Some? ==> (r.Some? <==> name in element.value.attributes)
    ensures element.Some? && r.Some? ==> r.value == element.value.attributes[name]
  {
    match element
    case None => Some(Missing)
    case Some(h) => if name in h.attributes then Some(h.attributes[name]) else None
  }

  // ---------------------------------------------------------------------------
  // randomMe and randomTime
  // ---------------------------------------------------------------------------

  /** `random.choice`: an element of the list, or IndexError for an empty list. */
  datatype Choice<T> = Chosen(value: T) | IndexError

  /**
   * `random.shuffle`: for i from the last index down to 1, swap element i
   * with an element at some j in 0..i. The random source is left open: any
   * j in range may be picked. The list ends up a permutation of itself.
   */
  method Shuffle<T>(a: array<T>)
    modifies a
    ensures multiset(a[..]) == multiset(old(a[..]))
  {
    var i := a.Length - 1;
    while i > 0
      invariant i < a.Length
      invariant multiset(a[..]) == multiset(old(a[..]))
      decreases i
    {
      var j :| 0 <= j <= i;
      a[i], a[j] := a[j], a[i];
      i := i - 1;
    }
  }

  /**
   * `randomMe`: shuffle the list in place, then choose one of its elements.
   * The list stays a permutation of what it was; the choice fails exactly
   * on an empty list and is otherwise one of the list's elements.
   */
  method RandomMe<T>(a: array<T>) returns (r: Choice<T>)
    modifies a
    ensures multiset(a[..]) == multiset(old(a[..]))
    ensures r.Chosen? <==> a.Length > 0
    ensures r.Chosen? ==> r.value in multiset(old(a[..]))
  {
    Shuffle(a);
    if a.Length == 0 {
      r := IndexError;
    } else {
      var k :| 0 <= k < a.Length;
      r := Chosen(a[k]);
      assert r.value in a[..];
    }
  }

  /** `randomTime`'s candidate list: the integers 3 up to `val`, in ascending order. */
  function Candidates(val: int): (r: seq<int>)
    ensures |r| == (if val < 3 then 0 else val - 2)
    ensures forall i :: 0 <= i < |r| ==> r[i] == 3 + i
  {
    if val < 3 then [] else seq(val - 2, i => 3 + i)
  }

  /** The candidates are exactly the integers from 3 to `val`. */
  lemma CandidatesMembers(val: int, x: int)
    ensures x in Candidates(val) <==> 3 <= x <= val
  {
    if 3 <= x <= val {
      assert Candidates(val)[x - 3] == x;
    }
  }

  /**
   * `randomTime`: a delay chosen among 3 to `val` seconds; the choice fails
   * with IndexError exactly when `val` is below 3.
   */
  method RandomTime(val: int) returns (r: Choice<int>)
    ensures r.Chosen? <==> val >= 3
    ensures r.Chosen? ==> 3 <= r.value <= val
  {
    var ranges := Candidates(val);
    var a := new int[|ranges|](i requires 0 <= i < |ranges| => ranges[i]);
    assert a[..] == ranges;
    r := RandomMe(a);
    if r.Chosen? {
      assert r.value in ranges;
      CandidatesMembers(val, r.value);
    }
  }

  // ---------------------------------------------------------------------------
  // The search-link check: re.search("^https://www.amazon\.(com|co\.uk)/s\?.+", link)
  // ---------------------------------------------------------------------------

  /**
   * The pattern matches `link` with the alternative `domain`: "https://www",
   * any character but a newline (the unescaped `.`), "amazon.", the domain,
   * "/s?", and at least one more character that is not a newline.
   */
  predicate MatchesWith(link: string, domain: string)
  {
    var n := 22 + |domain|;
    && n < |link|
    && link[..11] == "https://www"
    && link[11] != '\n'
    && link[12..19] == "amazon."
    && link[19..19 + |domain|] == domain
    && link[19 + |domain|..n] == "/s?"
    && link[n] != '\n'
  }

  /** The link passes the check: the pattern matches it with either domain. */
  predicate IsAmazonSearchLink(link: string)
  {
    MatchesWith(link, "com") || MatchesWith(link, "co.uk")
  }

  /** The links of the shape the pattern describes, built from its free parts. */
  function SearchLink(dot: char, domain: string, first: char, rest: string): (r: string)
    ensures |r| == 23 + |domain| + |rest|
  {
    "https://www" + [dot] + "amazon." + domain + "/s?" + [first] + rest
  }

  /** Every link of that shape passes the check, whatever stands for the unescaped dot. */
  lemma SearchLinkAccepted(dot: char, domain: string, first: char, rest: string)
    requires domain == "com" || domain == "co.uk"
    requires dot != '\n' && first != '\n'
    ensures IsAmazonSearchLink(SearchLink(dot, domain, first, rest))
  {
    var s := SearchLink(dot, domain, first, rest);
    var n := 22 + |domain|;
    assert s[..11] == "https://www";
    assert s[11] == dot;
    assert s[12..19] == "amazon.";
    assert s[19..19 + |domain|] == domain;
    assert s[19 + |domain|..n] == "/s?";
    assert s[n] == first;
    assert MatchesWith(s, domain);
  }

  /** Only links of that shape pass the check: a passing link is rebuilt from its parts. */
  lemma SearchLinkOnly(link: string)
    requires IsAmazonSearchLink(link)
    ensures var domain := if MatchesWith(link, "com") then "com" else "co.uk";
      var n := 22 + |domain|;
      && link[11] != '\n' && link[n] != '\n'
      && link == SearchLink(link[11], domain, link[n], link[n + 1..])
  {
    var domain := if MatchesWith(link, "com") then "com" else "co.uk";
    var n := 22 + |domain|;
    var s := SearchLink(link[11], domain, link[n], link[n + 1..]);
    assert link[..12] == "https://www" + [link[11]];
    assert link[..19] == link[..12] + "amazon.";
    assert link[..19 + |domain|] == link[..19] + domain;
    assert link[..n] == link[..19 + |domain|] + "/s?";
    assert link[..n + 1] == link[..n] + [link[n]];
    assert link == link[..n + 1] + link[n + 1..];
  }

  /** A link that stops right after "/s?" is refused: the pattern wants at least one more character. */
  lemma SearchLinkNeedsQuery(dot: char, domain: string)
    requires domain == "com" || domain == "co.uk"
    ensures !IsAmazonSearchLink("https://www" + [dot] + "amazon." + domain + "/s?")
  {
    var s := "https://www" + [dot] + "amazon." + domain + "/s?";
    assert |s| == 22 + |domain|;
    assert s[19..22] == domain[..3];
    assert "co.uk"[..3] == "co.";
  }

  // ---------------------------------------------------------------------------
  // The review count
  // ---------------------------------------------------------------------------

  /** The characters `[()]` the review count is cleaned of. */
  const Parens: CharClass := CharClass({'(', ')'}, false)

  /**
   * The review count of a product card: the text the reader gives for its
   * element, with every parenthesis removed and every other character kept
   * in order.
   */
  function ReviewCount(element: Option<Handle>): (r: string)
    ensures r == RemoveChars(TryExceptText(element), Parens)
    ensures Avoids(r, Parens)
    ensures |r| <= |TryExceptText(element)|
  {
    RemoveChars(TryExceptText(element), Parens)
  }

  /** A count shown in parentheses, "(1,234)", reads as the count alone, "1,234". */
  lemma ReviewCountUnwraps(count: string, attributes: map<string, string>)
    requires Avoids(count, Parens)
    ensures ReviewCount(Some(Handle("(" + count + ")", attributes))) == count
  {
    var text := "(" + count + ")";
    StripNoMargin(text);
    RemoveCharsAppend("(" + count, ")", Parens);
    RemoveCharsAppend("(", count, Parens);
    RemoveCharsKeeps(count, Parens);
    assert RemoveChars("(", Parens) == [] by {
      assert "("[1..] == [];
    }
    assert RemoveChars(")", Parens) == [] by {
      assert ")"[1..] == [];
    }
  }
}
