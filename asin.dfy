/**
 * `getASIN`: the product identifier in a product URL, found with the pattern
 * `(?<=dp\/)[A-Za-z|0-9]+`, or the sentinel when the pattern does not match.
 */
module Asin {
  import opened Strings
  import opened Scraper

  /** The character class `[A-Za-z|0-9]` (the `|` is a literal member of the class). */
  predicate IsAsinChar(c: char)
  {
    'A' <= c <= 'Z' || 'a' <= c <= 'z' || c == '|' || '0' <= c <= '9'
  }

  /** The pattern can match at `p`: `dp/` right before it and a class character at it. */
  predicate AsinStart(url: string, p: int)
  {
    3 <= p < |url| && url[p - 3..p] == "dp/" && IsAsinChar(url[p])
  }

  /** Length of the longest prefix of `s` made of class characters (the greedy `+`). */
  function RunLength(s: string): (n: nat)
    ensures n <= |s|
    ensures forall i :: 0 <= i < n ==> IsAsinChar(s[i])
    ensures n < |s| ==> !IsAsinChar(s[n])
  {
    if s == [] || !IsAsinChar(s[0]) then 0 else 1 + RunLength(s[1..])
  }

  /** re.search's scan: the first position at or after `from` where the pattern matches. */
  function FirstStart(url: string, from: nat): (r: Option<nat>)
    ensures r.None? ==> forall p :: from <= p ==> !AsinStart(url, p)
    ensures r.Some? ==> from <= r.value && AsinStart(url, r.value)
    ensures r.Some? ==> forall p :: from <= p < r.value ==> !AsinStart(url, p)
    decreases |url| - from
  {
    if from >= |url| then None
    else if AsinStart(url, from) then Some(from)
    else FirstStart(url, from + 1)
  }

  /**
   * The ASIN of a product URL. It is the sentinel exactly when no `dp/` is
   * followed by a class character; otherwise it is a non-empty run of class
   * characters (so never the sentinel, which holds a `/`).
   */
  function GetAsin(url: string): (r: string)
    ensures r == NotAvailable <==> forall p :: !AsinStart(url, p)
    ensures r != NotAvailable ==> r != [] && forall i :: 0 <= i < |r| ==> IsAsinChar(r[i])
  {
    match FirstStart(url, 0)
    case None => NotAvailable
    case Some(p) =>
      var r := url[p..p + RunLength(url[p..])];
      assert r[0] == url[p] && IsAsinChar(r[0]);
      assert NotAvailable[1] == '/';
      assert |r| >= 2 ==> IsAsinChar(r[1]);
      r
  }

  /**
   * The ASIN is the longest run of class characters at the leftmost place
   * the pattern matches: it starts right after the first usable `dp/` and
   * stops at the first character outside the class.
   */
  lemma GetAsinLeftmostLongest(url: string, p: nat)
    requires AsinStart(url, p)
    requires forall q :: 0 <= q < p ==> !AsinStart(url, q)
    ensures var n := RunLength(url[p..]);
      p + n <= |url| && GetAsin(url) == url[p..p + n]
      && (p + n == |url| || !IsAsinChar(url[p + n]))
  {
    var f := FirstStart(url, 0);
    assert f.Some? && f.value == p;
  }

  /** A URL without `dp/` has no ASIN. */
  lemma GetAsinWithoutDp(url: string)
    requires NoOccurrence(url, "dp/")
    ensures GetAsin(url) == NotAvailable
  {
    forall p | AsinStart(url, p)
      ensures false
    {
      assert OccursAt(url, p - 3, "dp/");
    }
  }

  /** A run of class characters followed by something else has exactly its own length. */
  lemma {:induction false} RunLengthOf(run: string, tail: string)
    requires forall i :: 0 <= i < |run| ==> IsAsinChar(run[i])
    requires tail == [] || !IsAsinChar(tail[0])
    ensures RunLength(run + tail) == |run|
  {
    if run == [] {
      assert run + tail == tail;
    } else {
      assert (run + tail)[1..] == run[1..] + tail;
      RunLengthOf(run[1..], tail);
    }
  }

  /**
   * A product URL `head + "dp/" + asin + tail`, whose first `dp/` is the one
   * shown, gives `asin` whenever `asin` is a run of class characters that
   * `tail` does not continue (".../dp/B0ABCDEFGH/ref=..." gives "B0ABCDEFGH").
   */
  lemma GetAsinOfProductPath(head: string, asin: string, tail: string)
    requires NoOccurrence(head + "dp", "dp/")
    requires asin != [] && forall i :: 0 <= i < |asin| ==> IsAsinChar(asin[i])
    requires tail == [] || !IsAsinChar(tail[0])
    ensures GetAsin(head + "dp/" + asin + tail) == asin
  {
    var url := head + "dp/" + asin + tail;
    var p := |head| + 3;
    assert url[p - 3..p] == "dp/";
    assert url[p] == asin[0];
    forall q | 0 <= q < p
      ensures !AsinStart(url, q)
    {
      if 3 <= q {
        assert url[q - 3..q] == (head + "dp")[q - 3..q];
        assert !OccursAt(head + "dp", q - 3, "dp/");
      }
    }
    var lead := head + "dp/";
    assert url == lead + (asin + tail);
    assert url[p..] == asin + tail by { assert |lead| == p; }
    RunLengthOf(asin, tail);
    GetAsinLeftmostLongest(url, p);
  }
}
