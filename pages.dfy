/**
 * The pure part of `num_of_pages` and `split_url`: how a page-count
 * indicator is read, how the "next page" link is rewritten into the link of
 * page k + 1, and the list of page links that results.
 */
module Pages {
  import opened Strings
  import opened Dom
  import opened Scraper

  // ---------------------------------------------------------------------------
  // The page count
  // ---------------------------------------------------------------------------

  /**
   * The page count read from a fetched search page: "1" when `pages` matches
   * nothing, the text of its last match otherwise; int() of that text, and
   * 2 when int() refuses it.
   */
  function PageCount(page: Element): int
  {
    var indicators := Select(page, "pages");
    var text := if indicators == [] then "1" else CatchText(Some(indicators[|indicators| - 1]));
    match ParseInt(text)
    case Some(n) => n
    case None => 2
  }

  /** Without a page indicator the search has one page. */
  lemma PageCountWithoutIndicator(page: Element)
    requires Select(page, "pages") == []
    ensures PageCount(page) == 1
  {
    ParseIntDecimal(1);
    assert Decimal(1) == "1";
  }

  /**
   * An indicator whose text is a number gives that number; a number of more
   * than MaxStrDigits digits makes int() raise ValueError, so the count is 2.
   */
  lemma PageCountNumeric(page: Element, n: nat)
    requires Select(page, "pages") != []
    requires var all := Select(page, "pages"); Strip(all[|all| - 1].text) == Decimal(n)
    ensures PageCount(page) == if n < Pow10(MaxStrDigits) then n else 2
  {
    var all := Select(page, "pages");
    assert CatchText(Some(all[|all| - 1])) == Decimal(n);
    PageCountOfText(page, Decimal(n));
    ParseIntDecimal(n);
  }

  /** With an indicator present, the count is int() of its stripped text, or 2 when int() refuses it. */
  lemma PageCountOfText(page: Element, text: string)
    requires Select(page, "pages") != []
    requires var all := Select(page, "pages"); CatchText(Some(all[|all| - 1])) == text
    ensures PageCount(page) == match ParseInt(text) case Some(v) => v case None => 2
  {
  }

  /** An indicator whose text holds no digit (a "Previous" label) gives 2. */
  lemma PageCountNonNumeric(page: Element)
    requires Select(page, "pages") != []
    requires var all := Select(page, "pages"); NoDigit(all[|all| - 1].text)
    ensures PageCount(page) == 2
  {
    var all := Select(page, "pages");
    var text := all[|all| - 1].text;
    var t := Strip(text);
    var lead := LeadingSpaces(text);
    assert forall i :: 0 <= i < |t| ==> t[i] == text[lead + i];
    ParseIntNeedsDigit(t);
  }

  /** `s` holds no decimal digit. */
  predicate NoDigit(s: string)
  {
    forall i :: 0 <= i < |s| ==> !IsDigit(s[i])
  }

  // ---------------------------------------------------------------------------
  // re.sub(key + r'\d+', key + num, link)
  // ---------------------------------------------------------------------------

  /** Length of the digit run at the front of `s`. */
  function DigitRun(s: string): (n: nat)
    ensures n <= |s|
    ensures forall i :: 0 <= i < n ==> IsDigit(s[i])
    ensures n < |s| ==> !IsDigit(s[n])
  {
    if s == [] || !IsDigit(s[0]) then 0 else 1 + DigitRun(s[1..])
  }

  /** Length of the match of `key\d+` at the front of `s` (greedy), 0 when it does not match there. */
  function MatchLength(s: string, key: string): (m: nat)
    ensures m <= |s|
    ensures m > 0 <==> |s| > |key| && s[..|key|] == key && IsDigit(s[|key|])
    ensures m > 0 ==> m > |key| && (m == |s| || !IsDigit(s[m]))
    ensures m > 0 ==> forall i :: |key| <= i < m ==> IsDigit(s[i])
  {
    if |s| > |key| && s[..|key|] == key && IsDigit(s[|key|])
    then |key| + DigitRun(s[|key|..]) else 0
  }

  /** The keys the rewrite may use: the first character is not a digit and appears nowhere else in the key. */
  predicate GoodKey(key: string)
  {
    key != [] && !IsDigit(key[0]) && forall i :: 1 <= i < |key| ==> key[i] != key[0]
  }

  /**
   * re.sub(key + r'\d+', key + num, s): scanning left to right, every match
   * of the key followed by a maximal digit run is replaced by key + num.
   */
  function SubNumbered(s: string, key: string, num: string): string
    decreases |s|
  {
    if s == [] then []
    else
      var m := MatchLength(s, key);
      if m > 0 then key + num + SubNumbered(s[m..], key, num)
      else [s[0]] + SubNumbered(s[1..], key, num)
  }

  /**
   * At position `i` of `s`, an occurrence of the key followed by a digit is
   * followed by exactly `num` and then by a non-digit or the end.
   */
  predicate NumberedAt(s: string, i: int, key: string, num: string)
  {
    (OccursAt(s, i, key) && i + |key| < |s| && IsDigit(s[i + |key|]))
    ==> (OccursAt(s, i + |key|, num) && (i + |key| + |num| == |s| || !IsDigit(s[i + |key| + |num|])))
  }

  /** Every `key<digits>` of `s` reads `key<num>`. */
  predicate Numbered(s: string, key: string, num: string)
  {
    forall i :: 0 <= i < |s| ==> NumberedAt(s, i, key, num)
  }

  lemma NumberedShift(p: string, t: string, j: int, key: string, num: string)
    requires 0 <= j < |t|
    ensures NumberedAt(p + t, |p| + j, key, num) <==> NumberedAt(t, j, key, num)
  {
    var s := p + t;
    var i := |p| + j;
    if i + |key| <= |s| {
      assert s[i..i + |key|] == t[j..j + |key|];
    }
    if i + |key| + |num| <= |s| {
      assert s[i + |key|..i + |key| + |num|] == t[j + |key|..j + |key| + |num|];
    }
  }

  /** The first character of the rewritten text: the key's, or the text's own. */
  lemma SubNumberedFirst(s: string, key: string, num: string)
    requires s != [] && key != []
    ensures var r := SubNumbered(s, key, num);
      r != [] && r[0] == (if MatchLength(s, key) > 0 then key[0] else s[0])
  {
  }

  /**
   * When the rewritten text starts with `w` and `w` does not contain the
   * key's first character, the original text starts with `w` too.
   */
  lemma {:induction false} SubNumberedPrefix(s: string, key: string, num: string, w: string)
    requires GoodKey(key)
    requires forall i :: 0 <= i < |w| ==> w[i] != key[0]
    requires var r := SubNumbered(s, key, num); |w| <= |r| && r[..|w|] == w
    ensures |w| <= |s| && s[..|w|] == w
    decreases |w|
  {
    if w != [] {
      SubNumberedPrefixStep(s, key, num, w);
      assert forall i :: 0 <= i < |w[1..]| ==> w[1..][i] != key[0] by {
        assert forall i :: 0 <= i < |w[1..]| ==> w[1..][i] == w[i + 1];
      }
      SubNumberedPrefix(s[1..], key, num, w[1..]);
      PrefixCons(s, w);
    }
  }

  /** A prefix that agrees on its head and whose tail starts the tail of `s` starts `s`. */
  lemma PrefixCons(s: string, w: string)
    requires s != [] && w != [] && s[0] == w[0]
    requires |w| - 1 <= |s| - 1 && s[1..][..|w| - 1] == w[1..]
    ensures |w| <= |s| && s[..|w|] == w
  {
    assert s[..|w|] == [s[0]] + s[1..][..|w| - 1];
    assert w == [w[0]] + w[1..];
  }

  /** One step of `SubNumberedPrefix`: the first character agrees, and the rest of `w` starts the rewritten rest. */
  lemma SubNumberedPrefixStep(s: string, key: string, num: string, w: string)
    requires key != [] && w != [] && w[0] != key[0]
    requires var r := SubNumbered(s, key, num); |w| <= |r| && r[..|w|] == w
    ensures s != [] && s[0] == w[0]
    ensures var t := SubNumbered(s[1..], key, num); |w| - 1 <= |t| && t[..|w| - 1] == w[1..]
  {
    var r := SubNumbered(s, key, num);
    assert r[0] == r[..|w|][0] == w[0];
    SubNumberedFirst(s, key, num);
    SubNumberedStep(s, key, num);
    var t := SubNumbered(s[1..], key, num);
    assert r == [s[0]] + t;
  }

  /** Where the text does not start with the key's first character, the rewrite copies that character. */
  lemma SubNumberedStep(s: string, key: string, num: string)
    requires key != [] && s != [] && s[0] != key[0]
    ensures SubNumbered(s, key, num) == [s[0]] + SubNumbered(s[1..], key, num)
  {
    assert MatchLength(s, key) == 0 by {
      assert |s| > |key| ==> s[..|key|][0] == s[0];
    }
  }

  /**
   * The rewrite leaves a prefix alone when no match can start inside it:
   * a prefix without the key's first character is copied as it is.
   */
  lemma {:induction false} SubNumberedCopies(w: string, rest: string, key: string, num: string)
    requires key != [] && key[0] !in w
    ensures SubNumbered(w + rest, key, num) == w + SubNumbered(rest, key, num)
    decreases |w|
  {
    if w == [] {
      assert w + rest == rest;
    } else {
      assert key[0] !in w[1..] by {
        assert w == [w[0]] + w[1..];
      }
      SubNumberedCopies(w[1..], rest, key, num);
      SubNumberedCopyHead(w, rest, key, num);
    }
  }

  /** One step of SubNumberedCopies: the head of `w` is copied, then the rest of `w` is. */
  lemma SubNumberedCopyHead(w: string, rest: string, key: string, num: string)
    requires key != [] && w != [] && w[0] != key[0]
    requires SubNumbered(w[1..] + rest, key, num) == w[1..] + SubNumbered(rest, key, num)
    ensures SubNumbered(w + rest, key, num) == w + SubNumbered(rest, key, num)
  {
    var x := w[1..] + rest;
    ConsAppend(w, rest);
    SubNumberedCons(w[0], x, key, num);
    ConsAppend(w, SubNumbered(rest, key, num));
  }

  /** A character that cannot start a match is copied to the front of the rewrite. */
  lemma SubNumberedCons(c: char, x: string, key: string, num: string)
    requires key != [] && c != key[0]
    ensures SubNumbered([c] + x, key, num) == [c] + SubNumbered(x, key, num)
  {
    var s := [c] + x;
    assert s[1..] == x;
    SubNumberedStep(s, key, num);
  }

  /** A digit run followed by a non-digit (or nothing) is taken whole. */
  lemma DigitRunOf(d: string, rest: string)
    requires AllDigits(d)
    requires rest == [] || !IsDigit(rest[0])
    ensures DigitRun(d + rest) == |d|
  {
    var t := d + rest;
    assert forall i :: 0 <= i < |d| ==> t[i] == d[i];
    assert |d| < |t| ==> t[|d|] == rest[0];
  }

  /** At a key followed by a digit run and a non-digit (or nothing), the match covers the key and the whole run. */
  lemma MatchLengthOf(key: string, d: string, rest: string)
    requires d != [] && AllDigits(d)
    requires rest == [] || !IsDigit(rest[0])
    ensures MatchLength(key + d + rest, key) == |key| + |d|
  {
    var t := key + d + rest;
    assert t[..|key|] == key;
    assert t[|key|] == d[0];
    assert t[|key|..] == d + rest;
    DigitRunOf(d, rest);
  }

  /** A text that starts with a match is rewritten from `key + num` on, and the rewrite goes on after the digit run. */
  lemma SubNumberedAtMatch(key: string, d: string, rest: string, num: string)
    requires d != [] && AllDigits(d)
    requires rest == [] || !IsDigit(rest[0])
    ensures SubNumbered(key + d + rest, key, num) == key + num + SubNumbered(rest, key, num)
  {
    var t := key + d + rest;
    MatchLengthOf(key, d, rest);
    assert t[|key| + |d|..] == rest;
  }

  /**
   * The match step of the rewrite: text before the first match is copied,
   * the key with its whole digit run becomes `key + num`, and the rewrite
   * goes on after the run.
   */
  lemma SubNumberedMatch(w: string, d: string, rest: string, key: string, num: string)
    requires key != [] && key[0] !in w
    requires d != [] && AllDigits(d)
    requires rest == [] || !IsDigit(rest[0])
    ensures SubNumbered(w + (key + d + rest), key, num) == w + (key + num + SubNumbered(rest, key, num))
  {
    SubNumberedCopies(w, key + d + rest, key, num);
    SubNumberedAtMatch(key, d, rest, num);
  }

  /** Writing `key + num` in front of a numbered text whose first character is not a digit keeps it numbered. */
  lemma NumberedAfterReplacement(key: string, num: string, tail: string)
    requires GoodKey(key)
    requires num != [] && AllDigits(num)
    requires Numbered(tail, key, num)
    requires tail == [] || !IsDigit(tail[0])
    ensures Numbered(key + num + tail, key, num)
  {
    var rep := key + num;
    var r := rep + tail;
    forall i | 0 <= i < |r|
      ensures NumberedAt(r, i, key, num)
    {
      if i >= |rep| {
        NumberedShift(rep, tail, i - |rep|, key, num);
      } else if i == 0 {
        assert r[..|key|] == key;
        assert r[|key|..|key| + |num|] == num;
        assert |rep| < |r| ==> r[|rep|] == tail[0];
      } else {
        assert r[i] == rep[i];
        assert i < |key| ==> rep[i] == key[i];
        assert i >= |key| ==> IsDigit(rep[i]);
        assert r[i] != key[0];
      }
    }
  }

  /**
   * A match at the front of the rewritten text, when the original text's
   * first character was copied, was already a match in the original.
   */
  lemma CopiedMatch(s: string, key: string, num: string)
    requires GoodKey(key)
    requires s != []
    requires var r := [s[0]] + SubNumbered(s[1..], key, num);
      OccursAt(r, 0, key) && |key| < |r| && IsDigit(r[|key|])
    ensures MatchLength(s, key) > 0
  {
    var r := [s[0]] + SubNumbered(s[1..], key, num);
    var n := |key|;
    var w := key[1..] + [r[n]];
    ShiftedPrefix(r, key);
    SubNumberedPrefix(s[1..], key, num, w);
    UnshiftedPrefix(s, key, r[n]);
  }

  /** A text starting with `key` and then `c` continues, after its first character, with the rest of `key` and `c`. */
  lemma ShiftedPrefix(r: string, key: string)
    requires key != [] && |key| < |r| && r[..|key|] == key
    ensures r[1..][..|key|] == key[1..] + [r[|key|]]
  {
    var n := |key|;
    assert key[1..] == r[1..n];
    assert r[1..][..n] == r[1..n] + [r[n]];
  }

  /** A text whose first character is the key's, followed by the rest of the key and `c`, starts with the key and `c`. */
  lemma UnshiftedPrefix(s: string, key: string, c: char)
    requires key != [] && s != [] && s[0] == key[0]
    requires |key| <= |s[1..]| && s[1..][..|key|] == key[1..] + [c]
    ensures |s| > |key| && s[..|key|] == key && s[|key|] == c
  {
    var n := |key|;
    assert s[..n + 1] == [s[0]] + s[1..][..n];
    assert key == [key[0]] + key[1..];
    assert s[..n + 1] == key + [c];
    assert s[..n] == s[..n + 1][..n];
  }



  /** Copying a character at which the pattern does not match keeps the rewritten rest numbered. */
  lemma NumberedAfterCopy(s: string, key: string, num: string)
    requires GoodKey(key)
    requires s != [] && MatchLength(s, key) == 0
    requires Numbered(SubNumbered(s[1..], key, num), key, num)
    ensures Numbered([s[0]] + SubNumbered(s[1..], key, num), key, num)
  {
    var tail := SubNumbered(s[1..], key, num);
    var r := [s[0]] + tail;
    forall i | 0 <= i < |r|
      ensures NumberedAt(r, i, key, num)
    {
      if i >= 1 {
        NumberedShift([s[0]], tail, i - 1, key, num);
      } else if OccursAt(r, 0, key) && |key| < |r| {
        if IsDigit(r[|key|]) {
          CopiedMatch(s, key, num);
        }
      }
    }
  }

  /**
   * After the rewrite, every occurrence of the key followed by a digit is
   * followed by exactly `num`: no old page number survives, and the
   * replacement cannot glue onto its neighbours to form a new one.
   */
  lemma {:induction false} SubNumberedNumbers(s: string, key: string, num: string)
    requires GoodKey(key)
    requires num != [] && AllDigits(num)
    ensures Numbered(SubNumbered(s, key, num), key, num)
    decreases |s|
  {
    if s != [] {
      var m := MatchLength(s, key);
      if m > 0 {
        SubNumberedNumbers(s[m..], key, num);
        if s[m..] != [] {
          SubNumberedFirst(s[m..], key, num);
        }
        NumberedAfterReplacement(key, num, SubNumbered(s[m..], key, num));
      } else {
        SubNumberedNumbers(s[1..], key, num);
        NumberedAfterCopy(s, key, num);
      }
    }
  }

  /** A link without any `key<digits>` is left exactly as it is. */
  lemma {:induction false} SubNumberedAbsent(s: string, key: string, num: string)
    requires forall i :: 0 <= i < |s| ==> MatchLength(s[i..], key) == 0
    ensures SubNumbered(s, key, num) == s
    decreases |s|
  {
    if s != [] {
      assert MatchLength(s[0..], key) == 0;
      assert s[0..] == s;
      forall i | 0 <= i < |s[1..]| ensures MatchLength(s[1..][i..], key) == 0 {
        assert s[1..][i..] == s[i + 1..];
      }
      SubNumberedAbsent(s[1..], key, num);
    }
  }

  // ---------------------------------------------------------------------------
  // The page links
  // ---------------------------------------------------------------------------

  const PageKey: string := "page="
  const TrackKey: string := "sr_pg_"

  /**
   * The link of the (k+1)-th result page: the "next page" link with every
   * `page=<digits>` made `page={k+1}`, then every `sr_pg_<digits>` made `sr_pg_{k}`.
   */
  function PageUrl(nextLink: string, k: nat): string
  {
    SubNumbered(SubNumbered(nextLink, PageKey, Decimal(k + 1)), TrackKey, Decimal(k))
  }

  /** A `page=` cannot start inside the replacement `sr_pg_<digits>`. */
  lemma TrackReplacementKeeps(track: string, tail: string, num: string)
    requires AllDigits(num) && num != [] && AllDigits(track)
    requires Numbered(tail, PageKey, num)
    ensures Numbered(TrackKey + track + tail, PageKey, num)
  {
    var head := TrackKey + track;
    var r := head + tail;
    forall i | 0 <= i < |r|
      ensures NumberedAt(r, i, PageKey, num)
    {
      if i >= |head| {
        NumberedShift(head, tail, i - |head|, PageKey, num);
      } else {
        assert i + 5 <= |r| ==> r[i..i + 5][0] == r[i] && r[i..i + 5][1] == r[i + 1];
        if i == 3 {
          assert r[i + 1] == 'g';
        } else {
          assert r[i] == head[i];
          assert i < |TrackKey| ==> head[i] == TrackKey[i];
          assert i >= |TrackKey| ==> IsDigit(head[i]);
          assert r[i] != 'p';
        }
      }
    }
  }

  /**
   * When the `sr_pg_` rewrite copies the first character of a text and the
   * result starts with `page=` and a digit, the text itself starts so.
   */
  lemma TrackCopyStart(s: string, track: string)
    requires AllDigits(track) && track != []
    requires s != [] && MatchLength(s, TrackKey) == 0
    requires var r := [s[0]] + SubNumbered(s[1..], TrackKey, track);
      |r| > 5 && r[..5] == PageKey && IsDigit(r[5])
    ensures |s| > 5 && s[..5] == PageKey && IsDigit(s[5])
  {
    assert GoodKey(TrackKey);
    var tail := SubNumbered(s[1..], TrackKey, track);
    var r := [s[0]] + tail;
    var w := "age=" + [r[5]];
    assert tail == r[1..];
    assert r[1..5] == r[..5][1..] == "age=";
    assert tail[..5] == r[1..5] + [r[5]];
    SubNumberedPrefix(s[1..], TrackKey, track, w);
    assert s[1..][..5] == w;
    assert s[0] == r[0] == r[..5][0] == 'p';
    assert s[..6] == "page=" + [r[5]] by {
      assert forall q :: 1 <= q < 6 ==> s[q] == s[1..][..5][q - 1];
    }
  }

  /**
   * When a text starts with `page=<num>` followed by the end or a
   * non-digit, the `sr_pg_` rewrite copies that number and what follows
   * it is still the end or a non-digit.
   */
  lemma TrackCopyNumber(s: string, num: string, track: string)
    requires AllDigits(num)
    requires OccursAt(s, 0, PageKey) && OccursAt(s, 5, num)
    requires 5 + |num| == |s| || !IsDigit(s[5 + |num|])
    ensures var r := [s[0]] + SubNumbered(s[1..], TrackKey, track);
      OccursAt(r, 5, num) && (5 + |num| == |r| || !IsDigit(r[5 + |num|]))
  {
    TrackCopyRewrite(s, num, track);
    PageNumberHead(s, num);
    var after := s[5 + |num|..];
    var rest := SubNumbered(after, TrackKey, track);
    var head := s[..5 + |num|];
    TrackRestStart(after, track);
    NumberThenNonDigit(head, rest, num);
    assert [s[0]] + SubNumbered(s[1..], TrackKey, track) == head + rest;
  }

  /** The `sr_pg_` rewrite of a text that does not start with a digit does not start with one either. */
  lemma TrackRestStart(after: string, track: string)
    requires after == [] || !IsDigit(after[0])
    ensures var rest := SubNumbered(after, TrackKey, track); rest == [] || !IsDigit(rest[0])
  {
    if after != [] {
      SubNumberedFirst(after, TrackKey, track);
    }
  }

  /** `page=<num>` followed by a text that does not start with a digit keeps the number at position 5, whole. */
  lemma NumberThenNonDigit(head: string, rest: string, num: string)
    requires |head| == 5 + |num| && head[5..] == num
    requires rest == [] || !IsDigit(rest[0])
    ensures var r := head + rest;
      OccursAt(r, 5, num) && (5 + |num| == |r| || !IsDigit(r[5 + |num|]))
  {
    var r := head + rest;
    assert r[5..5 + |num|] == head[5..];
  }

  /** The `sr_pg_` rewrite of what follows the first character copies "age=" and the number, and rewrites the rest. */
  lemma TrackCopyRewrite(s: string, num: string, track: string)
    requires AllDigits(num) && OccursAt(s, 0, PageKey) && OccursAt(s, 5, num)
    ensures [s[0]] + SubNumbered(s[1..], TrackKey, track)
      == ([s[0]] + ("age=" + num)) + SubNumbered(s[5 + |num|..], TrackKey, track)
  {
    PageNumberSplit(s, num);
    NumberAvoidsTrack(num);
    SubNumberedCopies("age=" + num, s[5 + |num|..], TrackKey, track);
  }

  /** "age=" and a number hold no `s`, so the `sr_pg_` rewrite cannot start inside them. */
  lemma NumberAvoidsTrack(num: string)
    requires AllDigits(num)
    ensures TrackKey[0] !in "age=" + num
  {
    var v := "age=" + num;
    assert forall q :: 4 <= q < |v| ==> v[q] == num[q - 4];
  }

  /** A text starting with `page=<num>` starts with its first character, "age=" and the number. */
  lemma PageNumberHead(s: string, num: string)
    requires OccursAt(s, 0, PageKey) && OccursAt(s, 5, num)
    ensures s[..5 + |num|] == [s[0]] + ("age=" + num)
  {
    PageNumberSplit(s, num);
    assert s[..5 + |num|] == [s[0]] + s[1..][..4 + |num|];
  }

  /** A text starting with `page=<num>` is its first character, "age=", the number and the rest. */
  lemma PageNumberSplit(s: string, num: string)
    requires OccursAt(s, 0, PageKey) && OccursAt(s, 5, num)
    ensures s[1..] == ("age=" + num) + s[5 + |num|..]
  {
    assert s[1..5] == s[..5][1..] == "age=";
    assert s[1..] == s[1..5] + s[5..5 + |num|] + s[5 + |num|..];
  }

  /** The `sr_pg_` rewrite, copying the first character, keeps a `page=` there correctly numbered. */
  lemma TrackCopyKeeps(s: string, num: string, track: string)
    requires AllDigits(num) && num != [] && AllDigits(track) && track != []
    requires s != [] && MatchLength(s, TrackKey) == 0
    requires NumberedAt(s, 0, PageKey, num)
    ensures NumberedAt([s[0]] + SubNumbered(s[1..], TrackKey, track), 0, PageKey, num)
  {
    var r := [s[0]] + SubNumbered(s[1..], TrackKey, track);
    if OccursAt(r, 0, PageKey) && |PageKey| < |r| && IsDigit(r[|PageKey|]) {
      assert r[..5] == PageKey;
      TrackCopyStart(s, track);
      assert OccursAt(s, 0, PageKey);
      TrackCopyNumber(s, num, track);
    }
  }

  /**
   * The second rewrite (`sr_pg_`) keeps what the first one (`page=`)
   * established: it cannot create, alter or remove a `page=<digits>`.
   */
  lemma {:induction false} TrackKeepsPageNumbers(s: string, num: string, track: string)
    requires AllDigits(num) && num != [] && AllDigits(track) && track != []
    requires Numbered(s, PageKey, num)
    ensures Numbered(SubNumbered(s, TrackKey, track), PageKey, num)
    decreases |s|
  {
    if s != [] {
      var m := MatchLength(s, TrackKey);
      var d := if m > 0 then m else 1;
      assert Numbered(s[d..], PageKey, num) by {
        forall j | 0 <= j < |s[d..]| ensures NumberedAt(s[d..], j, PageKey, num) {
          assert s == s[..d] + s[d..];
          NumberedShift(s[..d], s[d..], j, PageKey, num);
          assert NumberedAt(s, d + j, PageKey, num);
        }
      }
      TrackKeepsPageNumbers(s[d..], num, track);
      var tail := SubNumbered(s[d..], TrackKey, track);
      if m > 0 {
        TrackReplacementKeeps(track, tail, num);
      } else {
        var r := [s[0]] + tail;
        TrackCopyKeeps(s, num, track);
        forall i | 0 <= i < |r|
          ensures NumberedAt(r, i, PageKey, num)
        {
          if i >= 1 {
            NumberedShift([s[0]], tail, i - 1, PageKey, num);
          }
        }
      }
    }
  }

  /**
   * In the link of page k + 1 every `page=<digits>` reads `page={k+1}` and
   * every `sr_pg_<digits>` reads `sr_pg_{k}`.
   */
  lemma PageUrlNumbers(nextLink: string, k: nat)
    ensures Numbered(PageUrl(nextLink, k), PageKey, Decimal(k + 1))
    ensures Numbered(PageUrl(nextLink, k), TrackKey, Decimal(k))
  {
    assert GoodKey(PageKey) && GoodKey(TrackKey);
    var first := SubNumbered(nextLink, PageKey, Decimal(k + 1));
    SubNumberedNumbers(nextLink, PageKey, Decimal(k + 1));
    TrackKeepsPageNumbers(first, Decimal(k + 1), Decimal(k));
    SubNumberedNumbers(first, TrackKey, Decimal(k));
  }

  /**
   * The "next page" link of a search page: the site root followed by the
   * href of the `next_button` element, the sentinel when there is none and
   * "None" when it has no href.
   */
  function NextLink(amazon: Amazon, page: Element): (r: string)
    ensures |SitePrefix(amazon)| <= |r| && r[..|SitePrefix(amazon)|] == SitePrefix(amazon)
    ensures Select(page, "next_button") == [] ==> r == SitePrefix(amazon) + NotAvailable
    ensures Select(page, "next_button") != [] ==>
      r == SitePrefix(amazon) + Show(Get(Select(page, "next_button")[0], "href"))
  {
    SitePrefix(amazon) + Show(CatchAttribute(SelectOne(page, "next_button"), "href"))
  }

  /**
   * `split_url`'s result for a page count: the search URL itself, then one
   * rewritten "next page" link for each page from the second to the last.
   */
  function PlannedUrls(baseUrl: string, nextLink: string, total: int): (r: seq<string>)
    ensures |r| == (if total < 1 then 1 else total)
    ensures r[0] == baseUrl
    ensures forall k :: 1 <= k < |r| ==> r[k] == PageUrl(nextLink, k)
  {
    [baseUrl] + seq(if total < 1 then 0 else total - 1, k requires 0 <= k => PageUrl(nextLink, k + 1))
  }

  /** Planning one more page appends one link and leaves every earlier one as it was. */
  lemma PlannedUrlsGrow(baseUrl: string, nextLink: string, total: nat)
    requires total >= 1
    ensures PlannedUrls(baseUrl, nextLink, total + 1) == PlannedUrls(baseUrl, nextLink, total) + [PageUrl(nextLink, total)]
  {
  }
}
