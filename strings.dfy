/**
 * The Python string primitives the scraper relies on: str.strip(), str.split(),
 * str.replace(), re.sub over a character class, int() and float() on text,
 * and the decimal rendering of an int inside an f-string.
 */
module Strings {

  datatype Option<+T> = None | Some(value: T)

  /** Python's str.isspace(), which is also what `\s` matches in a str pattern. */
  predicate IsSpace(c: char)
  {
    var n := c as int;
    n == 0x20 || 0x09 <= n <= 0x0D || 0x1C <= n <= 0x1F || n == 0x85 || n == 0xA0
    || n == 0x1680 || 0x2000 <= n <= 0x200A || n == 0x2028 || n == 0x2029
    || n == 0x202F || n == 0x205F || n == 0x3000
  }

  /** ASCII decimal digit (what `\d` matches on ASCII text). */
  predicate IsDigit(c: char)
  {
    '0' <= c <= '9'
  }

  predicate AllDigits(s: string)
  {
    forall i :: 0 <= i < |s| ==> IsDigit(s[i])
  }

  predicate NoSpace(s: string)
  {
    forall i :: 0 <= i < |s| ==> !IsSpace(s[i])
  }

  /** `w` occurs in `s` at position `i`. */
  predicate OccursAt(s: string, i: int, w: string)
  {
    0 <= i && i + |w| <= |s| && s[i..i + |w|] == w
  }

  predicate NoOccurrence(s: string, w: string)
  {
    forall i :: 0 <= i <= |s| - |w| ==> !OccursAt(s, i, w)
  }

  // ---------------------------------------------------------------------------
  // str.strip()
  // ---------------------------------------------------------------------------

  /** Number of whitespace characters at the front of `s`. */
  function LeadingSpaces(s: string): (n: nat)
    ensures n <= |s|
    ensures forall i :: 0 <= i < n ==> IsSpace(s[i])
    ensures n < |s| ==> !IsSpace(s[n])
  {
    if s != [] && IsSpace(s[0]) then 1 + LeadingSpaces(s[1..]) else 0
  }

  /** Number of whitespace characters at the back of `s`. */
  function TrailingSpaces(s: string): (n: nat)
    ensures n <= |s|
    ensures forall i :: |s| - n <= i < |s| ==> IsSpace(s[i])
    ensures n < |s| ==> !IsSpace(s[|s| - 1 - n])
  {
    if s != [] && IsSpace(s[|s| - 1]) then 1 + TrailingSpaces(s[..|s| - 1]) else 0
  }

  /**
   * str.strip(): the text between the leading and the trailing whitespace.
   * The result is the slice of `s` that starts after its leading whitespace,
   * everything cut off is whitespace, and the result neither starts nor ends
   * with whitespace.
   */
  function Strip(s: string): (r: string)
    ensures var i := LeadingSpaces(s);
      i + |r| <= |s| && r == s[i..i + |r|]
      && (forall k :: i + |r| <= k < |s| ==> IsSpace(s[k]))
    ensures r != [] ==> !IsSpace(r[0]) && !IsSpace(r[|r| - 1])
  {
    var i := LeadingSpaces(s);
    var rest := s[i..];
    var j := TrailingSpaces(rest);
    StripTail(s, i);
    rest[..|rest| - j]
  }

  /** What str.strip() cuts off the back of s[i..] is whitespace at the back of `s`. */
  lemma StripTail(s: string, i: nat)
    requires i <= |s|
    ensures var j := TrailingSpaces(s[i..]); forall k :: |s| - j <= k < |s| ==> IsSpace(s[k])
  {
    var rest := s[i..];
    var j := TrailingSpaces(rest);
    forall k | |s| - j <= k < |s|
      ensures IsSpace(s[k])
    {
      assert s[k] == rest[k - i];
    }
  }

  lemma {:induction false} StripNoMargin(s: string)
    requires s == [] || (!IsSpace(s[0]) && !IsSpace(s[|s| - 1]))
    ensures Strip(s) == s
  {
    var r := Strip(s);
    assert LeadingSpaces(s) == 0;
  }

  /** Stripping twice is stripping once. */
  lemma StripIdempotent(s: string)
    ensures Strip(Strip(s)) == Strip(s)
  {
    StripNoMargin(Strip(s));
  }

  // ---------------------------------------------------------------------------
  // str.split() with no separator
  // ---------------------------------------------------------------------------

  /** Length of the longest whitespace-free prefix of `s`. */
  function WordLength(s: string): (n: nat)
    ensures n <= |s|
    ensures forall i :: 0 <= i < n ==> !IsSpace(s[i])
    ensures n < |s| ==> IsSpace(s[n])
  {
    if s == [] || IsSpace(s[0]) then 0 else 1 + WordLength(s[1..])
  }

  /** str.split(): the maximal runs of non-whitespace characters, in order. */
  function Split(s: string): (r: seq<string>)
    ensures forall k :: 0 <= k < |r| ==> r[k] != [] && NoSpace(r[k])
    decreases |s|
  {
    if s == [] then []
    else if IsSpace(s[0]) then Split(s[1..])
    else
      var n := WordLength(s);
      [s[..n]] + Split(s[n..])
  }

  /** `w` stands in `s` at position `i` with whitespace (or the text's end) on both sides. */
  predicate TokenAt(s: string, i: int, w: string)
  {
    OccursAt(s, i, w)
    && (i == 0 || IsSpace(s[i - 1]))
    && (i + |w| == |s| || IsSpace(s[i + |w|]))
  }

  /** A token of a suffix is a token of the whole text, unless it sits glued to the cut. */
  lemma TokenOfSuffix(s: string, d: nat, j: int, w: string)
    requires d <= |s| && TokenAt(s[d..], j, w)
    requires j > 0 || d == 0 || IsSpace(s[d - 1])
    ensures TokenAt(s, d + j, w)
  {
    assert s[d..][j..j + |w|] == s[d + j..d + j + |w|];
  }

  /** A token of the whole text that starts at or after the cut is a token of the suffix. */
  lemma TokenInSuffix(s: string, d: nat, i: int, w: string)
    requires TokenAt(s, i, w) && d <= i
    ensures TokenAt(s[d..], i - d, w)
  {
    assert s[d..][i - d..i - d + |w|] == s[i..i + |w|];
  }

  lemma {:induction false} SplitHasToken(s: string, w: string)
    requires w in Split(s)
    ensures exists i :: TokenAt(s, i, w)
    decreases |s|
  {
    assert s != [];
    if IsSpace(s[0]) {
      SplitHasToken(s[1..], w);
      var j :| TokenAt(s[1..], j, w);
      TokenOfSuffix(s, 1, j, w);
    } else {
      var n := WordLength(s);
      if w == s[..n] {
        assert TokenAt(s, 0, w);
      } else {
        assert w in Split(s[n..]);
        SplitHasToken(s[n..], w);
        var j :| TokenAt(s[n..], j, w);
        assert w[0] == s[n..][j] && !IsSpace(w[0]);
        assert j > 0;
        TokenOfSuffix(s, n, j, w);
      }
    }
  }

  /** A text that starts with the space-free `w`, followed by whitespace or the end, has `w` as its first word. */
  lemma {:induction false} WordLengthOfToken(s: string, w: string)
    requires NoSpace(w) && |w| <= |s| && s[..|w|] == w
    requires |w| == |s| || IsSpace(s[|w|])
    ensures WordLength(s) == |w|
    decreases |w|
  {
    if w != [] {
      assert s[0] == w[0];
      assert s[1..][..|w| - 1] == w[1..];
      WordLengthOfToken(s[1..], w[1..]);
    }
  }

  lemma {:induction false} TokenInSplit(s: string, i: int, w: string)
    requires w != [] && NoSpace(w)
    requires TokenAt(s, i, w)
    ensures w in Split(s)
    decreases |s|
  {
    assert w[0] == s[i];
    if IsSpace(s[0]) {
      assert i > 0;
      TokenInSuffix(s, 1, i, w);
      TokenInSplit(s[1..], i - 1, w);
    } else {
      var n := WordLength(s);
      if i == 0 {
        assert s[..|w|] == w;
        WordLengthOfToken(s, w);
      } else {
        assert IsSpace(s[i - 1]);
        assert i > n;
        TokenInSuffix(s, n, i, w);
        TokenInSplit(s[n..], i - n, w);
      }
    }
  }

  /** `w in s.split()` holds exactly when `w` stands in `s` as a whitespace-delimited token. */
  lemma SplitContains(s: string, w: string)
    requires w != [] && NoSpace(w)
    ensures w in Split(s) <==> exists i :: TokenAt(s, i, w)
  {
    if w in Split(s) {
      SplitHasToken(s, w);
    }
    if exists i :: TokenAt(s, i, w) {
      var i :| TokenAt(s, i, w);
      TokenInSplit(s, i, w);
    }
  }

  // ---------------------------------------------------------------------------
  // re.sub('[...]', '', s): removal of every character of a class
  // ---------------------------------------------------------------------------

  /** A regular-expression character class: some listed characters, optionally with `\s`. */
  datatype CharClass = CharClass(chars: set<char>, spaces: bool)
  {
    predicate Has(c: char)
    {
      c in chars || (spaces && IsSpace(c))
    }
  }

  predicate Avoids(s: string, cls: CharClass)
  {
    forall i :: 0 <= i < |s| ==> !cls.Has(s[i])
  }

  /** re.sub('[cls]', '', s): every character of the class dropped, the others kept in order. */
  function RemoveChars(s: string, cls: CharClass): (r: string)
    ensures |r| <= |s|
    ensures Avoids(r, cls)
  {
    if s == [] then []
    else (if cls.Has(s[0]) then [] else [s[0]]) + RemoveChars(s[1..], cls)
  }

  /** Removal works piecewise: it distributes over concatenation. */
  lemma {:induction false} RemoveCharsAppend(a: string, b: string, cls: CharClass)
    ensures RemoveChars(a + b, cls) == RemoveChars(a, cls) + RemoveChars(b, cls)
  {
    if a == [] {
      assert a + b == b;
    } else {
      assert (a + b)[0] == a[0];
      assert (a + b)[1..] == a[1..] + b;
      RemoveCharsAppend(a[1..], b, cls);
    }
  }

  /** Text without a character of the class is left exactly as it is. */
  lemma {:induction false} RemoveCharsKeeps(s: string, cls: CharClass)
    requires Avoids(s, cls)
    ensures RemoveChars(s, cls) == s
  {
    if s != [] {
      RemoveCharsKeeps(s[1..], cls);
    }
  }

  lemma RemoveCharsIdempotent(s: string, cls: CharClass)
    ensures RemoveChars(RemoveChars(s, cls), cls) == RemoveChars(s, cls)
  {
    RemoveCharsKeeps(RemoveChars(s, cls), cls);
  }

  // ---------------------------------------------------------------------------
  // str.replace(old, new): one left-to-right pass over non-overlapping matches
  // ---------------------------------------------------------------------------

  function Replace(s: string, pat: string, rep: string): (r: string)
    requires pat != []
    decreases |s|
  {
    if |s| < |pat| then s
    else if s[..|pat|] == pat then rep + Replace(s[|pat|..], pat, rep)
    else [s[0]] + Replace(s[1..], pat, rep)
  }

  /** Text in which the pattern does not occur is returned unchanged. */
  lemma {:induction false} ReplaceAbsent(s: string, pat: string, rep: string)
    requires pat != [] && NoOccurrence(s, pat)
    ensures Replace(s, pat, rep) == s
    decreases |s|
  {
    if |s| >= |pat| {
      assert !OccursAt(s, 0, pat);
      assert s[..|pat|] == s[0..0 + |pat|];
      forall i | 0 <= i <= |s[1..]| - |pat|
        ensures !OccursAt(s[1..], i, pat)
      {
        assert s[1..][i..i + |pat|] == s[i + 1..i + 1 + |pat|];
        assert !OccursAt(s, i + 1, pat);
      }
      ReplaceAbsent(s[1..], pat, rep);
    }
  }

  /** A leading occurrence is replaced, and the pass continues right after it. */
  lemma ReplaceLeading(pat: string, rest: string, rep: string)
    requires pat != []
    ensures Replace(pat + rest, pat, rep) == rep + Replace(rest, pat, rep)
  {
    assert (pat + rest)[..|pat|] == pat;
    assert (pat + rest)[|pat|..] == rest;
  }

  /** A prefix in which no occurrence can start (none of its characters opens the pattern) is copied as it is. */
  lemma {:induction false} ReplaceCopies(a: string, rest: string, pat: string, rep: string)
    requires pat != []
    requires forall i :: 0 <= i < |a| ==> a[i] != pat[0]
    ensures Replace(a + rest, pat, rep) == a + Replace(rest, pat, rep)
    decreases |a|
  {
    if a == [] {
      assert a + rest == rest;
    } else {
      assert forall i :: 0 <= i < |a[1..]| ==> a[1..][i] != pat[0] by {
        assert forall i :: 0 <= i < |a[1..]| ==> a[1..][i] == a[i + 1];
      }
      ReplaceCopies(a[1..], rest, pat, rep);
      ConsAppend(a, rest);
      ReplaceCons(a[0], a[1..] + rest, pat, rep);
      ConsAppend(a, Replace(rest, pat, rep));
    }
  }

  /** A character that does not open the pattern is copied to the front of the replacement. */
  lemma ReplaceCons(c: char, x: string, pat: string, rep: string)
    requires pat != [] && c != pat[0]
    ensures Replace([c] + x, pat, rep) == [c] + Replace(x, pat, rep)
  {
    var s := [c] + x;
    assert s[1..] == x;
    if |s| >= |pat| {
      assert s[..|pat|][0] == c;
    } else {
      assert Replace(x, pat, rep) == x;
    }
  }

  /** Re-association of a sequence split at its head. */
  lemma ConsAppend(w: string, t: string)
    requires w != []
    ensures [w[0]] + (w[1..] + t) == w + t
  {
    assert w == [w[0]] + w[1..];
  }

  // ---------------------------------------------------------------------------
  // Decimal numbers: f-string rendering of a non-negative int, and int(text)
  // ---------------------------------------------------------------------------

  function DigitValue(c: char): nat
    requires IsDigit(c)
  {
    (c as int) - ('0' as int)
  }

  function DigitChar(d: nat): (c: char)
    requires d < 10
    ensures IsDigit(c) && DigitValue(c) == d
  {
    ('0' as int + d) as char
  }

  /** The value of a string of ASCII digits read in base ten. */
  function DecimalValue(d: string): nat
    requires AllDigits(d)
  {
    if d == [] then 0 else DecimalValue(d[..|d| - 1]) * 10 + DigitValue(d[|d| - 1])
  }

  /**
   * The decimal rendering of `n`, as `f"{n}"` produces it: digits only, no
   * leading zero except for zero itself, and reading it back gives `n`.
   */
  function Decimal(n: nat): (r: string)
    ensures r != [] && AllDigits(r)
    ensures r[0] == '0' ==> n == 0
    ensures DecimalValue(r) == n
  {
    if n < 10 then [DigitChar(n)]
    else
      var front := Decimal(n / 10);
      assert (front + [DigitChar(n % 10)])[..|front|] == front;
      front + [DigitChar(n % 10)]
  }

  /** The digit groups int() and float() accept: digits, single underscores between digits. */
  predicate DigitPart(s: string)
    decreases |s|
  {
    |s| > 0 && IsDigit(s[0])
    && (|s| == 1 || DigitPart(s[1..]) || (s[1] == '_' && DigitPart(s[2..])))
  }

  const Underscore: CharClass := CharClass({'_'}, false)

  lemma {:induction false} DigitPartDigits(s: string)
    requires DigitPart(s)
    ensures AllDigits(RemoveChars(s, Underscore))
    decreases |s|
  {
    if |s| > 1 {
      if DigitPart(s[1..]) {
        DigitPartDigits(s[1..]);
      } else {
        DigitPartDigits(s[2..]);
        assert s[1..][1..] == s[2..];
      }
    }
  }

  /** A non-empty digit string is a digit group. */
  lemma {:induction false} DigitsArePart(s: string)
    requires s != [] && AllDigits(s)
    ensures DigitPart(s)
    decreases |s|
  {
    if |s| > 1 {
      DigitsArePart(s[1..]);
    }
  }

  /**
   * The whitespace int() and float() skip around a number. CPython turns
   * every non-ASCII whitespace character into a space and then skips only
   * the ASCII space, tab, line feed, vertical tab, form feed and carriage
   * return; the separators U+001C to U+001F, which str.isspace() counts,
   * are not skipped.
   */
  predicate IsNumberSpace(c: char)
  {
    IsSpace(c) && !(0x1C <= c as int <= 0x1F)
  }

  /** Number of characters int() and float() skip at the front of `s`. */
  function LeadingBlanks(s: string): (n: nat)
    ensures n <= |s|
    ensures forall i :: 0 <= i < n ==> IsNumberSpace(s[i])
    ensures n < |s| ==> !IsNumberSpace(s[n])
  {
    if s != [] && IsNumberSpace(s[0]) then 1 + LeadingBlanks(s[1..]) else 0
  }

  /** Number of characters int() and float() skip at the back of `s`. */
  function TrailingBlanks(s: string): (n: nat)
    ensures n <= |s|
    ensures forall i :: |s| - n <= i < |s| ==> IsNumberSpace(s[i])
    ensures n < |s| ==> !IsNumberSpace(s[|s| - 1 - n])
  {
    if s != [] && IsNumberSpace(s[|s| - 1]) then 1 + TrailingBlanks(s[..|s| - 1]) else 0
  }

  /**
   * The text int() and float() read as a number: `s` without the
   * whitespace they skip at either end.
   */
  function NumberText(s: string): (r: string)
    ensures var i := LeadingBlanks(s);
      i + |r| <= |s| && r == s[i..i + |r|]
      && (forall k :: i + |r| <= k < |s| ==> IsNumberSpace(s[k]))
    ensures r != [] ==> !IsNumberSpace(r[0]) && !IsNumberSpace(r[|r| - 1])
  {
    var i := LeadingBlanks(s);
    var rest := s[i..];
    var j := TrailingBlanks(rest);
    NumberTextTail(s, i);
    rest[..|rest| - j]
  }

  /** What int() skips at the back of s[i..] is skipped whitespace at the back of `s`. */
  lemma NumberTextTail(s: string, i: nat)
    requires i <= |s|
    ensures var j := TrailingBlanks(s[i..]); forall k :: |s| - j <= k < |s| ==> IsNumberSpace(s[k])
  {
    var rest := s[i..];
    var j := TrailingBlanks(rest);
    forall k | |s| - j <= k < |s|
      ensures IsNumberSpace(s[k])
    {
      assert s[k] == rest[k - i];
    }
  }

  lemma {:induction false} NumberTextNoMargin(s: string)
    requires s == [] || (!IsNumberSpace(s[0]) && !IsNumberSpace(s[|s| - 1]))
    ensures NumberText(s) == s
  {
    assert LeadingBlanks(s) == 0;
  }

  /** int() and float() read a run of digits as it stands. */
  lemma DigitsAreNumberText(d: string)
    requires d != [] && AllDigits(d)
    ensures NumberText(d) == d
  {
    assert IsDigit(d[0]) && IsDigit(d[|d| - 1]);
    NumberTextNoMargin(d);
  }

  lemma {:induction false} LeadingBlanksAgree(s: string)
    requires forall i :: 0 <= i < |s| ==> !(0x1C <= s[i] as int <= 0x1F)
    ensures LeadingBlanks(s) == LeadingSpaces(s)
  {
    if s != [] {
      LeadingBlanksAgree(s[1..]);
    }
  }

  lemma {:induction false} TrailingBlanksAgree(s: string)
    requires forall i :: 0 <= i < |s| ==> !(0x1C <= s[i] as int <= 0x1F)
    ensures TrailingBlanks(s) == TrailingSpaces(s)
  {
    if s != [] {
      TrailingBlanksAgree(s[..|s| - 1]);
    }
  }

  /** On text without the separators U+001C to U+001F, int() and float() trim exactly what str.strip() does. */
  lemma NumberTextIsStrip(s: string)
    requires forall i :: 0 <= i < |s| ==> !(0x1C <= s[i] as int <= 0x1F)
    ensures NumberText(s) == Strip(s)
  {
    LeadingBlanksAgree(s);
    var i := LeadingSpaces(s);
    TrailingBlanksAgree(s[i..]);
  }

  /** A trailing U+001C is stripped by str.strip() but makes int() refuse the text. */
  lemma IntRefusesSeparator()
    ensures Strip("1\U{1C}") == "1"
    ensures ParseInt("1\U{1C}") == None
  {
    var s := "1\U{1C}";
    assert TrailingSpaces(s[..1]) == 0;
    assert Strip(s) == s[0..1];
    assert TrailingBlanks(s) == 0;
    assert NumberText(s) == s;
    assert !DigitPart(s[1..]);
  }

  /**
   * The most digits int() converts from decimal text: CPython's default
   * limit on integer string conversion (sys.int_info.default_max_str_digits).
   * Underscores do not count towards it.
   */
  const MaxStrDigits: nat := 4300

  /** 10 to the power `k`. */
  function Pow10(k: nat): (p: nat)
    ensures p >= 1
  {
    if k == 0 then 1 else 10 * Pow10(k - 1)
  }

  /** A natural number has at most `k` decimal digits exactly when it is below 10^k. */
  lemma {:induction false} DecimalLength(n: nat, k: nat)
    requires k >= 1
    ensures |Decimal(n)| <= k <==> n < Pow10(k)
    decreases n
  {
    var p := Pow10(k - 1);
    assert Pow10(k) == 10 * p;
    if n >= 10 {
      var front := Decimal(n / 10);
      assert |Decimal(n)| == |front| + 1;
      assert n < 10 * p <==> n / 10 < p;
      if k == 1 {
        assert |front| >= 1;
      } else {
        DecimalLength(n / 10, k - 1);
      }
    }
  }

  /**
   * Python's int(text) in base ten: the whitespace it skips ignored at
   * either end, an optional sign, then a digit group of at most
   * MaxStrDigits digits. None stands for the ValueError.
   */
  function ParseInt(s: string): (r: Option<int>)
  {
    var t := NumberText(s);
    var signed := t != [] && (t[0] == '+' || t[0] == '-');
    var body := if signed then t[1..] else t;
    if DigitPart(body) then
      DigitPartDigits(body);
      var digits := RemoveChars(body, Underscore);
      if |digits| > MaxStrDigits then None
      else
        var v: int := DecimalValue(digits);
        Some(if signed && t[0] == '-' then -v else v)
    else None
  }

  /**
   * Reading back the rendering of a count gives the count, int(f"{n}") == n,
   * as long as the count is below 10^4300; a longer rendering makes int()
   * raise ValueError.
   */
  lemma ParseIntDecimal(n: nat)
    ensures ParseInt(Decimal(n)) == if n < Pow10(MaxStrDigits) then Some(n) else None
  {
    ParseIntDigits(Decimal(n));
    DecimalLength(n, MaxStrDigits);
  }

  /** int() of a plain run of digits is its value, unless the run is longer than MaxStrDigits. */
  lemma ParseIntDigits(d: string)
    requires d != [] && AllDigits(d)
    ensures ParseInt(d) == if |d| <= MaxStrDigits then Some(DecimalValue(d)) else None
  {
    DigitsAreNumberText(d);
    assert d[0] != '+' && d[0] != '-';
    DigitsArePart(d);
    assert Avoids(d, Underscore);
    RemoveCharsKeeps(d, Underscore);
  }

  /** int() rejects text that holds no digit at all. */
  lemma {:induction false} ParseIntNeedsDigit(s: string)
    requires forall i :: 0 <= i < |s| ==> !IsDigit(s[i])
    ensures ParseInt(s) == None
  {
    var t := NumberText(s);
    var i := LeadingBlanks(s);
    assert forall k :: 0 <= k < |t| ==> t[k] == s[i + k];
  }

  // ---------------------------------------------------------------------------
  // float(text)
  // ---------------------------------------------------------------------------

  /** Length of the longest prefix of `s` that is a digit group (0 when none). */
  function DigitPartLength(s: string): (n: nat)
    ensures n <= |s|
    decreases |s|
  {
    if s == [] || !IsDigit(s[0]) then 0
    else if |s| >= 3 && s[1] == '_' && IsDigit(s[2]) then 2 + DigitPartLength(s[2..])
    else 1 + DigitPartLength(s[1..])
  }

  function AsciiLower(c: char): char
  {
    if 'A' <= c <= 'Z' then (c as int + 32) as char else c
  }

  function Lower(s: string): (r: string)
    ensures |r| == |s|
  {
    seq(|s|, i requires 0 <= i < |s| => AsciiLower(s[i]))
  }

  /** The exponent of a float literal: e or E, an optional sign, a digit group. */
  predicate Exponent(s: string)
  {
    |s| >= 2 && (s[0] == 'e' || s[0] == 'E')
    && var t := if s[1] == '+' || s[1] == '-' then s[2..] else s[1..];
       t != [] && DigitPartLength(t) == |t|
  }

  /**
   * The unsigned decimal literals float() accepts:
   * digits [ . [digits] ] [exponent]  or  . digits [exponent].
   */
  predicate UnsignedDecimal(s: string)
  {
    var a := DigitPartLength(s);
    var rest := s[a..];
    if rest != [] && rest[0] == '.' then
      var b := DigitPartLength(rest[1..]);
      (a > 0 || b > 0) && (rest[1 + b..] == [] || Exponent(rest[1 + b..]))
    else
      a > 0 && (rest == [] || Exponent(rest))
  }

  /** The text float() accepts once the whitespace it skips is trimmed: a signed decimal, inf, infinity or nan. */
  predicate FloatLiteral(t: string)
  {
    var body := if t != [] && (t[0] == '+' || t[0] == '-') then t[1..] else t;
    Lower(body) in {"inf", "infinity", "nan"} || UnsignedDecimal(body)
  }

  /** float(s) returns a number rather than raising ValueError. */
  predicate FloatAccepts(s: string)
  {
    FloatLiteral(NumberText(s))
  }

  lemma {:induction false} DigitPartLengthAll(s: string)
    requires AllDigits(s)
    ensures DigitPartLength(s) == |s|
    decreases |s|
  {
    if s != [] {
      DigitPartLengthAll(s[1..]);
      assert |s| >= 2 ==> IsDigit(s[1]);
    }
  }

  /** Digits, a point and digits make an unsigned decimal literal. */
  lemma PlainDecimalUnsigned(whole: string, frac: string)
    requires whole != [] && AllDigits(whole) && AllDigits(frac)
    ensures UnsignedDecimal(whole + "." + frac)
  {
    var s := whole + "." + frac;
    assert s[..|whole|] == whole;
    assert s[|whole|] == '.';
    DigitPartPrefix(s, |whole|);
    var rest := s[|whole|..];
    assert rest[1..] == frac;
    DigitPartLengthAll(frac);
    assert rest[1 + |frac|..] == [];
  }

  /** A plain run of digits (a count such as 1234) is accepted by float(). */
  lemma FloatAcceptsDigits(d: string)
    requires d != [] && AllDigits(d)
    ensures FloatAccepts(d)
  {
    DigitsAreNumberText(d);
    DigitPartLengthAll(d);
    assert d[|d|..] == [];
  }

  /** Digits, a point and digits (a plain price such as 1299.99) are accepted by float(). */
  lemma FloatAcceptsPlainDecimal(whole: string, frac: string)
    requires whole != [] && AllDigits(whole) && AllDigits(frac)
    ensures FloatAccepts(whole + "." + frac)
  {
    var s := whole + "." + frac;
    assert s[0] == whole[0] && IsDigit(s[0]);
    assert s[|s| - 1] == '.' || IsDigit(s[|s| - 1]);
    NumberTextNoMargin(s);
    PlainDecimalUnsigned(whole, frac);
  }

  /** The digit-group prefix stops at the first character that is neither digit nor underscore. */
  lemma {:induction false} DigitPartPrefix(s: string, n: nat)
    requires 0 < n < |s| && AllDigits(s[..n]) && !IsDigit(s[n]) && s[n] != '_'
    ensures DigitPartLength(s) == n
    decreases n
  {
    assert IsDigit(s[..n][0]);
    if n > 1 {
      assert s[1..][..n - 1] == s[1..n];
      assert AllDigits(s[1..][..n - 1]) by {
        forall k | 0 <= k < n - 1 ensures IsDigit(s[1..n][k]) {
          assert s[1..n][k] == s[..n][k + 1];
        }
      }
      DigitPartPrefix(s[1..], n - 1);
      assert s[1] != '_' by { assert s[1] == s[..n][1]; }
    }
  }
}
