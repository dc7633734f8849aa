/** String helpers with the semantics of the JavaScript and PHP built-ins the
    system uses: `String.prototype.trim`, stripping a trailing character class,
    `endsWith`, decimal rendering of integers (`%d`, template literals) and
    joining lines (`implode`). */
module Text {

  import opened Wrappers

  /** ECMAScript WhiteSpace and LineTerminator code points: the characters
      `String.prototype.trim` removes. */
  predicate IsJsWhitespace(c: char) {
    || c == '\t' || c == '\n' || c == '\U{000B}' || c == '\U{000C}' || c == '\r'
    || c == ' ' || c == '\U{00A0}' || c == '\U{1680}'
    || ('\U{2000}' <= c <= '\U{200A}')
    || c == '\U{2028}' || c == '\U{2029}' || c == '\U{202F}' || c == '\U{205F}'
    || c == '\U{3000}' || c == '\U{FEFF}'
  }

  /** `s` ends with `suffix` (JavaScript's `endsWith`). */
  predicate EndsWith(s: string, suffix: string) {
    |suffix| <= |s| && s[|s| - |suffix|..] == suffix
  }

  /** The longest prefix of `s` that does not end in a character satisfying `p`:
      every dropped character satisfies `p`. */
  function DropLastWhile(s: string, p: char -> bool): (r: string)
    ensures r <= s
    ensures |r| == 0 || !p(r[|r| - 1])
    ensures forall k :: |r| <= k < |s| ==> p(s[k])
  {
    if |s| > 0 && p(s[|s| - 1]) then DropLastWhile(s[..|s| - 1], p) else s
  }

  /** The length of the run of characters satisfying `p` at the start of `s`. */
  function LeadingRun(s: string, p: char -> bool): (n: nat)
    ensures n <= |s|
    ensures forall k :: 0 <= k < n ==> p(s[k])
    ensures n < |s| ==> !p(s[n])
  {
    if |s| > 0 && p(s[0]) then
      var n := 1 + LeadingRun(s[1..], p);
      assert forall k :: 1 <= k < n ==> s[k] == s[1..][k - 1];
      n
    else 0
  }

  /** The length of the run of characters satisfying `p` at the end of `s`. */
  function TrailingRun(s: string, p: char -> bool): (n: nat)
    ensures n <= |s|
    ensures forall k :: |s| - n <= k < |s| ==> p(s[k])
    ensures n < |s| ==> !p(s[|s| - n - 1])
  {
    if |s| > 0 && p(s[|s| - 1]) then
      var n := 1 + TrailingRun(s[..|s| - 1], p);
      assert forall k :: |s| - n <= k < |s| - 1 ==> s[k] == s[..|s| - 1][k];
      n
    else 0
  }

  /** `r` is `s[i..j]`, and every character outside that slice satisfies `p`. */
  predicate SliceWithin(s: string, r: string, i: int, j: int, p: char -> bool) {
    && 0 <= i <= j <= |s|
    && r == s[i..j]
    && (forall k :: 0 <= k < i ==> p(s[k]))
    && (forall k :: j <= k < |s| ==> p(s[k]))
  }

  /** `s` with its leading and trailing runs of characters satisfying `p` cut
      off. */
  function TrimWhile(s: string, p: char -> bool): (r: string)
    ensures |r| <= |s|
    ensures |r| == 0 || (!p(r[0]) && !p(r[|r| - 1]))
    ensures exists i, j :: SliceWithin(s, r, i, j, p)
    ensures |s| == 0 || (!p(s[0]) && !p(s[|s| - 1])) ==> r == s
  {
    var i := LeadingRun(s, p);
    var t := TrailingRun(s[i..], p);
    RunsCutSlice(s, p, i, t);
    s[i..|s| - t]
  }

  /** Cutting a leading run of `i` and a trailing run of `t` characters from
      `s` leaves a slice with both ends outside `p`, and nothing is cut when
      neither end of `s` satisfies `p`. */
  lemma RunsCutSlice(s: string, p: char -> bool, i: nat, t: nat)
    requires i <= |s|
    requires forall k :: 0 <= k < i ==> p(s[k])
    requires i < |s| ==> !p(s[i])
    requires t <= |s| - i
    requires forall k :: |s| - i - t <= k < |s| - i ==> p(s[i..][k])
    requires t < |s| - i ==> !p(s[i..][|s| - i - t - 1])
    ensures SliceWithin(s, s[i..|s| - t], i, |s| - t, p)
    ensures |s| - t == i || (!p(s[i]) && !p(s[|s| - t - 1]))
    ensures |s| == 0 || (!p(s[0]) && !p(s[|s| - 1])) ==> s[i..|s| - t] == s
  {
    var j := |s| - t;
    forall k | j <= k < |s|
      ensures p(s[k])
    {
      assert s[k] == s[i..][k - i];
    }
    if i < j {
      assert s[j - 1] == s[i..][|s| - i - t - 1];
    }
    if |s| > 0 && !p(s[0]) && !p(s[|s| - 1]) {
      assert i == 0;
      assert t == 0;
      assert s[0..|s|] == s;
    }
  }

  /** JavaScript's `String.prototype.trim`: `s` with its leading and trailing
      whitespace cut off. */
  function Trim(s: string): (r: string)
    ensures |r| <= |s|
    ensures |r| == 0 || (!IsJsWhitespace(r[0]) && !IsJsWhitespace(r[|r| - 1]))
    ensures exists i, j :: SliceWithin(s, r, i, j, IsJsWhitespace)
    ensures |s| == 0 || (!IsJsWhitespace(s[0]) && !IsJsWhitespace(s[|s| - 1])) ==> r == s
  {
    TrimWhile(s, IsJsWhitespace)
  }

  predicate IsDigit(c: char) {
    '0' <= c <= '9'
  }

  predicate AllDigits(s: string) {
    forall k :: 0 <= k < |s| ==> IsDigit(s[k])
  }

  /** The decimal value of a string of digits: the reference reading against
      which rendering is checked. */
  function DigitsValue(s: string): nat
    requires AllDigits(s)
  {
    if |s| == 0 then 0
    else DigitsValue(s[..|s| - 1]) * 10 + (s[|s| - 1] as int - '0' as int)
  }

  function DigitChar(d: nat): (c: char)
    requires d < 10
    ensures IsDigit(c) && c as int - '0' as int == d
  {
    (d + '0' as int) as char
  }

  /** Decimal rendering of a natural number, without leading zeros. */
  function NatToString(n: nat): (r: string)
    ensures |r| > 0 && AllDigits(r)
    ensures DigitsValue(r) == n
    ensures r[0] == '0' ==> r == "0"
  {
    if n < 10 then [DigitChar(n)]
    else
      var r := NatToString(n / 10) + [DigitChar(n % 10)];
      assert r[..|r| - 1] == NatToString(n / 10);
      r
  }

  /** Decimal rendering of an integer, with a leading `-` when negative
      (PHP's `%d`, JavaScript's number-to-string for integers). */
  function IntToString(i: int): (r: string)
    ensures |r| > 0
    ensures i < 0 <==> r[0] == '-'
  {
    if i < 0 then "-" + NatToString(-i) else NatToString(i)
  }

  /** Reads an optionally negative decimal integer; the partner of `IntToString`. */
  function ParseInt(s: string): Option<int> {
    if |s| > 0 && s[0] == '-' then
      if |s| > 1 && AllDigits(s[1..]) then
        var magnitude: int := DigitsValue(s[1..]);
        Some(-magnitude)
      else None
    else if |s| > 0 && AllDigits(s) then Some(DigitsValue(s))
    else None
  }

  /** Rendering an integer and reading it back gives the integer. */
  lemma IntToStringRoundTrip(i: int)
    ensures ParseInt(IntToString(i)) == Some(i)
  {
    if i < 0 {
      var s := IntToString(i);
      assert s[1..] == NatToString(-i);
    }
  }

  /** `xs` joined with `sep` between consecutive elements (PHP's `implode`,
      JavaScript's `join`). */
  function Join(xs: seq<string>, sep: string): (r: string)
  {
    if |xs| == 0 then ""
    else if |xs| == 1 then xs[0]
    else xs[0] + sep + Join(xs[1..], sep)
  }

  /** `s` cut at every occurrence of `c`; the partner of `Join`. */
  function Split(s: string, c: char): (r: seq<string>)
    ensures |r| > 0
  {
    if |s| == 0 then [""]
    else
      var rest := Split(s[1..], c);
      if s[0] == c then [""] + rest
      else [[s[0]] + rest[0]] + rest[1..]
  }

  /** A piece without the separator followed by the separator splits off whole. */
  lemma {:induction false} SplitPiece(a: string, b: string, c: char)
    requires c !in a
    ensures Split(a + [c] + b, c) == [a] + Split(b, c)
    decreases |a|
  {
    if |a| == 0 {
      assert a + [c] + b == [c] + b;
      assert ([c] + b)[1..] == b;
    } else {
      assert (a + [c] + b)[1..] == a[1..] + [c] + b;
      SplitPiece(a[1..], b, c);
      assert [a[0]] + a[1..] == a;
    }
  }

  /** A string without the separator splits into itself alone. */
  lemma {:induction false} SplitWhole(a: string, c: char)
    requires c !in a
    ensures Split(a, c) == [a]
    decreases |a|
  {
    if |a| > 0 {
      SplitWhole(a[1..], c);
      assert [a[0]] + a[1..] == a;
    }
  }

  /** Splitting at the separator recovers the joined pieces, provided no piece
      contains the separator. */
  lemma {:induction false} SplitJoin(xs: seq<string>, c: char)
    requires |xs| > 0
    requires forall k :: 0 <= k < |xs| ==> c !in xs[k]
    ensures Split(Join(xs, [c]), c) == xs
    decreases |xs|
  {
    if |xs| == 1 {
      SplitWhole(xs[0], c);
    } else {
      SplitPiece(xs[0], Join(xs[1..], [c]), c);
      SplitJoin(xs[1..], c);
      assert [xs[0]] + xs[1..] == xs;
    }
  }
}
