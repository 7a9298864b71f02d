/**
 * The two JavaScript string built-ins the route layer relies on, modelled on
 * ECMA-262: `String.prototype.trim` (section 22.1.3.32, TrimString) and the
 * global `parseInt(string, 10)` (section 19.2.5). Both scan the string by
 * index, as the standard's algorithms do.
 */
module JsString {
  import opened Wrappers

  /** The WhiteSpace and LineTerminator code points of ECMA-262 (sections 12.2 and 12.3). */
  predicate IsWhitespace(c: char) {
    c == '\t' || c == '\n' || c == '\U{000B}' || c == '\U{000C}' || c == '\r' || c == ' '
    || c == '\U{00A0}' || c == '\U{1680}' || ('\U{2000}' <= c <= '\U{200A}')
    || c == '\U{2028}' || c == '\U{2029}' || c == '\U{202F}' || c == '\U{205F}'
    || c == '\U{3000}' || c == '\U{FEFF}'
  }

  predicate AllWhitespace(s: string) {
    forall i :: 0 <= i < |s| ==> IsWhitespace(s[i])
  }

  // ---------------------------------------------------------------------------
  // trim

  /** The index of the first character at or after `i` that is not white space, or `|s|`. */
  function SkipWhitespace(s: string, i: nat): (n: nat)
    requires i <= |s|
    ensures i <= n <= |s|
    ensures forall k :: i <= k < n ==> IsWhitespace(s[k])
    ensures n == |s| || !IsWhitespace(s[n])
    decreases |s| - i
  {
    if i < |s| && IsWhitespace(s[i]) then SkipWhitespace(s, i + 1) else i
  }

  /**
   * Scanning back from `j`, no further than `lo`: the index just past the last
   * character that is not white space, or `lo`.
   */
  function BackOverWhitespace(s: string, lo: nat, j: nat): (n: nat)
    requires lo <= j <= |s|
    ensures lo <= n <= j
    ensures forall k :: n <= k < j ==> IsWhitespace(s[k])
    ensures n == lo || !IsWhitespace(s[n - 1])
    decreases j
  {
    if lo < j && IsWhitespace(s[j - 1]) then BackOverWhitespace(s, lo, j - 1) else j
  }

  /** Skipping white space forward stops at the first character that is not white space. */
  lemma SkipWhitespaceAt(s: string, i: nat, n: nat)
    requires i <= n <= |s|
    requires forall k :: i <= k < n ==> IsWhitespace(s[k])
    requires n == |s| || !IsWhitespace(s[n])
    ensures SkipWhitespace(s, i) == n
  {
  }

  /** Scanning back over white space stops just past the last character that is not white space. */
  lemma BackOverWhitespaceAt(s: string, lo: nat, j: nat, n: nat)
    requires lo <= n <= j <= |s|
    requires forall k :: n <= k < j ==> IsWhitespace(s[k])
    requires n == lo || !IsWhitespace(s[n - 1])
    ensures BackOverWhitespace(s, lo, j) == n
  {
  }

  /** `s.trim()`: the text between the leading and the trailing white space. */
  function Trim(s: string): (r: string)
    ensures r == [] || (!IsWhitespace(r[0]) && !IsWhitespace(r[|r| - 1]))
  {
    var lo := SkipWhitespace(s, 0);
    s[lo..BackOverWhitespace(s, lo, |s|)]
  }

  /** Trim removes only white space: what it drops on either side of the result is white space. */
  lemma TrimSlice(s: string)
    ensures var lo := SkipWhitespace(s, 0); var hi := lo + |Trim(s)|;
      && hi <= |s| && Trim(s) == s[lo..hi]
      && (forall k :: 0 <= k < lo ==> IsWhitespace(s[k]))
      && (forall k :: hi <= k < |s| ==> IsWhitespace(s[k]))
  {
  }

  /**
   * The defining property of `trim`: whenever `s` splits into white space,
   * a piece that neither starts nor ends with white space, and white space,
   * `s.trim()` is that piece.
   */
  lemma TrimUnique(s: string, lo: nat, hi: nat)
    requires lo <= hi <= |s|
    requires forall k :: 0 <= k < lo ==> IsWhitespace(s[k])
    requires forall k :: hi <= k < |s| ==> IsWhitespace(s[k])
    requires lo == hi || (!IsWhitespace(s[lo]) && !IsWhitespace(s[hi - 1]))
    ensures Trim(s) == s[lo..hi]
  {
    if lo == hi {
      assert forall k :: 0 <= k < |s| ==> IsWhitespace(s[k]) by {
        forall k | 0 <= k < |s| ensures IsWhitespace(s[k]) {
          if k >= lo {
            assert hi <= k;
          }
        }
      }
      SkipWhitespaceAt(s, 0, |s|);
      BackOverWhitespaceAt(s, |s|, |s|, |s|);
    } else {
      SkipWhitespaceAt(s, 0, lo);
      BackOverWhitespaceAt(s, lo, |s|, hi);
    }
  }

  /** Trim yields the empty string exactly on all-white-space input. */
  lemma TrimEmptyIff(s: string)
    ensures Trim(s) == [] <==> AllWhitespace(s)
  {
    if AllWhitespace(s) {
      TrimUnique(s, 0, 0);
    } else {
      var lo := SkipWhitespace(s, 0);
      var k :| 0 <= k < |s| && !IsWhitespace(s[k]);
      assert lo <= k;
      assert Trim(s)[0] == s[lo];
    }
  }

  /** Trimming a trimmed string changes nothing. */
  lemma TrimIdempotent(s: string)
    ensures Trim(Trim(s)) == Trim(s)
  {
    var r := Trim(s);
    TrimUnique(r, 0, |r|);
    assert r[0..|r|] == r;
  }

  // ---------------------------------------------------------------------------
  // parseInt with radix 10

  predicate IsDigit(c: char) {
    '0' <= c <= '9'
  }

  predicate AllDigits(s: string) {
    forall i :: 0 <= i < |s| ==> IsDigit(s[i])
  }

  function DigitValue(c: char): (d: nat)
    requires IsDigit(c)
    ensures d < 10
  {
    (c as int) - ('0' as int)
  }

  function DigitChar(d: nat): (c: char)
    requires d < 10
    ensures IsDigit(c) && DigitValue(c) == d
  {
    ('0' as int + d) as char
  }

  /** The index of the first character at or after `i` that is not a decimal digit, or `|s|`. */
  function DigitRunEnd(s: string, i: nat): (n: nat)
    requires i <= |s|
    ensures i <= n <= |s|
    ensures forall k :: i <= k < n ==> IsDigit(s[k])
    ensures n == |s| || !IsDigit(s[n])
    decreases |s| - i
  {
    if i < |s| && IsDigit(s[i]) then DigitRunEnd(s, i + 1) else i
  }

  /** The mathematical value of a string of decimal digits, most significant first. */
  function DigitsValue(d: string): nat
    requires AllDigits(d)
  {
    if d == [] then 0 else DigitsValue(d[..|d| - 1]) * 10 + DigitValue(d[|d| - 1])
  }

  /**
   * `parseInt(s, 10)`: skip leading white space, take one optional sign, then
   * the longest run of decimal digits; `None` is NaN (no digit at all).
   */
  function ParseInt(s: string): (r: Option<int>)
    ensures var i := SkipWhitespace(s, 0);
      var j := if i < |s| && (s[i] == '+' || s[i] == '-') then i + 1 else i;
      && (r.None? <==> j == |s| || !IsDigit(s[j]))
      && (r.Some? && r.value < 0 ==> s[i] == '-')
  {
    ParseSigned(s[SkipWhitespace(s, 0)..])
  }

  /** Steps 4 to 16 of `parseInt`, on the text after the leading white space. */
  function ParseSigned(t: string): Option<int> {
    var start := if t != [] && (t[0] == '+' || t[0] == '-') then 1 else 0;
    var end := DigitRunEnd(t, start);
    if end == start then None
    else
      assert AllDigits(t[start..end]);
      if t[0] == '-' then Some(-(DigitsValue(t[start..end]) as int))
      else Some(DigitsValue(t[start..end]))
  }

  /** A digit run ends at the first character that is not a digit. */
  lemma DigitRunEndAt(s: string, i: nat, n: nat)
    requires i <= n <= |s|
    requires forall k :: i <= k < n ==> IsDigit(s[k])
    requires n == |s| || !IsDigit(s[n])
    ensures DigitRunEnd(s, i) == n
  {
  }

  /** Leading white space is skipped up to the first character that is not white space. */
  lemma ParseIntSkipsWhitespace(ws: string, t: string)
    requires AllWhitespace(ws)
    requires t == [] || !IsWhitespace(t[0])
    ensures ParseInt(ws + t) == ParseSigned(t)
  {
    var s := ws + t;
    assert forall k :: 0 <= k < |ws| ==> s[k] == ws[k];
    assert |ws| < |s| ==> s[|ws|] == t[0];
    SkipWhitespaceAt(s, 0, |ws|);
    assert s[|ws|..] == t;
  }

  /** After the optional sign, `parseInt` reads the whole digit run and stops at the first non-digit. */
  lemma ParseSignedRun(t: string, start: nat, end: nat)
    requires start == if t != [] && (t[0] == '+' || t[0] == '-') then 1 else 0
    requires start < end <= |t|
    requires forall k :: start <= k < end ==> IsDigit(t[k])
    requires end == |t| || !IsDigit(t[end])
    ensures AllDigits(t[start..end])
    ensures ParseSigned(t)
            == Some(if t[0] == '-' then -(DigitsValue(t[start..end]) as int) else DigitsValue(t[start..end]))
  {
    DigitRunEndAt(t, start, end);
  }

  /** A sign, digits and a tail that does not start with a digit: the value read is the digits'. */
  lemma ParseSignedDigits(sign: string, digits: string, rest: string)
    requires sign == "" || sign == "+" || sign == "-"
    requires digits != [] && AllDigits(digits)
    requires rest == [] || !IsDigit(rest[0])
    ensures ParseSigned(sign + digits + rest)
            == Some(if sign == "-" then -(DigitsValue(digits) as int) else DigitsValue(digits))
  {
    var t := sign + digits + rest;
    var start := |sign|;
    var end := start + |digits|;
    assert t[start..end] == digits;
    forall k | start <= k < end ensures IsDigit(t[k]) {
      assert t[k] == digits[k - start];
    }
    if end < |t| {
      assert t[end] == rest[0];
    }
    assert t[0] == if sign == "" then digits[0] else sign[0];
    ParseSignedRun(t, start, end);
  }

  /**
   * Every string of the form white space, optional sign, digits, then a
   * tail that does not start with a digit parses to the digits' value with
   * that sign (so `parseInt("12abc", 10)` is 12).
   */
  lemma ParseIntAccepts(ws: string, sign: string, digits: string, rest: string)
    requires AllWhitespace(ws)
    requires sign == "" || sign == "+" || sign == "-"
    requires digits != [] && AllDigits(digits)
    requires rest == [] || !IsDigit(rest[0])
    ensures ParseInt(ws + sign + digits + rest)
            == Some(if sign == "-" then -(DigitsValue(digits) as int) else DigitsValue(digits))
  {
    var t := sign + digits + rest;
    assert ws + sign + digits + rest == ws + t;
    assert t[0] == if sign == "" then digits[0] else sign[0];
    ParseIntSkipsWhitespace(ws, t);
    ParseSignedDigits(sign, digits, rest);
  }

  /**
   * Every string whose first character after the white space and the optional
   * sign is not a digit parses to NaN.
   */
  lemma ParseIntRejects(ws: string, sign: string, rest: string)
    requires AllWhitespace(ws)
    requires sign == "" || sign == "+" || sign == "-"
    requires rest == [] || !IsDigit(rest[0])
    requires sign == "" && rest != [] ==> !IsWhitespace(rest[0]) && rest[0] != '+' && rest[0] != '-'
    ensures ParseInt(ws + sign + rest) == None
  {
    var t := sign + rest;
    assert ws + sign + rest == ws + t;
    assert t != [] ==> t[0] == if sign == "" then rest[0] else sign[0];
    assert |sign| < |t| ==> t[|sign|] == rest[0];
    ParseIntSkipsWhitespace(ws, t);
    DigitRunEndAt(t, |sign|, |sign|);
  }

  /** Decimal digits of a natural number, most significant first, as JavaScript prints it. */
  function NatToDigits(n: nat): (d: string)
    ensures d != [] && AllDigits(d)
  {
    if n < 10 then [DigitChar(n)] else NatToDigits(n / 10) + [DigitChar(n % 10)]
  }

  /**
   * `String(n)` for an integer-valued Number `n` with |n| < 10^21 (the id a
   * client puts in a URL); from 10^21 on JavaScript prints exponent notation.
   */
  function Decimal(n: int): string {
    if n < 0 then "-" + NatToDigits(-n) else NatToDigits(n)
  }

  lemma {:induction false} DigitsValueOfNatToDigits(n: nat)
    ensures DigitsValue(NatToDigits(n)) == n
  {
    var d := NatToDigits(n);
    if n >= 10 {
      assert d[..|d| - 1] == NatToDigits(n / 10);
      DigitsValueOfNatToDigits(n / 10);
    }
  }

  /** Parsing a natural number printed in decimal, with an optional sign, gives it back. */
  lemma ParseIntSignedDigits(sign: string, n: nat)
    requires sign == "" || sign == "-"
    ensures ParseInt(sign + NatToDigits(n)) == Some(if sign == "-" then -(n as int) else n)
  {
    var digits := NatToDigits(n);
    DigitsValueOfNatToDigits(n);
    ParseIntAccepts("", sign, digits, "");
    assert "" + sign + digits + "" == sign + digits;
  }

  /** Parsing an integer that was printed in decimal gives the integer back. */
  lemma ParseIntDecimal(n: int)
    ensures ParseInt(Decimal(n)) == Some(n)
  {
    if n < 0 {
      ParseIntSignedDigits("-", -n);
    } else {
      ParseIntSignedDigits("", n);
      assert "" + NatToDigits(n) == Decimal(n);
    }
  }

  /** Worked case: text after the digits is ignored, so "12abc" reads as 12. */
  lemma ParseIntTrailingText()
    ensures ParseInt("12abc") == Some(12)
  {
    var digits := NatToDigits(12);
    assert digits == "12";
    DigitsValueOfNatToDigits(12);
    ParseIntAccepts("", "", digits, "abc");
    assert "" + "" + digits + "abc" == "12abc";
  }

  /** Worked case: a word with no leading digit is NaN. */
  lemma ParseIntWord()
    ensures ParseInt("abc") == None
  {
    ParseIntRejects("", "", "abc");
    assert "" + "" + "abc" == "abc";
  }
}
