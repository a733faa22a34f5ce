/** String helpers with JavaScript semantics: `String.prototype.trim` and `Number.prototype.toString`. */
module Text {

  /**
   * The ECMAScript WhiteSpace and LineTerminator code points, which `trim` strips: tab to carriage
   * return, space, no-break space, ogham space mark, the spaces U+2000 to U+200A, the line and
   * paragraph separators, narrow no-break space, medium mathematical space, ideographic space and
   * the byte order mark.
   */
  predicate IsJsSpace(c: char)
  {
    || '\t' <= c <= '\r' || c == ' ' || c == '\U{00A0}' || c == '\U{1680}'
    || '\U{2000}' <= c <= '\U{200A}' || c == '\U{2028}' || c == '\U{2029}' || c == '\U{202F}'
    || c == '\U{205F}' || c == '\U{3000}' || c == '\U{FEFF}'
  }

  /** Index of the first non-space at or after `i`, or `|s|` when there is none. */
  function SkipSpaces(s: string, i: nat): (r: nat)
    requires i <= |s|
    ensures i <= r <= |s|
    decreases |s| - i
  {
    if i < |s| && IsJsSpace(s[i]) then SkipSpaces(s, i + 1) else i
  }

  /** SkipSpaces passes over white space only, and stops on a character that is not. */
  lemma {:induction false} SkipSpacesStops(s: string, i: nat)
    requires i <= |s|
    ensures forall k :: i <= k < SkipSpaces(s, i) ==> IsJsSpace(s[k])
    ensures SkipSpaces(s, i) < |s| ==> !IsJsSpace(s[SkipSpaces(s, i)])
    decreases |s| - i
  {
    if i < |s| && IsJsSpace(s[i]) {
      SkipSpacesStops(s, i + 1);
    }
  }

  /** Scanning back from `j` towards `lo`: the end of the last non-space, or `lo` when there is none. */
  function SkipSpacesBack(s: string, lo: nat, j: nat): (r: nat)
    requires lo <= j <= |s|
    ensures lo <= r <= j
  {
    if j > lo && IsJsSpace(s[j - 1]) then SkipSpacesBack(s, lo, j - 1) else j
  }

  /** SkipSpacesBack passes over white space only, and stops after a character that is not. */
  lemma {:induction false} SkipSpacesBackStops(s: string, lo: nat, j: nat)
    requires lo <= j <= |s|
    ensures forall k :: SkipSpacesBack(s, lo, j) <= k < j ==> IsJsSpace(s[k])
    ensures SkipSpacesBack(s, lo, j) > lo ==> !IsJsSpace(s[SkipSpacesBack(s, lo, j) - 1])
  {
    if j > lo && IsJsSpace(s[j - 1]) {
      SkipSpacesBackStops(s, lo, j - 1);
    }
  }

  /** Where the part `trim` keeps starts. */
  function TrimFrom(s: string): nat
  {
    SkipSpaces(s, 0)
  }

  /** Where the part `trim` keeps ends. */
  function TrimTo(s: string): nat
  {
    SkipSpacesBack(s, TrimFrom(s), |s|)
  }

  /** `s.trim()`. */
  function Trim(s: string): (trimmed: string)
  {
    s[TrimFrom(s)..TrimTo(s)]
  }

  /**
   * `trim` removes only white space, keeps a contiguous middle part of `s`, and leaves no white
   * space at either end.
   */
  lemma TrimStrips(s: string)
    ensures TrimFrom(s) <= TrimTo(s) <= |s| && Trim(s) == s[TrimFrom(s)..TrimTo(s)]
    ensures forall i :: 0 <= i < TrimFrom(s) ==> IsJsSpace(s[i])
    ensures forall i :: TrimTo(s) <= i < |s| ==> IsJsSpace(s[i])
    ensures Trim(s) != [] ==> !IsJsSpace(Trim(s)[0]) && !IsJsSpace(Trim(s)[|Trim(s)| - 1])
  {
    SkipSpacesStops(s, 0);
    SkipSpacesBackStops(s, TrimFrom(s), |s|);
  }

  /** A string with no white space at either end is left as it is. */
  lemma TrimOfTrimmed(s: string)
    requires s != [] ==> !IsJsSpace(s[0]) && !IsJsSpace(s[|s| - 1])
    ensures Trim(s) == s
  {
    assert TrimFrom(s) == 0;
    if s != [] {
      assert TrimTo(s) == |s|;
    }
  }

  /** Trimming twice is trimming once. */
  lemma TrimIdempotent(s: string)
    ensures Trim(Trim(s)) == Trim(s)
  {
    TrimStrips(s);
    TrimOfTrimmed(Trim(s));
  }

  /** `s.trim()` is empty exactly when `s` consists of white space only. */
  lemma TrimEmptyIff(s: string)
    ensures Trim(s) == [] <==> forall i :: 0 <= i < |s| ==> IsJsSpace(s[i])
  {
    TrimStrips(s);
    if Trim(s) == [] {
      assert TrimFrom(s) == TrimTo(s);
    } else {
      assert !IsJsSpace(s[TrimFrom(s)]);
    }
  }

  predicate IsDigit(c: char)
  {
    '0' <= c <= '9'
  }

  function DigitChar(d: nat): (c: char)
    requires d < 10
    ensures IsDigit(c)
  {
    "0123456789"[d]
  }

  function DigitValue(c: char): (d: nat)
    requires IsDigit(c)
    ensures d < 10
  {
    (c as int - '0' as int) as nat
  }

  /** `n.toString()` for a non-negative integer: decimal digits without leading zeros. */
  function DecimalString(n: nat): (r: string)
    ensures |r| >= 1 && forall i :: 0 <= i < |r| ==> IsDigit(r[i])
    ensures |r| > 1 ==> r[0] != '0'
  {
    if n < 10 then [DigitChar(n)] else DecimalString(n / 10) + [DigitChar(n % 10)]
  }

  /** The number a string of decimal digits denotes. */
  function DigitsValue(s: string): nat
    requires forall i :: 0 <= i < |s| ==> IsDigit(s[i])
  {
    if s == [] then 0 else DigitsValue(s[..|s| - 1]) * 10 + DigitValue(s[|s| - 1])
  }

  /** Reading the decimal string back gives the number again. */
  lemma {:induction false} DecimalRoundTrip(n: nat)
    ensures DigitsValue(DecimalString(n)) == n
  {
    var r := DecimalString(n);
    if n < 10 {
      assert r[..0] == [];
    } else {
      DecimalRoundTrip(n / 10);
      assert r[..|r| - 1] == DecimalString(n / 10);
    }
  }

  /** Distinct numbers have distinct decimal strings. */
  lemma DecimalInjective(m: nat, n: nat)
    requires DecimalString(m) == DecimalString(n)
    ensures m == n
  {
    DecimalRoundTrip(m);
    DecimalRoundTrip(n);
  }

  function Pow10(k: nat): nat
  {
    if k == 0 then 1 else 10 * Pow10(k - 1)
  }

  /** A number with k digits is written with exactly k characters. */
  lemma {:induction false} DecimalLength(n: nat, k: nat)
    requires k >= 1 && Pow10(k - 1) <= n < Pow10(k)
    ensures |DecimalString(n)| == k
  {
    if k > 1 {
      DecimalLength(n / 10, k - 1);
    }
  }

  /** Numbers from 10000 to 99999 are written with five digits, the first one not zero. */
  lemma FiveDigitCode(n: nat)
    requires 10000 <= n <= 99999
    ensures |DecimalString(n)| == 5 && DecimalString(n)[0] != '0'
  {
    assert Pow10(4) == 10000 && Pow10(5) == 100000;
    DecimalLength(n, 5);
  }
}
