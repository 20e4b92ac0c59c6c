/** The string operations of the PHP runtime that the mailer relies on, with the
    meaning PHP gives them. A model string stands for a PHP byte string: each
    `char` is one byte of it. */
module PhpText {

  const CRLF: string := "\r\n"

  /* ---------------------------------------------------------------------- */
  /* Truthiness                                                               */
  /* ---------------------------------------------------------------------- */

  /** `empty()` on a string: true for "" and also for "0". */
  predicate Empty(s: string) {
    s == "" || s == "0"
  }

  /** A string used as a condition (`if ($s)`, `while ($s = ...)`). */
  predicate Truthy(s: string) {
    !Empty(s)
  }

  /** A string whose first character is not '0' is truthy exactly when it is non-empty. */
  lemma TruthyByFirstChar(s: string)
    requires |s| > 0 && s[0] != '0'
    ensures Truthy(s)
  {
  }

  /* ---------------------------------------------------------------------- */
  /* Sequences of strings                                                     */
  /* ---------------------------------------------------------------------- */

  /** `implode($sep, $parts)`: the parts with `sep` between neighbours. */
  function Implode(sep: string, parts: seq<string>): string
    decreases |parts|
  {
    if |parts| == 0 then ""
    else if |parts| == 1 then parts[0]
    else parts[0] + sep + Implode(sep, parts[1..])
  }

  /** Repeated `.=`: the parts one after another. */
  function Concat(parts: seq<string>): string
    decreases |parts|
  {
    if |parts| == 0 then "" else parts[0] + Concat(parts[1..])
  }

  /** `array_filter($xs)` without a callback: every falsy string is dropped,
      the others keep their order. */
  function DropFalsy(xs: seq<string>): (r: seq<string>)
    ensures |r| <= |xs|
    ensures forall i :: 0 <= i < |r| ==> Truthy(r[i])
    decreases |xs|
  {
    if |xs| == 0 then []
    else (if Truthy(xs[0]) then [xs[0]] else []) + DropFalsy(xs[1..])
  }

  lemma {:induction false} DropFalsyAppend(a: seq<string>, b: seq<string>)
    ensures DropFalsy(a + b) == DropFalsy(a) + DropFalsy(b)
    decreases |a|
  {
    if |a| == 0 {
      assert a + b == b;
    } else {
      assert (a + b)[1..] == a[1..] + b;
      DropFalsyAppend(a[1..], b);
    }
  }

  /** Filtering a list that has nothing falsy in it changes nothing. */
  lemma {:induction false} DropFalsyAllTruthy(xs: seq<string>)
    requires forall i :: 0 <= i < |xs| ==> Truthy(xs[i])
    ensures DropFalsy(xs) == xs
    decreases |xs|
  {
    if |xs| > 0 {
      DropFalsyAllTruthy(xs[1..]);
      assert [xs[0]] + xs[1..] == xs;
    }
  }

  lemma {:induction false} ConcatAppend(a: seq<string>, b: seq<string>)
    ensures Concat(a + b) == Concat(a) + Concat(b)
    decreases |a|
  {
    if |a| == 0 {
      assert a + b == b;
    } else {
      assert (a + b)[1..] == a[1..] + b;
      ConcatAppend(a[1..], b);
    }
  }

  /** The first part opens an imploded list. */
  lemma ImplodeStartsWithFirst(sep: string, parts: seq<string>)
    requires |parts| > 0
    ensures StartsWith(Implode(sep, parts), parts[0])
  {
  }

  /* ---------------------------------------------------------------------- */
  /* Searching                                                                */
  /* ---------------------------------------------------------------------- */

  predicate StartsWith(s: string, prefix: string) {
    |prefix| <= |s| && s[..|prefix|] == prefix
  }

  /** `strpos($hay, $needle) !== false`. */
  predicate Contains(hay: string, needle: string)
    decreases |hay|
  {
    StartsWith(hay, needle) || (|hay| > 0 && Contains(hay[1..], needle))
  }

  /** ASCII `strtolower` on one character. */
  function LowerChar(c: char): char {
    if 'A' <= c <= 'Z' then (c as int + 32) as char else c
  }

  /** `strtolower($s)`: ASCII upper-case letters become lower-case, every
      other byte is kept. */
  function ToLower(s: string): (r: string)
    ensures |r| == |s|
    ensures forall i :: 0 <= i < |s| ==> r[i] == LowerChar(s[i])
  {
    seq(|s|, i requires 0 <= i < |s| => LowerChar(s[i]))
  }

  lemma ToLowerAppend(a: string, b: string)
    ensures ToLower(a + b) == ToLower(a) + ToLower(b)
  {
    assert forall i :: 0 <= i < |a + b| ==> ToLower(a + b)[i] == (ToLower(a) + ToLower(b))[i];
  }

  /* ---------------------------------------------------------------------- */
  /* Integers and their decimal text                                          */
  /* ---------------------------------------------------------------------- */

  predicate IsDigit(c: char) {
    '0' <= c <= '9'
  }

  predicate AllDigits(s: string) {
    forall i :: 0 <= i < |s| ==> IsDigit(s[i])
  }

  function DigitChar(d: int): (c: char)
    requires 0 <= d < 10
    ensures IsDigit(c) && c as int - '0' as int == d
  {
    ('0' as int + d) as char
  }

  /** The decimal digits of `n`, most significant first, without leading zeros:
      what PHP interpolates for a non-negative int. */
  function DecimalString(n: nat): (r: string)
    ensures 0 < |r| && AllDigits(r)
    ensures n < 10 <==> |r| == 1
    decreases n
  {
    if n < 10 then [DigitChar(n)] else DecimalString(n / 10) + [DigitChar(n % 10)]
  }

  /** What PHP interpolates for an int, sign included. */
  function IntString(i: int): string {
    if i < 0 then "-" + DecimalString(-i) else DecimalString(i)
  }

  /** The number a string of decimal digits denotes. */
  function DigitsValue(s: string): nat
    requires AllDigits(s)
    decreases |s|
  {
    if |s| == 0 then 0
    else DigitsValue(s[..|s| - 1]) * 10 + (s[|s| - 1] as int - '0' as int)
  }

  /** Printing a number and reading the digits back gives the number. */
  lemma {:induction false} DecimalRoundTrip(n: nat)
    ensures DigitsValue(DecimalString(n)) == n
    decreases n
  {
    if n >= 10 {
      DecimalRoundTrip(n / 10);
      var s := DecimalString(n);
      assert s[..|s| - 1] == DecimalString(n / 10);
    }
  }

  /** Numbers from 100 to 999 print as exactly three digits. */
  lemma {:induction false} DecimalStringThreeDigits(n: nat)
    requires 100 <= n < 1000
    ensures |DecimalString(n)| == 3
  {
    assert 10 <= n / 10 < 100;
    assert 1 <= n / 100 < 10;
    assert DecimalString(n / 10) == DecimalString(n / 100) + [DigitChar((n / 10) % 10)];
  }

  /** The longest prefix of decimal digits. */
  function LeadingDigits(s: string): (r: string)
    ensures StartsWith(s, r) && AllDigits(r)
    ensures |r| == |s| || !IsDigit(s[|r|])
    decreases |s|
  {
    if |s| > 0 && IsDigit(s[0]) then [s[0]] + LeadingDigits(s[1..]) else ""
  }

  /** The blanks PHP skips before a number: space, \t, \n, \r, \v and \f. */
  predicate IsPhpBlank(c: char) {
    c == ' ' || c == '\t' || c == '\n' || c == '\r' || c == '\U{0B}' || c == '\U{0C}'
  }

  function SkipBlanks(s: string): (r: string)
    ensures |r| <= |s| && r == s[|s| - |r|..]
    ensures |r| == 0 || !IsPhpBlank(r[0])
    decreases |s|
  {
    if |s| > 0 && IsPhpBlank(s[0]) then SkipBlanks(s[1..]) else s
  }

  /** `(int)$s` for the strings the mailer casts: leading blanks, an optional
      sign, then the longest run of digits; 0 when there are no digits. */
  function IntCast(s: string): int {
    var t := SkipBlanks(s);
    if |t| > 0 && t[0] == '-' then 0 - DigitsValue(LeadingDigits(t[1..]))
    else if |t| > 0 && t[0] == '+' then DigitsValue(LeadingDigits(t[1..]))
    else DigitsValue(LeadingDigits(t))
  }

  /** Casting the printed form of a natural number gives the number back. */
  lemma IntCastDecimal(n: nat)
    ensures IntCast(DecimalString(n)) == n
  {
    IntCastDigits(DecimalString(n));
    DecimalRoundTrip(n);
  }

  /** A string of digits casts to the number it denotes. */
  lemma IntCastDigits(s: string)
    requires 0 < |s| && AllDigits(s)
    ensures IntCast(s) == DigitsValue(s)
  {
    assert IsDigit(s[0]);
    assert SkipBlanks(s) == s;
    LeadingDigitsAll(s);
  }

  lemma {:induction false} LeadingDigitsAll(s: string)
    requires AllDigits(s)
    ensures LeadingDigits(s) == s
    decreases |s|
  {
    if |s| > 0 {
      LeadingDigitsAll(s[1..]);
      assert [s[0]] + s[1..] == s;
    }
  }

  /* ---------------------------------------------------------------------- */
  /* Library filters                                                          */
  /* ---------------------------------------------------------------------- */

  /** A character `htmlspecialchars` leaves alone. */
  predicate NotSpecial(c: char) {
    c != '&' && c != '"' && c != '\'' && c != '<' && c != '>'
  }

  function EscapeChar(c: char): string {
    if c == '&' then "&amp;"
    else if c == '"' then "&quot;"
    else if c == '\'' then "&#039;"
    else if c == '<' then "&lt;"
    else if c == '>' then "&gt;"
    else [c]
  }

  /** `htmlspecialchars($s)` with PHP's default flags (ENT_QUOTES). */
  function HtmlEscape(s: string): (r: string)
    ensures |r| >= |s|
    ensures forall i :: 0 <= i < |r| ==> r[i] != '"' && r[i] != '\'' && r[i] != '<' && r[i] != '>'
    ensures (forall i :: 0 <= i < |s| ==> NotSpecial(s[i])) ==> r == s
    decreases |s|
  {
    if |s| == 0 then "" else EscapeChar(s[0]) + HtmlEscape(s[1..])
  }

  /** A character `filter_var(..., FILTER_SANITIZE_EMAIL)` keeps: ASCII letters,
      digits and !#$%&'*+-=?^_`{|}~@.[] */
  predicate EmailChar(c: char) {
    ('a' <= c <= 'z') || ('A' <= c <= 'Z') || IsDigit(c)
    || c in "!#$%&'*+-=?^_`{|}~@.[]"
  }

  /** `filter_var($email, FILTER_SANITIZE_EMAIL)`: every other character is removed. */
  function SanitizeEmail(s: string): (r: string)
    ensures |r| <= |s|
    ensures forall i :: 0 <= i < |r| ==> EmailChar(r[i])
    ensures (forall i :: 0 <= i < |s| ==> EmailChar(s[i])) ==> r == s
    decreases |s|
  {
    if |s| == 0 then ""
    else (if EmailChar(s[0]) then [s[0]] else []) + SanitizeEmail(s[1..])
  }

  /** Sanitizing twice is sanitizing once. */
  lemma SanitizeEmailIdempotent(s: string)
    ensures SanitizeEmail(SanitizeEmail(s)) == SanitizeEmail(s)
  {
  }

  /** A sanitized address holds no quote, angle bracket, blank or line break,
      so it cannot close `<...>` early or end an SMTP command line. */
  lemma SanitizedAddressIsInert(s: string)
    ensures forall i :: 0 <= i < |SanitizeEmail(s)| ==> Inert(SanitizeEmail(s)[i])
  {
    var r := SanitizeEmail(s);
    forall i | 0 <= i < |r|
      ensures Inert(r[i])
    {
      EmailCharInert(r[i]);
    }
  }

  /** Neither a quote, an angle bracket, a blank nor a line break. */
  predicate Inert(c: char) {
    c != '"' && c != '<' && c != '>' && c != ' ' && c != '\t' && c != '\r' && c != '\n'
  }

  lemma EmailCharInert(c: char)
    requires EmailChar(c)
    ensures Inert(c)
  {
  }
}
