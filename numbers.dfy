/**
 * The two number conversions the listing page performs on filter values:
 * `parseInt` of a decimal string, and the decimal text that a template
 * literal produces for an integer (`NaN` when `parseInt` found no digits).
 */
module Numbers {
  import opened Wrappers
  import Text

  predicate IsDigit(c: char) {
    '0' <= c <= '9'
  }

  predicate AllDigits(s: string) {
    forall k :: 0 <= k < |s| ==> IsDigit(s[k])
  }

  function DigitValue(c: char): (d: nat)
    requires IsDigit(c)
    ensures d < 10
  {
    c as int - '0' as int
  }

  function DigitChar(d: nat): (c: char)
    requires d < 10
    ensures IsDigit(c) && DigitValue(c) == d
  {
    ('0' as int + d) as char
  }

  /** The value of a string of decimal digits, most significant first. */
  function DigitsValue(s: string): nat
    requires AllDigits(s)
  {
    if s == [] then 0 else DigitsValue(s[..|s| - 1]) * 10 + DigitValue(s[|s| - 1])
  }

  /** The decimal text of `n`: non-empty, all digits, no leading zero. */
  function NatToString(n: nat): (s: string)
    ensures |s| >= 1 && AllDigits(s)
    ensures s[0] == '0' ==> n == 0
  {
    if n < 10 then [DigitChar(n)] else NatToString(n / 10) + [DigitChar(n % 10)]
  }

  /** The text of an integer in a template literal: a minus sign, then the digits. */
  function IntToString(n: int): (s: string)
    ensures |s| >= 1 && (s[0] == '-' <==> n < 0)
    ensures AllDigits(if n < 0 then s[1..] else s)
  {
    if n < 0 then "-" + NatToString(-n) else NatToString(n)
  }

  /** The text of a number that may be NaN, with `None` standing for NaN. */
  function NumberToString(n: Option<int>): string {
    match n
    case Some(v) => IntToString(v)
    case None => "NaN"
  }

  /** The run of decimal digits at the start of `s` (see `DigitPrefixIsLongestRun`). */
  function DigitPrefix(s: string): (r: string)
    ensures |r| <= |s| && AllDigits(r)
  {
    if s != [] && IsDigit(s[0]) then [s[0]] + DigitPrefix(s[1..]) else []
  }

  /** The digit run is a prefix of `s`, and the character after it, if any, is not a digit. */
  lemma {:induction false} DigitPrefixIsLongestRun(s: string)
    ensures DigitPrefix(s) == s[..|DigitPrefix(s)|]
    ensures |DigitPrefix(s)| < |s| ==> !IsDigit(s[|DigitPrefix(s)|])
  {
    if s != [] && IsDigit(s[0]) {
      DigitPrefixIsLongestRun(s[1..]);
    }
  }

  /**
   * `parseInt(s)` in base ten: leading white space is skipped, one sign is
   * read, then the longest run of digits; `None` (NaN) when there is none.
   */
  function ParseInt(s: string): (r: Option<int>)
    ensures s == [] ==> r == None
    ensures s != [] && IsDigit(s[0]) ==> r.Some? && r.value >= 0
    ensures s != [] && s[0] == '-' && |s| >= 2 && IsDigit(s[1]) ==> r.Some? && r.value <= 0
    ensures s != [] && !IsDigit(s[0]) && !Text.IsWhitespace(s[0]) && s[0] != '-' && s[0] != '+' ==> r == None
  {
    var t := Text.TrimStart(s);
    var body := SignedBody(t);
    var ds := DigitPrefix(body);
    var magnitude: int := if ds == [] then 0 else DigitsValue(ds);
    if ds == [] then None
    else if t[0] == '-' then Some(-magnitude)
    else Some(magnitude)
  }

  /** What follows an optional leading sign. */
  function SignedBody(t: string): (r: string)
    ensures r == t || (t != [] && (t[0] == '-' || t[0] == '+') && r == t[1..])
  {
    if t != [] && (t[0] == '-' || t[0] == '+') then t[1..] else t
  }

  /** The digits written by `NatToString` read back as the number. */
  lemma {:induction false} NatToStringValue(n: nat)
    ensures DigitsValue(NatToString(n)) == n
  {
    if n >= 10 {
      NatToStringValue(n / 10);
      var s := NatToString(n);
      assert s[..|s| - 1] == NatToString(n / 10);
    }
  }

  /** A digit run followed by a non-digit (or nothing) is exactly the digit prefix. */
  lemma {:induction false} DigitPrefixOfDigits(ds: string, rest: string)
    requires AllDigits(ds)
    requires rest == [] || !IsDigit(rest[0])
    ensures DigitPrefix(ds + rest) == ds
  {
    if ds != [] {
      assert (ds + rest)[1..] == ds[1..] + rest;
      DigitPrefixOfDigits(ds[1..], rest);
      assert [ds[0]] + ds[1..] == ds;
    } else {
      assert ds + rest == rest;
    }
  }

  /** A string starting with a non-white-space character has nothing for `parseInt` to skip. */
  lemma NothingToSkip(s: string)
    requires s != [] && !Text.IsWhitespace(s[0])
    ensures Text.TrimStart(s) == s
  {
    assert Text.SkipLeading(s, 0) == 0;
  }

  /** Unsigned digits followed by a non-digit (or nothing) parse to their value. */
  lemma ParseIntOfDigits(digits: string, rest: string)
    requires digits != [] && AllDigits(digits)
    requires rest == [] || !IsDigit(rest[0])
    ensures ParseInt(digits + rest) == Some(DigitsValue(digits))
  {
    var s := digits + rest;
    assert s[0] == digits[0];
    NothingToSkip(s);
    assert SignedBody(s) == s;
    DigitPrefixOfDigits(digits, rest);
  }

  /** What follows the one-character head of a concatenation. */
  lemma SignSplit<T>(head: seq<T>, body: seq<T>, rest: seq<T>)
    requires |head| == 1
    ensures (head + body + rest)[0] == head[0] && (head + body + rest)[1..] == body + rest
  {
  }

  /** A minus sign, then digits followed by a non-digit (or nothing), parse to the negated value. */
  lemma ParseIntOfNegative(s: string, digits: string, rest: string)
    requires digits != [] && AllDigits(digits)
    requires rest == [] || !IsDigit(rest[0])
    requires s != [] && s[0] == '-' && s[1..] == digits + rest
    ensures ParseInt(s) == Some(-(DigitsValue(digits) as int))
  {
    NothingToSkip(s);
    assert SignedBody(s) == digits + rest;
    DigitPrefixOfDigits(digits, rest);
  }

  /** The text of a negative integer parses back to it. */
  lemma ParseIntOfNegativeText(n: int, rest: string)
    requires n < 0
    requires rest == [] || !IsDigit(rest[0])
    ensures ParseInt(IntToString(n) + rest) == Some(n)
  {
    var digits := NatToString(-n);
    assert IntToString(n) == "-" + digits;
    SignSplit("-", digits, rest);
    NatToStringValue(-n);
    assert -(DigitsValue(digits) as int) == n;
    ParseIntOfNegative(IntToString(n) + rest, digits, rest);
  }

  /** The text of a non-negative integer parses back to it. */
  lemma ParseIntOfNatText(n: nat, rest: string)
    requires rest == [] || !IsDigit(rest[0])
    ensures ParseInt(IntToString(n) + rest) == Some(n)
  {
    NatToStringValue(n);
    ParseIntOfDigits(NatToString(n), rest);
  }

  /**
   * `parseInt` reads back the text of any integer, and ignores whatever
   * follows it from the first non-digit on.
   */
  lemma ParseIntToString(n: int, rest: string)
    requires rest == [] || !IsDigit(rest[0])
    ensures ParseInt(IntToString(n) + rest) == Some(n)
  {
    if n < 0 {
      ParseIntOfNegativeText(n, rest);
    } else {
      ParseIntOfNatText(n, rest);
    }
  }
}
