/**
 * The few pieces of PHP's value semantics that the variant selection depends on:
 * how an integer id is written as a decimal string (the cookie value), how a
 * string used as an array index is converted to an integer key (the cookie
 * lookup), and which strings `empty()` treats as empty.
 */
module PhpStrings {
  import opened Options

  /** The largest integer key on a 64-bit PHP build. */
  const PHP_INT_MAX: nat := 9223372036854775807

  predicate IsDigit(c: char) {
    '0' <= c <= '9'
  }

  function DigitValue(c: char): (d: nat)
    requires IsDigit(c)
    ensures d < 10
  {
    c as int - '0' as int
  }

  function DigitChar(d: nat): (c: char)
    requires d < 10
    ensures IsDigit(c) && DigitValue(c) == d
  {
    ('0' as int + d) as char
  }

  predicate AllDigits(s: string) {
    forall i :: 0 <= i < |s| ==> IsDigit(s[i])
  }

  /** A numeral in PHP's canonical integer form: non-empty, no sign, no leading zero. */
  predicate CanonicalDigits(s: string) {
    && |s| > 0
    && AllDigits(s)
    && (s[0] == '0' ==> |s| == 1)
  }

  /** The value of a string of decimal digits. */
  function DigitsValue(s: string): nat
    requires AllDigits(s)
    decreases |s|
  {
    if |s| == 0 then 0 else 10 * DigitsValue(s[..|s| - 1]) + DigitValue(s[|s| - 1])
  }

  /** PHP's string conversion of a non-negative integer (used for ids in cookie names and values). */
  function NatToString(n: nat): (s: string)
    ensures CanonicalDigits(s)
    ensures s[0] == '0' <==> n == 0
    ensures DigitsValue(s) == n
    decreases n
  {
    if n < 10 then [DigitChar(n)]
    else
      var prefix := NatToString(n / 10);
      var s := prefix + [DigitChar(n % 10)];
      assert s[..|s| - 1] == prefix;
      s
  }

  /** A canonical numeral is the string conversion of its own value. */
  lemma {:induction false} CanonicalRoundTrip(s: string)
    requires CanonicalDigits(s)
    ensures NatToString(DigitsValue(s)) == s
    decreases |s|
  {
    if |s| > 1 {
      var prefix := s[..|s| - 1];
      assert CanonicalDigits(prefix);
      CanonicalRoundTrip(prefix);
      LeadingNonZeroIsPositive(prefix);
      var n := DigitsValue(s);
      assert n / 10 == DigitsValue(prefix) && n % 10 == DigitValue(s[|s| - 1]);
      assert DigitChar(DigitValue(s[|s| - 1])) == s[|s| - 1];
      assert s == prefix + [s[|s| - 1]];
    } else {
      assert DigitChar(DigitValue(s[0])) == s[0];
    }
  }

  /** A numeral that does not start with '0' has a positive value. */
  lemma {:induction false} LeadingNonZeroIsPositive(s: string)
    requires |s| > 0 && AllDigits(s) && s[0] != '0'
    ensures DigitsValue(s) > 0
    decreases |s|
  {
    if |s| > 1 {
      var prefix := s[..|s| - 1];
      assert prefix[0] == s[0];
      LeadingNonZeroIsPositive(prefix);
    }
  }

  /** The key a PHP array uses for an index given as a string. */
  datatype ArrayKey = IntKey(i: int) | StringKey(s: string)

  /**
   * PHP turns a string index into an integer key exactly when it is a
   * canonical decimal integer (optional '-', no leading zero, no "-0") that
   * fits a 64-bit integer; every other string stays a string key.
   */
  function ToArrayKey(s: string): (k: ArrayKey)
    ensures k.StringKey? ==> k.s == s
  {
    if CanonicalDigits(s) && DigitsValue(s) <= PHP_INT_MAX then
      IntKey(DigitsValue(s))
    else if 2 <= |s| && s[0] == '-' && CanonicalDigits(s[1..]) && s[1] != '0'
            && DigitsValue(s[1..]) <= PHP_INT_MAX + 1 then
      IntKey(-(DigitsValue(s[1..]) as int))
    else
      StringKey(s)
  }

  /** A string indexes the integer key of id `n` exactly when it is `n` written in decimal. */
  lemma KeyOfIdIff(s: string, n: nat)
    requires n <= PHP_INT_MAX
    ensures ToArrayKey(s) == IntKey(n) <==> s == NatToString(n)
  {
    if ToArrayKey(s) == IntKey(n) {
      if CanonicalDigits(s) && DigitsValue(s) <= PHP_INT_MAX {
        CanonicalRoundTrip(s);
      } else {
        LeadingNonZeroIsPositive(s[1..]);
      }
    }
  }

  /** PHP's `empty()` on a value read from the cookie jar: null, "" and "0" are empty. */
  predicate IsEmpty(v: Option<string>) {
    v.None? || v.value == "" || v.value == "0"
  }

  /** The string form of an id reads as non-empty exactly when the id is not 0. */
  lemma IdStringEmptyIff(n: nat)
    ensures IsEmpty(Some(NatToString(n))) <==> n == 0
  {
  }
}
