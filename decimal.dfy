/** Decimal text of integers, as the firmware's `snprintf` produces it for a
    `%d` conversion: an optional minus sign followed by the digits of the
    magnitude, most significant first, with no leading zeros ("0" for zero).
    ParseNat and ParseInt read such text back; the lemmas below show that the
    two directions are inverse to each other and bound the length of the text
    of a 32-bit value. */
module Decimal {

  predicate IsDigit(c: char) {
    '0' <= c <= '9'
  }

  /** A digit string as `%d` writes a non-negative value: non-empty, digits
      only, and no leading zero unless the whole string is "0". */
  predicate IsCanonicalNat(s: string) {
    |s| >= 1 &&
    (forall i | 0 <= i < |s| :: IsDigit(s[i])) &&
    (|s| > 1 ==> s[0] != '0')
  }

  /** Text as `%d` writes a value: canonical digits, after a minus sign for a
      negative value (so never "-0"). */
  predicate IsIntText(s: string) {
    |s| >= 1 &&
    if s[0] == '-' then IsCanonicalNat(s[1..]) && s[1..] != "0" else IsCanonicalNat(s)
  }

  function DigitChar(d: nat): (c: char)
    requires d < 10
    ensures IsDigit(c)
    ensures DigitValue(c) == d
  {
    ('0' as int + d) as char
  }

  function DigitValue(c: char): (d: nat)
    requires IsDigit(c)
    ensures d < 10
  {
    c as int - '0' as int
  }

  /** The decimal text of a non-negative value. */
  function FormatNat(n: nat): (s: string)
    ensures IsCanonicalNat(s)
    ensures s == "0" <==> n == 0
    decreases n
  {
    if n < 10 then [DigitChar(n)] else FormatNat(n / 10) + [DigitChar(n % 10)]
  }

  /** The text `%d` produces for `n`. */
  function FormatInt(n: int): (s: string)
    ensures |s| >= 1
    ensures s[0] == '-' <==> n < 0
    ensures IsIntText(s)
  {
    if n < 0 then "-" + FormatNat(-n) else FormatNat(n)
  }

  /** The value of a string of digits, most significant digit first. */
  function ParseNat(s: string): (n: nat)
    requires forall i | 0 <= i < |s| :: IsDigit(s[i])
    decreases |s|
  {
    if s == [] then 0 else 10 * ParseNat(s[..|s| - 1]) + DigitValue(s[|s| - 1])
  }

  /** The value of `%d` text: a minus sign negates the digits after it. */
  function ParseInt(s: string): (n: int)
    requires IsIntText(s)
  {
    if s[0] == '-' then -(ParseNat(s[1..]) as int) else ParseNat(s)
  }

  /** The smallest value whose text has `k + 1` digits, 10^k. */
  function Pow10(k: nat): (p: nat)
    ensures p >= 1
  {
    if k == 0 then 1 else 10 * Pow10(k - 1)
  }

  lemma {:induction false} ParseFormatNat(n: nat)
    ensures ParseNat(FormatNat(n)) == n
    decreases n
  {
    var s := FormatNat(n);
    if n >= 10 {
      ParseFormatNat(n / 10);
      assert s[..|s| - 1] == FormatNat(n / 10);
    }
  }

  /** Reading back the text of any value gives that value. */
  lemma ParseFormatInt(n: int)
    ensures ParseInt(FormatInt(n)) == n
  {
    if n < 0 {
      ParseFormatNat(-n);
      assert FormatInt(n)[1..] == FormatNat(-n);
    } else {
      ParseFormatNat(n);
    }
  }

  /** Distinct values have distinct text. */
  lemma FormatIntInjective(m: int, n: int)
    requires FormatInt(m) == FormatInt(n)
    ensures m == n
  {
    ParseFormatInt(m);
    ParseFormatInt(n);
  }

  lemma {:induction false} ParseNatPositive(s: string)
    requires IsCanonicalNat(s) && s[0] != '0'
    ensures ParseNat(s) >= 1
    decreases |s|
  {
    if |s| > 1 {
      var t := s[..|s| - 1];
      assert t[0] == s[0];
      ParseNatPositive(t);
    } else {
      assert DigitValue(s[0]) != 0;
    }
  }

  /** The other direction: canonical digit text is the text of its value. */
  lemma {:induction false} FormatParseNat(s: string)
    requires IsCanonicalNat(s)
    ensures FormatNat(ParseNat(s)) == s
    decreases |s|
  {
    if |s| == 1 {
      assert [DigitChar(DigitValue(s[0]))] == s;
    } else {
      var t := s[..|s| - 1];
      var d := DigitValue(s[|s| - 1]);
      assert t[0] == s[0];
      assert IsCanonicalNat(t);
      ParseNatPositive(t);
      FormatParseNat(t);
      var n := ParseNat(s);
      assert n == 10 * ParseNat(t) + d;
      assert n / 10 == ParseNat(t) && n % 10 == d;
      assert FormatNat(n) == t + [DigitChar(d)];
      assert s == t + [s[|s| - 1]];
    }
  }

  /** The other direction for `%d` text: it is the text of its own value. */
  lemma FormatParseInt(s: string)
    requires IsIntText(s)
    ensures FormatInt(ParseInt(s)) == s
  {
    if s[0] == '-' {
      var m := ParseNat(s[1..]);
      FormatParseNat(s[1..]);
      assert m != 0;
      assert s == "-" + s[1..];
    } else {
      FormatParseNat(s);
    }
  }

  /** A value below 10^k has at most k digits (k >= 1). */
  lemma {:induction false} FormatNatLength(n: nat, k: nat)
    requires 1 <= k && n < Pow10(k)
    ensures |FormatNat(n)| <= k
    decreases k
  {
    if n >= 10 {
      assert Pow10(1) == 10;
      assert n / 10 < Pow10(k - 1);
      FormatNatLength(n / 10, k - 1);
    }
  }

  /** The text of any 32-bit signed value is at most 11 characters long:
      a sign and ten digits. */
  lemma FormatInt32Length(n: int)
    requires -0x8000_0000 <= n < 0x8000_0000
    ensures |FormatInt(n)| <= 11
  {
    assert Pow10(10) == 10_000_000_000 by {
      assert Pow10(5) == 100_000;
    }
    if n < 0 {
      FormatNatLength(-n, 10);
    } else {
      FormatNatLength(n, 10);
    }
  }

  /** A single digit value is written as that one digit. */
  lemma FormatDigit(n: nat)
    requires n < 10
    ensures FormatInt(n) == [DigitChar(n)]
  {
  }
}
