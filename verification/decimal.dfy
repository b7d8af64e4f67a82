/**
 * Decimal notation: powers of ten, the digit string of a number, and the
 * subset of JavaScript's `parseInt(text)` (radix 10) that a numeric input
 * field can hand it: an optional sign followed by digits, reading the longest
 * digit prefix and ignoring whatever follows; text with no digit after the
 * sign parses to NaN, written `None` here.
 */
module Decimal {
  import opened Common

  function Pow10(n: nat): (p: nat)
    ensures p >= 1
  {
    if n == 0 then 1 else 10 * Pow10(n - 1)
  }

  predicate IsDigit(c: char)
  {
    '0' <= c <= '9'
  }

  function DigitValue(c: char): (d: nat)
    requires IsDigit(c)
    ensures d < 10
  {
    (c - '0') as nat
  }

  function DigitChar(d: nat): (c: char)
    requires d < 10
    ensures IsDigit(c) && DigitValue(c) == d
  {
    ('0' as int + d) as char
  }

  /** The value of a string of decimal digits, most significant first. */
  function DigitsValue(ds: string): (v: nat)
    requires forall k :: 0 <= k < |ds| ==> IsDigit(ds[k])
    ensures v < Pow10(|ds|)
  {
    if |ds| == 0 then 0
    else DigitsValue(ds[..|ds| - 1]) * 10 + DigitValue(ds[|ds| - 1])
  }

  /** The digits of `n` without leading zeros ("0" for zero). */
  function NatToDigits(n: nat): (ds: string)
    ensures |ds| >= 1
    ensures forall k :: 0 <= k < |ds| ==> IsDigit(ds[k])
    ensures DigitsValue(ds) == n
  {
    if n < 10 then [DigitChar(n)]
    else
      var ds := NatToDigits(n / 10) + [DigitChar(n % 10)];
      assert ds[..|ds| - 1] == NatToDigits(n / 10);
      ds
  }

  /** The decimal form of `n`, with a leading '-' when it is negative. */
  function IntToString(n: int): string
  {
    if n < 0 then "-" + NatToDigits(-n) else NatToDigits(n)
  }

  /** The number of leading characters of `s` that are digits. */
  function DigitPrefixLength(s: string): (len: nat)
    ensures len <= |s|
    ensures forall k :: 0 <= k < len ==> IsDigit(s[k])
    ensures len < |s| ==> !IsDigit(s[len])
  {
    if |s| == 0 || !IsDigit(s[0]) then 0 else 1 + DigitPrefixLength(s[1..])
  }

  /**
   * The value of the longest digit prefix of `body`; `None` when `body` does
   * not start with a digit.
   */
  function ParseUnsigned(body: string): (r: Option<nat>)
    ensures r.Some? <==> |body| > 0 && IsDigit(body[0])
  {
    var len := DigitPrefixLength(body);
    if len == 0 then None else Some(DigitsValue(body[..len]))
  }

  /** `text` without its leading '+' or '-', if it has one. */
  function AfterSign(text: string): string
  {
    if |text| > 0 && (text[0] == '-' || text[0] == '+') then text[1..] else text
  }

  /**
   * `parseInt(text)` for radix 10 on sign-and-digit input; `None` is NaN.
   * The text is a number exactly when a digit comes first, or right after
   * a leading sign.
   */
  function ParseInt(text: string): (r: Option<int>)
    ensures text == "" ==> r == None
    ensures r.Some? <==>
      || (|text| > 0 && IsDigit(text[0]))
      || (|text| > 1 && (text[0] == '-' || text[0] == '+') && IsDigit(text[1]))
  {
    match ParseUnsigned(AfterSign(text))
    case None => None
    case Some(magnitude) =>
      var value: int := if |text| > 0 && text[0] == '-' then -(magnitude as int) else magnitude;
      Some(value)
  }

  lemma {:induction false} DigitPrefixOfDigits(ds: string)
    requires forall k :: 0 <= k < |ds| ==> IsDigit(ds[k])
    ensures DigitPrefixLength(ds) == |ds|
  {
    if |ds| > 0 {
      DigitPrefixOfDigits(ds[1..]);
    }
  }

  /** The digit prefix of digits followed by a non-digit is exactly those digits. */
  lemma {:induction false} DigitPrefixBeforeRest(ds: string, rest: string)
    requires forall k :: 0 <= k < |ds| ==> IsDigit(ds[k])
    requires rest == [] || !IsDigit(rest[0])
    ensures DigitPrefixLength(ds + rest) == |ds|
  {
    if |ds| > 0 {
      assert (ds + rest)[1..] == ds[1..] + rest;
      DigitPrefixBeforeRest(ds[1..], rest);
    }
  }

  /** Digits `ds` then a `rest` that does not start with a digit read as the value of `ds`. */
  lemma {:induction false} ParseUnsignedOfDigitsThenRest(ds: string, rest: string)
    requires |ds| > 0 && forall k :: 0 <= k < |ds| ==> IsDigit(ds[k])
    requires rest == [] || !IsDigit(rest[0])
    ensures ParseUnsigned(ds + rest) == Some(DigitsValue(ds))
  {
    DigitPrefixBeforeRest(ds, rest);
    assert (ds + rest)[..|ds|] == ds;
  }

  /** The unsigned reading of what follows the sign, negated after a leading '-'. */
  lemma ParseIntBySign(text: string, m: nat)
    requires ParseUnsigned(AfterSign(text)) == Some(m)
    ensures ParseInt(text) == Some(if |text| > 0 && text[0] == '-' then -(m as int) else m as int)
  {
  }

  /** A sign in front of text with unsigned reading `m` reads as `m`, negated after '-'. */
  lemma {:induction false} ParseIntOfSigned(sign: char, after: string, m: nat)
    requires sign == '-' || sign == '+'
    requires ParseUnsigned(after) == Some(m)
    ensures ParseInt([sign] + after) == Some(if sign == '-' then -(m as int) else m as int)
  {
    assert ([sign] + after)[1..] == after;
    ParseIntBySign([sign] + after, m);
  }

  /**
   * `parseInt` reads the longest run of digits after an optional sign and
   * ignores whatever follows it: digits `ds` then a `rest` that does not
   * start with a digit parse to the value of `ds`.
   */
  lemma {:induction false} ParseIntOfDigitsThenRest(ds: string, rest: string)
    requires |ds| > 0 && forall k :: 0 <= k < |ds| ==> IsDigit(ds[k])
    requires rest == [] || !IsDigit(rest[0])
    ensures ParseInt(ds + rest) == Some(DigitsValue(ds) as int)
  {
    ParseUnsignedOfDigitsThenRest(ds, rest);
    assert (ds + rest)[0] == ds[0];
  }

  /** After a '+' the same digits parse to the same value, after a '-' to its negation. */
  lemma {:induction false} ParseIntOfSignedDigitsThenRest(sign: char, ds: string, rest: string)
    requires sign == '-' || sign == '+'
    requires |ds| > 0 && forall k :: 0 <= k < |ds| ==> IsDigit(ds[k])
    requires rest == [] || !IsDigit(rest[0])
    ensures ParseInt([sign] + (ds + rest)) == Some(if sign == '-' then -(DigitsValue(ds) as int) else DigitsValue(ds) as int)
  {
    ParseUnsignedOfDigitsThenRest(ds, rest);
    ParseIntOfSigned(sign, ds + rest, DigitsValue(ds));
  }

  /** Parsing the decimal form of any integer gives that integer back. */
  lemma ParseIntOfIntToString(n: int)
    ensures ParseInt(IntToString(n)) == Some(n)
  {
    var ds := NatToDigits(if n < 0 then -n else n);
    assert ds + [] == ds;
    if n < 0 {
      ParseIntOfSignedDigitsThenRest('-', ds, []);
      assert IntToString(n) == ['-'] + (ds + []);
    } else {
      ParseIntOfDigitsThenRest(ds, []);
    }
  }

  lemma {:induction false} PowMonotone(m: nat, n: nat)
    requires m <= n
    ensures Pow10(m) <= Pow10(n)
  {
    if m < n {
      PowMonotone(m, n - 1);
    }
  }

  /**
   * A positive number has exactly `d` decimal digits if and only if it lies
   * in [10^(d-1), 10^d - 1].
   */
  lemma {:induction false} DigitCountRange(n: nat, d: nat)
    requires n >= 1 && d >= 1
    ensures |NatToDigits(n)| == d <==> Pow10(d - 1) <= n < Pow10(d)
  {
    if n < 10 {
      if d >= 2 {
        PowMonotone(1, d - 1);
      }
    } else {
      assert |NatToDigits(n)| == |NatToDigits(n / 10)| + 1;
      if d > 1 {
        DigitCountRange(n / 10, d - 1);
        assert Pow10(d) == 10 * Pow10(d - 1);
        assert d - 1 >= 1 ==> Pow10(d - 1) == 10 * Pow10(d - 2);
      }
    }
  }
}
