/**
 * Decimal numerals as the quiz loader reads and writes them: a restricted
 * model of Python's `int(text)` (an optional sign followed by one or more
 * ASCII digits) and of `str(n)` for integers.
 */
module Decimal {
  import opened Wrappers

  predicate IsDigit(c: char) {
    '0' <= c <= '9'
  }

  predicate AllDigits(s: string) {
    forall i :: 0 <= i < |s| ==> IsDigit(s[i])
  }

  function DigitValue(c: char): (d: nat)
    requires IsDigit(c)
    ensures d < 10
  {
    (c as int) - ('0' as int)
  }

  function DigitChar(d: nat): (c: char)
    requires d < 10
    ensures IsDigit(c) && DigitValue(c) == d
  {
    (('0' as int) + d) as char
  }

  /** The value of a run of digits, read left to right; None unless `s` is a non-empty run of digits. */
  function ParseDigits(s: string): (r: Option<nat>)
    ensures r.Some? <==> |s| > 0 && AllDigits(s)
    decreases |s|
  {
    if |s| == 0 || !IsDigit(s[|s| - 1]) then None
    else if |s| == 1 then Some(DigitValue(s[0]))
    else
      match ParseDigits(s[..|s| - 1])
      case None => None
      case Some(v) => Some(10 * v + DigitValue(s[|s| - 1]))
  }

  /** A sign character that `int()` accepts in front of the digits. */
  predicate IsSign(c: char) {
    c == '+' || c == '-'
  }

  /**
   * The restricted `int()`: an optional '+' or '-' and then digits. Leading
   * zeros are accepted, as Python's `int("007") == 7`.
   */
  function ParseInt(s: string): (r: Option<int>)
    ensures r.Some? <==> (|s| > 0 && AllDigits(s)) || (|s| > 1 && IsSign(s[0]) && AllDigits(s[1..]))
    ensures |s| > 0 && s[0] == '-' && r.Some? ==> r.value <= 0
    ensures (|s| == 0 || s[0] != '-') && r.Some? ==> r.value >= 0
  {
    if |s| > 0 && IsSign(s[0]) then
      match ParseDigits(s[1..])
      case None => None
      case Some(v) => Some(if s[0] == '-' then -(v as int) else v as int)
    else
      ParseDigits(s)
  }

  /** Python's `str(n)` for a non-negative integer: digits, most significant first, no leading zero. */
  function NatToString(n: nat): (s: string)
    ensures |s| > 0 && AllDigits(s)
    ensures |s| > 1 ==> s[0] != '0'
  {
    if n < 10 then [DigitChar(n)] else NatToString(n / 10) + [DigitChar(n % 10)]
  }

  /** Python's `str(n)` for any integer. */
  function IntToString(n: int): (s: string)
    ensures |s| > 0
    ensures s[0] == '-' <==> n < 0
  {
    if n < 0 then "-" + NatToString(-n) else NatToString(n)
  }

  lemma {:induction false} ParseDigitsOfNatToString(n: nat)
    ensures ParseDigits(NatToString(n)) == Some(n)
  {
    if n >= 10 {
      var s := NatToString(n);
      assert s[..|s| - 1] == NatToString(n / 10);
      ParseDigitsOfNatToString(n / 10);
    }
  }

  /** `int(str(n)) == n`: the parser reads back every numeral the formatter writes. */
  lemma ParseIntOfIntToString(n: int)
    ensures ParseInt(IntToString(n)) == Some(n)
  {
    if n < 0 {
      var digits := NatToString(-n);
      assert IntToString(n) == "-" + digits;
      assert ("-" + digits)[1..] == digits;
      ParseDigitsOfNatToString(-n);
    } else {
      var digits := NatToString(n);
      assert IsDigit(digits[0]) && !IsSign(digits[0]);
      ParseDigitsOfNatToString(n);
    }
  }

  /** Leading zeros do not change the value read. */
  lemma {:induction false} LeadingZeroIgnored(s: string)
    requires |s| > 0 && AllDigits(s)
    ensures ParseDigits("0" + s) == ParseDigits(s)
    decreases |s|
  {
    var t := "0" + s;
    if |s| > 1 {
      assert t[..|t| - 1] == "0" + s[..|s| - 1];
      LeadingZeroIgnored(s[..|s| - 1]);
    } else {
      assert t[..|t| - 1] == "0";
    }
  }

  /** A digit run as `str` writes it: no leading zero unless the run is the single digit 0. */
  predicate CanonicalDigits(s: string) {
    |s| > 0 && AllDigits(s) && (|s| > 1 ==> s[0] != '0')
  }

  /** A numeral as `str` writes it: canonical digits, or '-' and canonical digits other than "0". */
  predicate CanonicalNumeral(s: string) {
    CanonicalDigits(s) || (|s| > 1 && s[0] == '-' && CanonicalDigits(s[1..]) && s[1..] != "0")
  }

  lemma {:induction false} NatToStringOfParseDigits(s: string)
    requires CanonicalDigits(s)
    ensures ParseDigits(s).Some? && NatToString(ParseDigits(s).value) == s
    decreases |s|
  {
    if |s| == 1 {
      assert DigitChar(DigitValue(s[0])) == s[0];
      assert [s[0]] == s;
    } else {
      var init := s[..|s| - 1];
      assert init[0] == s[0];
      NatToStringOfParseDigits(init);
      var v := ParseDigits(init).value;
      var d := DigitValue(s[|s| - 1]);
      var n := 10 * v + d;
      assert n / 10 == v && n % 10 == d;
      assert DigitChar(d) == s[|s| - 1];
      assert NatToString(n) == init + [s[|s| - 1]];
      assert init + [s[|s| - 1]] == s;
    }
  }

  /** `str(int(s)) == s` for every numeral without a '+', a leading zero or a "-0". */
  lemma IntToStringOfParseInt(s: string)
    requires CanonicalNumeral(s)
    ensures ParseInt(s).Some? && IntToString(ParseInt(s).value) == s
  {
    if CanonicalDigits(s) {
      assert !IsSign(s[0]);
      NatToStringOfParseDigits(s);
    } else {
      var digits := s[1..];
      NatToStringOfParseDigits(digits);
      var v := ParseDigits(digits).value;
      assert ParseInt(s) == Some(-(v as int));
      assert "-" + digits == s;
    }
  }

  /** Any run of leading zeros leaves the value read unchanged. */
  lemma {:induction false} LeadingZerosIgnored(zeros: string, s: string)
    requires forall i :: 0 <= i < |zeros| ==> zeros[i] == '0'
    requires |s| > 0 && AllDigits(s)
    ensures ParseDigits(zeros + s) == ParseDigits(s)
    decreases |zeros|
  {
    if zeros != [] {
      var rest := zeros[1..] + s;
      assert zeros + s == "0" + rest;
      assert forall i :: 0 <= i < |rest| ==> IsDigit(rest[i]) by {
        forall i | 0 <= i < |rest|
          ensures IsDigit(rest[i])
        {
          if i < |zeros| - 1 {
            assert rest[i] == zeros[i + 1];
          } else {
            assert rest[i] == s[i - (|zeros| - 1)];
          }
        }
      }
      LeadingZeroIgnored(rest);
      LeadingZerosIgnored(zeros[1..], s);
    } else {
      assert zeros + s == s;
    }
  }

  /** A '+' or '-' in front of `str(v)`, padded with any zeros, reads as v with that sign (`int("-007") == -7`). */
  lemma SignedNumeral(sign: char, zeros: string, v: nat)
    requires IsSign(sign)
    requires forall i :: 0 <= i < |zeros| ==> zeros[i] == '0'
    ensures ParseInt([sign] + zeros + NatToString(v)) == Some(if sign == '-' then -(v as int) else v as int)
  {
    var digits := zeros + NatToString(v);
    LeadingZerosIgnored(zeros, NatToString(v));
    ParseDigitsOfNatToString(v);
    var s := [sign] + zeros + NatToString(v);
    assert s[0] == sign && s[1..] == digits;
  }
}
