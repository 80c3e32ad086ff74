/**
 * The charge counter of the equipment blowpipe overlay: `formatNumber` turns a
 * Java `int` into the short label drawn over the item, switching to a
 * thousands value with a "K" suffix from 1000 on.
 */
module Blowpipe {

  /** Java's 32-bit `int`. */
  type Int32 = x: int | -0x8000_0000 <= x < 0x8000_0000

  /** The most charges a blowpipe can hold. */
  const MaxCharges: Int32 := 16383

  /** From this amount on the label is written in thousands. */
  const Thousand: int := 1000

  predicate IsDigit(c: char) {
    '0' <= c <= '9'
  }

  function DigitChar(d: nat): (c: char)
    requires d < 10
    ensures IsDigit(c) && (c as int) - ('0' as int) == d
  {
    ('0' as int + d) as char
  }

  function DigitValue(c: char): int {
    (c as int) - ('0' as int)
  }

  /** The decimal digits of `n`, most significant first, without leading zeros. */
  function NatToString(n: nat): (s: string)
    ensures |s| >= 1
    ensures forall i :: 0 <= i < |s| ==> IsDigit(s[i])
    ensures s[0] == '0' ==> n == 0 && |s| == 1
    ensures n < 10 <==> |s| == 1
  {
    if n < 10 then [DigitChar(n)] else NatToString(n / 10) + [DigitChar(n % 10)]
  }

  /** `String.valueOf(int)`: an optional minus sign followed by the digits of the magnitude. */
  function IntToString(n: int): (s: string)
    ensures |s| >= 1 && (s[0] == '-' <==> n < 0)
    ensures n < 0 ==> s[1..] == NatToString(-n)
    ensures n >= 0 ==> s == NatToString(n)
  {
    if n < 0 then "-" + NatToString(-n) else NatToString(n)
  }

  /** A string of digits with no superfluous leading zero. */
  predicate IsNatString(s: string) {
    |s| >= 1 && (forall i :: 0 <= i < |s| ==> IsDigit(s[i])) && (s[0] == '0' ==> |s| == 1)
  }

  /** The only spellings `String.valueOf(int)` produces: a natural, or "-" and a positive natural. */
  predicate IsIntString(s: string) {
    IsNatString(s) || (|s| >= 2 && s[0] == '-' && IsNatString(s[1..]) && s[1] != '0')
  }

  /** Reads a string of digits back as a number (the partner of NatToString). */
  function ParseNat(s: string): int
    decreases |s|
  {
    if s == [] then 0 else ParseNat(s[..|s| - 1]) * 10 + DigitValue(s[|s| - 1])
  }

  function ParseInt(s: string): int {
    if |s| > 0 && s[0] == '-' then -ParseNat(s[1..]) else ParseNat(s)
  }

  lemma {:induction false} NatRoundTrip(n: nat)
    ensures ParseNat(NatToString(n)) == n
    decreases n
  {
    if n >= 10 {
      var a := NatToString(n / 10);
      var s := a + [DigitChar(n % 10)];
      assert s[..|s| - 1] == a;
      NatRoundTrip(n / 10);
    }
  }

  lemma {:induction false} ParseNatPositive(s: string)
    requires IsNatString(s) && s[0] != '0'
    ensures ParseNat(s) >= 1
    decreases |s|
  {
    if |s| > 1 {
      var a := s[..|s| - 1];
      assert a[0] == s[0];
      assert forall i :: 0 <= i < |a| ==> a[i] == s[i];
      ParseNatPositive(a);
    }
  }

  lemma {:induction false} NatStringRoundTrip(s: string)
    requires IsNatString(s)
    ensures ParseNat(s) >= 0
    ensures NatToString(ParseNat(s)) == s
    decreases |s|
  {
    var d := DigitValue(s[|s| - 1]);
    assert 0 <= d < 10 by { assert IsDigit(s[|s| - 1]); }
    if |s| == 1 {
      assert ParseNat(s[..0]) == 0;
      assert [DigitChar(d)] == s;
    } else {
      var a := s[..|s| - 1];
      assert forall i :: 0 <= i < |a| ==> a[i] == s[i];
      assert a[0] == s[0];
      ParseNatPositive(a);
      NatStringRoundTrip(a);
      var n := ParseNat(s);
      assert n == ParseNat(a) * 10 + d;
      assert n / 10 == ParseNat(a) && n % 10 == d;
      assert s == a + [DigitChar(d)];
    }
  }

  /** The decimal reading of `String.valueOf(n)` is `n`. */
  lemma IntRoundTrip(n: int)
    ensures IsIntString(IntToString(n))
    ensures ParseInt(IntToString(n)) == n
  {
    if n < 0 {
      var s := NatToString(-n);
      assert ("-" + s)[1..] == s;
      NatRoundTrip(-n);
    } else {
      NatRoundTrip(n);
    }
  }

  /** Every well-formed decimal is `String.valueOf` of its value: the spelling is unique. */
  lemma IntStringRoundTrip(s: string)
    requires IsIntString(s)
    ensures IntToString(ParseInt(s)) == s
  {
    if IsNatString(s) {
      NatStringRoundTrip(s);
    } else {
      var t := s[1..];
      NatStringRoundTrip(t);
      ParseNatPositive(t);
      assert s == "-" + t;
    }
  }

  /**
   * `formatNumber`: below 1000 the plain decimal of `amount` (with its minus sign
   * when negative); from 1000 on the truncated thousands value followed by "K".
   */
  function FormatNumber(amount: Int32): (r: string)
    ensures |r| >= 1
    ensures r[|r| - 1] == 'K' <==> amount >= Thousand
    ensures amount < Thousand ==> IsIntString(r) && ParseInt(r) == amount
    ensures amount >= Thousand ==>
              var t := r[..|r| - 1];
              IsNatString(t) && ParseNat(t) * Thousand <= amount < (ParseNat(t) + 1) * Thousand
  {
    IntRoundTrip(amount);
    if amount < Thousand then
      IntToString(amount)
    else
      var t := amount / Thousand;
      NatRoundTrip(t);
      assert (NatToString(t) + "K")[..|NatToString(t)|] == NatToString(t);
      NatToString(t) + "K"
  }

  /** The thousands value never rounds up: all of 1000..1999 read "1K", and 999 stays "999". */
  lemma Truncation(amount: Int32)
    ensures Thousand <= amount < 2 * Thousand ==> FormatNumber(amount) == "1K"
    ensures FormatNumber(999) == "999"
  {
    if Thousand <= amount < 2 * Thousand {
      assert amount / Thousand == 1;
    }
    assert 999 / 10 == 99 && 99 / 10 == 9;
  }

  /** A full blowpipe shows "16K". */
  lemma MaxChargesLabel()
    ensures FormatNumber(MaxCharges) == "16K"
  {
    assert MaxCharges / Thousand == 16;
  }
}
