/**
 * Ruby's Integer#to_s and String#to_i in base 10, and the test
 * `x.to_i.to_s == x`, which holds exactly of canonical decimals.
 */
module RubyIntegers {

  predicate IsDigit(c: char) {
    '0' <= c <= '9'
  }

  predicate AllDigits(s: string) {
    forall i :: 0 <= i < |s| ==> IsDigit(s[i])
  }

  function DigitValue(c: char): (d: nat)
    requires IsDigit(c)
    ensures d < 10
  {
    (c as int) - ('0' as int)
  }

  function DigitChar(d: nat): (c: char)
    requires d < 10
    ensures IsDigit(c) && DigitValue(c) == d
  {
    (('0' as int) + d) as char
  }

  /** Integer#to_s of a non-negative integer: its digits, most significant first. */
  function NatToS(n: nat): string
    decreases n
  {
    if n < 10 then [DigitChar(n)] else NatToS(n / 10) + [DigitChar(n % 10)]
  }

  /** Integer#to_s. */
  function IntToS(n: int): string {
    if n < 0 then "-" + NatToS(-n) else NatToS(n)
  }

  /** The longest prefix of `s` made of digits. */
  function LeadingDigits(s: string): (d: string)
    ensures AllDigits(d) && StartsWithDigits(s, d)
    ensures |d| < |s| ==> !IsDigit(s[|d|])
  {
    if |s| > 0 && IsDigit(s[0]) then [s[0]] + LeadingDigits(s[1..]) else ""
  }

  predicate StartsWithDigits(s: string, d: string) {
    |d| <= |s| && s[..|d|] == d
  }

  /** The number a run of decimal digits denotes. */
  function DigitsValue(d: string): nat
    requires AllDigits(d)
  {
    if |d| == 0 then 0 else DigitsValue(d[..|d| - 1]) * 10 + DigitValue(d[|d| - 1])
  }

  /** String#to_i: an optional sign and the digits that follow it; 0 when there are none. */
  function ToI(s: string): int {
    if |s| > 0 && s[0] == '-' then -(DigitsValue(LeadingDigits(s[1..])) as int)
    else if |s| > 0 && s[0] == '+' then DigitsValue(LeadingDigits(s[1..]))
    else DigitsValue(LeadingDigits(s))
  }

  /** "0", or digits that do not start with 0. */
  predicate IsCanonicalNat(s: string) {
    s == "0" || (|s| > 0 && AllDigits(s) && s[0] != '0')
  }

  /** A canonical natural, or a minus sign followed by a canonical positive natural. */
  predicate IsCanonicalDecimal(s: string) {
    IsCanonicalNat(s) || (|s| > 1 && s[0] == '-' && AllDigits(s[1..]) && s[1] != '0')
  }

  lemma {:induction false} NatToSCanonical(n: nat)
    ensures |NatToS(n)| > 0 && AllDigits(NatToS(n))
    ensures n > 0 ==> NatToS(n)[0] != '0'
    ensures IsCanonicalNat(NatToS(n))
    decreases n
  {
    if n >= 10 {
      NatToSCanonical(n / 10);
    }
  }

  lemma {:induction false} DigitsValueOfNatToS(n: nat)
    ensures AllDigits(NatToS(n)) && DigitsValue(NatToS(n)) == n
    decreases n
  {
    NatToSCanonical(n);
    if n >= 10 {
      DigitsValueOfNatToS(n / 10);
      var s := NatToS(n);
      assert s[..|s| - 1] == NatToS(n / 10);
    }
  }

  lemma {:induction false} LeadingDigitsOfDigits(s: string)
    requires AllDigits(s)
    ensures LeadingDigits(s) == s
    decreases |s|
  {
    if |s| > 0 {
      LeadingDigitsOfDigits(s[1..]);
      assert [s[0]] + s[1..] == s;
    }
  }

  lemma {:induction false} DigitsValuePositive(d: string)
    requires |d| > 0 && AllDigits(d) && d[0] != '0'
    ensures DigitsValue(d) >= 1
    decreases |d|
  {
    if |d| > 1 {
      DigitsValuePositive(d[..|d| - 1]);
    }
  }

  /** The digits of a canonical natural are what Integer#to_s prints for its value. */
  lemma {:induction false} NatToSOfDigits(d: string)
    requires IsCanonicalNat(d)
    ensures NatToS(DigitsValue(d)) == d
    decreases |d|
  {
    if |d| > 1 {
      var pre := d[..|d| - 1];
      DigitsValuePositive(pre);
      NatToSOfDigits(pre);
      var v := DigitsValue(d);
      assert v / 10 == DigitsValue(pre) && v % 10 == DigitValue(d[|d| - 1]);
      assert DigitChar(DigitValue(d[|d| - 1])) == d[|d| - 1];
      assert pre + [d[|d| - 1]] == d;
    } else {
      assert DigitChar(DigitValue(d[0])) == d[0];
    }
  }

  /** String#to_i reads back what Integer#to_s prints. */
  lemma ToIOfIntToS(n: int)
    ensures ToI(IntToS(n)) == n
  {
    var m := if n < 0 then -n else n;
    NatToSCanonical(m);
    DigitsValueOfNatToS(m);
    LeadingDigitsOfDigits(NatToS(m));
    if n < 0 {
      assert IntToS(n)[1..] == NatToS(m);
    }
  }

  /** Integer#to_s always prints a canonical decimal. */
  lemma IntToSCanonical(n: int)
    ensures IsCanonicalDecimal(IntToS(n))
  {
    if n < 0 {
      NatToSCanonical(-n);
      assert IntToS(n)[1..] == NatToS(-n);
    } else {
      NatToSCanonical(n);
    }
  }

  /** `x.to_i.to_s == x` holds exactly when x is a canonical decimal. */
  lemma CanonicalIffRoundTrip(s: string)
    ensures IntToS(ToI(s)) == s <==> IsCanonicalDecimal(s)
  {
    if IsCanonicalNat(s) {
      LeadingDigitsOfDigits(s);
      NatToSOfDigits(s);
    } else if IsCanonicalDecimal(s) {
      var d := s[1..];
      LeadingDigitsOfDigits(d);
      DigitsValuePositive(d);
      NatToSOfDigits(d);
      assert "-" + d == s;
    } else {
      IntToSCanonical(ToI(s));
    }
  }

  /** `x.to_i.abs.to_s == x` holds exactly when x is a canonical natural: no sign, no leading zero. */
  lemma AbsRoundTrip(s: string)
    ensures IntToS(if ToI(s) < 0 then -ToI(s) else ToI(s)) == s <==> IsCanonicalNat(s)
  {
    var n := ToI(s);
    var a := if n < 0 then -n else n;
    if IsCanonicalNat(s) {
      LeadingDigitsOfDigits(s);
      NatToSOfDigits(s);
    } else {
      NatToSCanonical(a);
    }
  }
}
