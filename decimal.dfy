/**
 The decimal rendering PHP applies when an integer is concatenated into a
 string with `.`, and the reading of that rendering back into an integer.
 The listener appends the host constants to SQL text this way; the reader
 is the inverse that shows the rendered text determines the constant.
 */
module Decimal {

  datatype Option<T> = None | Some(value: T)

  predicate IsDigit(c: char) {
    '0' <= c <= '9'
  }

  function DigitChar(d: nat): (c: char)
    requires d < 10
    ensures IsDigit(c) && DigitValue(c) == d
  {
    (48 + d) as char
  }

  function DigitValue(c: char): (d: nat)
    requires IsDigit(c)
    ensures d < 10
  {
    c as int - 48
  }

  predicate AllDigits(s: string) {
    forall i :: 0 <= i < |s| ==> IsDigit(s[i])
  }

  /** Decimal digits of a natural number, most significant first, no leading zeros. */
  function NatString(n: nat): (s: string)
    ensures |s| > 0 && AllDigits(s)
    ensures |s| > 1 ==> s[0] != '0'
    decreases n
  {
    (if n < 10 then [] else NatString(n / 10)) + [DigitChar(n % 10)]
  }

  /** PHP's string conversion of an integer: a minus sign, then the digits of its magnitude. */
  function IntString(n: int): (s: string)
    ensures |s| > 0
    ensures n >= 0 ==> AllDigits(s)
    ensures n < 0 ==> s[0] == '-' && |s| > 1 && AllDigits(s[1..])
    ensures n >= 0 && |s| > 1 ==> s[0] != '0'
    ensures n < 0 && |s| > 2 ==> s[1] != '0'
  {
    if n < 0 then
      var digits := NatString(-n);
      assert ("-" + digits)[1..] == digits;
      "-" + digits
    else NatString(n)
  }

  /** The value of a string of decimal digits. */
  function DigitsValue(s: string): nat
    requires AllDigits(s)
  {
    if |s| == 0 then 0 else 10 * DigitsValue(s[..|s| - 1]) + DigitValue(s[|s| - 1])
  }

  /** Length of the longest prefix of `s` made of digits. */
  function DigitSpan(s: string): (k: nat)
    ensures k <= |s| && AllDigits(s[..k])
    ensures k < |s| ==> !IsDigit(s[k])
  {
    if |s| == 0 || !IsDigit(s[0]) then 0
    else
      var k := 1 + DigitSpan(s[1..]);
      assert s[..k] == [s[0]] + s[1..][..k - 1];
      k
  }

  /** Reads a run of decimal digits from the front of `s`; returns its value and the rest of `s`. */
  function LeadingNat(s: string): Option<(nat, string)>
  {
    var k := DigitSpan(s);
    if k == 0 then None else Some((DigitsValue(s[..k]), s[k..]))
  }

  /**
   Reads an optionally negative decimal integer from the front of `s`;
   returns it with the rest of `s`, or None when `s` does not start with one.
   */
  function LeadingInt(s: string): Option<(int, string)>
  {
    var negative := |s| > 0 && s[0] == '-';
    match LeadingNat(if negative then s[1..] else s)
    case None => None
    case Some((v, rest)) => Some((if negative then -(v as int) else v as int, rest))
  }

  lemma {:induction false} DigitsValueOfNatString(n: nat)
    ensures DigitsValue(NatString(n)) == n
    decreases n
  {
    var s := NatString(n);
    var init := if n < 10 then [] else NatString(n / 10);
    var d := DigitChar(n % 10);
    assert s == init + [d];
    assert s[..|s| - 1] == init && s[|s| - 1] == d;
    assert DigitsValue(s) == 10 * DigitsValue(init) + n % 10;
    if n >= 10 {
      DigitsValueOfNatString(n / 10);
    }
    assert n == 10 * (n / 10) + n % 10;
  }

  lemma {:induction false} DigitSpanOfDigits(ds: string, t: string)
    requires AllDigits(ds)
    requires t == [] || !IsDigit(t[0])
    ensures DigitSpan(ds + t) == |ds|
    decreases |ds|
  {
    if |ds| > 0 {
      assert (ds + t)[1..] == ds[1..] + t;
      DigitSpanOfDigits(ds[1..], t);
    }
  }

  /** Reading back what IntString wrote, followed by any text not starting with a digit. */
  lemma LeadingIntOfIntString(n: int, t: string)
    requires t == [] || !IsDigit(t[0])
    ensures LeadingInt(IntString(n) + t) == Some((n, t))
  {
    if n < 0 {
      LeadingIntOfNegative(-n, t);
    } else {
      LeadingIntOfNonNegative(n, t);
    }
  }

  lemma LeadingIntOfNonNegative(n: nat, t: string)
    requires t == [] || !IsDigit(t[0])
    ensures LeadingInt(NatString(n) + t) == Some((n, t))
  {
    var ds := NatString(n);
    LeadingNatOfDigits(ds, t);
    DigitsValueOfNatString(n);
    assert (ds + t)[0] == ds[0] && IsDigit(ds[0]);
  }

  lemma LeadingIntOfNegative(m: nat, t: string)
    requires m > 0
    requires t == [] || !IsDigit(t[0])
    ensures LeadingInt("-" + NatString(m) + t) == Some((-(m as int), t))
  {
    var ds := NatString(m);
    LeadingNatOfDigits(ds, t);
    DigitsValueOfNatString(m);
    LeadingIntNegated(ds + t, m, t);
    assert "-" + ds + t == "-" + (ds + t);
  }

  lemma LeadingIntNegated(u: string, v: nat, t: string)
    requires LeadingNat(u) == Some((v, t))
    ensures LeadingInt("-" + u) == Some((-(v as int), t))
  {
    var s := "-" + u;
    assert s[0] == '-' && s[1..] == u;
  }

  lemma LeadingNatOfDigits(ds: string, t: string)
    requires |ds| > 0 && AllDigits(ds)
    requires t == [] || !IsDigit(t[0])
    ensures LeadingNat(ds + t) == Some((DigitsValue(ds), t))
  {
    var s := ds + t;
    DigitSpanOfDigits(ds, t);
    assert s[..|ds|] == ds;
    assert s[|ds|..] == t;
  }

  /** Distinct integers render to distinct strings. */
  lemma IntStringInjective(m: int, n: int)
    requires IntString(m) == IntString(n)
    ensures m == n
  {
    LeadingIntOfIntString(m, []);
    LeadingIntOfIntString(n, []);
    assert IntString(m) + [] == IntString(n) + [];
  }
}
