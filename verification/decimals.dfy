/** Digits: the canonical decimal form of a number, and the value of a run of digits. */
module Decimals {

  predicate IsDigit(c: int) {
    '0' as int <= c <= '9' as int
  }

  predicate AllDigits(s: seq<int>) {
    forall i | 0 <= i < |s| :: IsDigit(s[i])
  }

  function DigitOf(d: int): (c: int)
    requires 0 <= d < 10
    ensures IsDigit(c) && c - '0' as int == d
  {
    d + '0' as int
  }

  predicate IsHexDigit(c: int) {
    0x30 <= c <= 0x39 || 0x41 <= c <= 0x46 || 0x61 <= c <= 0x66
  }

  /** The value of a hexadecimal digit of either case. */
  function DigitValue(c: int): (v: nat)
    requires IsHexDigit(c)
    ensures v < 16
  {
    if c <= 0x39 then c - 0x30 else if c <= 0x46 then c - 0x37 else c - 0x57
  }

  /** A hexadecimal digit, in upper case. */
  function HexDigit(d: int): (c: int)
    requires 0 <= d < 16
    ensures IsDigit(c) || 'A' as int <= c <= 'F' as int
  {
    if d < 10 then '0' as int + d else 'A' as int + (d - 10)
  }

  /** Decimal digits without leading zeros. */
  function Decimal(n: nat): (s: seq<int>)
    ensures s != [] && AllDigits(s) && (s[0] == '0' as int ==> n == 0)
    decreases n
  {
    if n < 10 then [DigitOf(n)] else Decimal(n / 10) + [DigitOf(n % 10)]
  }

  function Pow10(k: nat): (p: nat)
    ensures p > 0
  {
    if k == 0 then 1 else 10 * Pow10(k - 1)
  }

  /** Exactly k digits, with leading zeros. */
  function Fixed(n: nat, k: nat): (s: seq<int>)
    requires n < Pow10(k)
    ensures |s| == k && AllDigits(s)
    decreases k
  {
    if k == 0 then [] else Fixed(n / 10, k - 1) + [DigitOf(n % 10)]
  }

  /** The value of a run of digits. */
  function ValueOf(s: seq<int>): (n: nat)
    requires AllDigits(s)
  {
    if s == [] then 0 else ValueOf(s[..|s| - 1]) * 10 + (s[|s| - 1] - '0' as int)
  }

  lemma ValuePush(s: seq<int>, c: int)
    requires AllDigits(s) && IsDigit(c)
    ensures AllDigits(s + [c]) && ValueOf(s + [c]) == ValueOf(s) * 10 + (c - '0' as int)
  {
    assert (s + [c])[..|s|] == s;
  }

  /** The canonical form has the value it stands for. */
  lemma {:induction false} ValueDecimal(n: nat)
    ensures ValueOf(Decimal(n)) == n
    decreases n
  {
    if n >= 10 {
      ValueDecimal(n / 10);
      ValuePush(Decimal(n / 10), DigitOf(n % 10));
    } else {
      ValuePush([], DigitOf(n));
      assert [] + [DigitOf(n)] == [DigitOf(n)];
    }
  }

  /** The value grows with every digit after a leading one that is not zero. */
  lemma {:induction false} ValueLeading(s: seq<int>)
    requires AllDigits(s) && s != [] && s[0] != '0' as int
    ensures ValueOf(s) >= 1
    decreases |s|
  {
    if |s| > 1 {
      ValueLeading(s[..|s| - 1]);
    }
  }

  /** A digit string without leading zeros is the canonical form of its value. */
  lemma {:induction false} DecimalValue(s: seq<int>)
    requires AllDigits(s) && s != [] && (|s| > 1 ==> s[0] != '0' as int)
    ensures Decimal(ValueOf(s)) == s
    decreases |s|
  {
    var t, d := s[..|s| - 1], s[|s| - 1] - '0' as int;
    assert s == t + [s[|s| - 1]];
    if t != [] {
      DecimalValue(t);
      ValueLeading(t);
      assert (ValueOf(t) * 10 + d) / 10 == ValueOf(t) && (ValueOf(t) * 10 + d) % 10 == d;
    }
  }

  lemma {:induction false} PowAdd(j: nat, k: nat)
    ensures Pow10(j + k) == Pow10(j) * Pow10(k)
  {
    if j > 0 {
      PowAdd(j - 1, k);
    }
  }

  /** Leading digits followed by k more. */
  lemma {:induction false} DecimalSplit(a: nat, b: nat, k: nat)
    requires a > 0 && b < Pow10(k)
    ensures Decimal(a * Pow10(k) + b) == Decimal(a) + Fixed(b, k)
    decreases k
  {
    if k == 0 {
      assert Decimal(a) + [] == Decimal(a);
    } else {
      var n := a * Pow10(k) + b;
      LastDigit(a, b, k);
      DecimalSplit(a, b / 10, k - 1);
      assert Decimal(a) + Fixed(b / 10, k - 1) + [DigitOf(b % 10)] == Decimal(a) + (Fixed(b / 10, k - 1) + [DigitOf(b % 10)]);
    }
  }

  lemma LastDigit(a: nat, b: nat, k: nat)
    requires a > 0 && k > 0 && b < Pow10(k)
    ensures var n := a * Pow10(k) + b;
            n >= 10 && n / 10 == a * Pow10(k - 1) + b / 10 && n % 10 == b % 10 && b / 10 < Pow10(k - 1)
  {
    var p := Pow10(k - 1);
    assert a * Pow10(k) == 10 * (a * p);
    assert a * p >= 1 by { Positive(a, p); }
  }

  lemma Positive(a: nat, p: nat)
    requires a > 0 && p > 0
    ensures a * p >= 1
  {
  }

  /** Fixed-width digits of a number, in two parts. */
  lemma {:induction false} FixedSplit(a: nat, b: nat, j: nat, k: nat)
    requires a < Pow10(j) && b < Pow10(k)
    ensures a * Pow10(k) + b < Pow10(j + k)
    ensures Fixed(a * Pow10(k) + b, j + k) == Fixed(a, j) + Fixed(b, k)
    decreases k
  {
    PowAdd(j, k);
    FixedBound(a, b, Pow10(j), Pow10(k));
    if k == 0 {
      assert Fixed(a, j) + [] == Fixed(a, j);
    } else {
      FixedLast(a, b, k);
      FixedSplit(a, b / 10, j, k - 1);
      assert Fixed(a, j) + Fixed(b / 10, k - 1) + [DigitOf(b % 10)] == Fixed(a, j) + (Fixed(b / 10, k - 1) + [DigitOf(b % 10)]);
    }
  }

  lemma FixedBound(a: nat, b: nat, p: nat, q: nat)
    requires a < p && b < q
    ensures a * q + b < p * q
  {
    assert (a + 1) * q <= p * q;
  }

  lemma FixedLast(a: nat, b: nat, k: nat)
    requires k > 0 && b < Pow10(k)
    ensures var n := a * Pow10(k) + b; n / 10 == a * Pow10(k - 1) + b / 10 && n % 10 == b % 10 && b / 10 < Pow10(k - 1)
  {
    assert a * Pow10(k) == 10 * (a * Pow10(k - 1));
  }

  /** The value of two runs of digits, one after the other. */
  lemma {:induction false} ValueAppend(s: seq<int>, t: seq<int>)
    requires AllDigits(s) && AllDigits(t)
    ensures AllDigits(s + t) && ValueOf(s + t) == ValueOf(s) * Pow10(|t|) + ValueOf(t)
    decreases |t|
  {
    if t == [] {
      assert s + t == s;
    } else {
      var n := |t| - 1;
      assert (s + t)[..|s| + n] == s + t[..n];
      ValueAppend(s, t[..n]);
      TenTimes(ValueOf(s), Pow10(n));
    }
  }

  lemma TenTimes(v: nat, p: nat)
    ensures v * p * 10 == v * (10 * p)
  {
  }

  lemma {:induction false} ValueBelow(s: seq<int>)
    requires AllDigits(s)
    ensures ValueOf(s) < Pow10(|s|)
    decreases |s|
  {
    if s != [] {
      ValueBelow(s[..|s| - 1]);
    }
  }
}
