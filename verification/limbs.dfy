/** Numbers as sequences of 64-bit limbs, least significant first, and the arithmetic of internal/biginteger.h on
    them. */
module Limbs {

  const BASE := 0x1_0000_0000_0000_0000
  const HALF := 0x1_0000_0000

  predicate AreLimbs(s: seq<int>) {
    forall i | 0 <= i < |s| :: 0 <= s[i] < BASE
  }

  function Value(s: seq<int>): (n: nat)
    requires AreLimbs(s)
  {
    if s == [] then 0 else s[0] + BASE * Value(s[1..])
  }

  /** At least one limb, and no leading zero among several. */
  predicate Canonical(s: seq<int>) {
    s != [] && AreLimbs(s) && (|s| > 1 ==> s[|s| - 1] != 0)
  }

  function Power(b: nat, e: nat): (p: nat)
    ensures b > 0 ==> p > 0
  {
    if e == 0 then 1 else b * Power(b, e - 1)
  }

  lemma {:induction false} PowerAdd(b: nat, j: nat, k: nat)
    ensures Power(b, j + k) == Power(b, j) * Power(b, k)
  {
    if j > 0 {
      PowerAdd(b, j - 1, k);
      Regroup(b, Power(b, j - 1), Power(b, k));
    }
  }

  lemma Regroup(a: int, b: int, c: int)
    ensures a * (b * c) == a * b * c && a * b * c == a * c * b
  {
  }

  lemma {:induction false} PowerMonotone(b: nat, j: nat, k: nat)
    requires b > 0 && j <= k
    ensures Power(b, j) <= Power(b, k)
    decreases k
  {
    if j < k {
      PowerMonotone(b, j, k - 1);
      Grow(b, Power(b, k - 1));
    }
  }

  lemma Grow(b: nat, p: nat)
    requires b > 0
    ensures p <= b * p
  {
  }

  lemma ValueCons(d: int, s: seq<int>)
    requires 0 <= d < BASE && AreLimbs(s)
    ensures AreLimbs([d] + s) && Value([d] + s) == d + BASE * Value(s)
  {
    assert ([d] + s)[1..] == s;
  }

  lemma LimbsTail(s: seq<int>)
    requires AreLimbs(s) && s != []
    ensures AreLimbs(s[1..]) && Value(s) == s[0] + BASE * Value(s[1..]) && 0 <= s[0] < BASE
  {
  }

  lemma {:induction false} ValueBound(s: seq<int>)
    requires AreLimbs(s)
    ensures Value(s) < Power(BASE, |s|)
  {
    if s != [] {
      ValueBound(s[1..]);
      Scale(Value(s[1..]), Power(BASE, |s| - 1), s[0]);
    }
  }

  lemma Scale(v: nat, p: nat, d: int)
    requires v < p && 0 <= d < BASE
    ensures d + BASE * v < BASE * p
  {
  }

  /** A canonical number of n > 1 limbs is at least BASE^(n - 1). */
  lemma {:induction false} ValueLeading(s: seq<int>)
    requires AreLimbs(s) && s != [] && s[|s| - 1] != 0
    ensures Value(s) >= Power(BASE, |s| - 1)
  {
    if |s| > 1 {
      ValueLeading(s[1..]);
    }
  }

  /** ---- Comparison ---- */

  /** THE NORMAL FORM ORDERS: more limbs mean a larger number. */
  lemma LongerIsLarger(s: seq<int>, t: seq<int>)
    requires Canonical(s) && Canonical(t) && |s| < |t|
    ensures Value(s) < Value(t)
  {
    hide Value, Power;
    ValueBound(s);
    ValueLeading(t);
    PowerMonotone(BASE, |s|, |t| - 1);
  }

  /** With equal limbs above i, the limbs up to i decide. */
  lemma {:induction false} TopDecides(s: seq<int>, t: seq<int>, i: nat)
    requires AreLimbs(s) && AreLimbs(t) && |s| == |t| && i < |s| && s[i] < t[i] && s[i + 1..] == t[i + 1..]
    ensures Value(s) < Value(t)
    decreases i
  {
    LimbsTail(s);
    LimbsTail(t);
    hide Value;
    if i == 0 {
      assert s[1..] == t[1..];
    } else {
      assert s[1..][i..] == s[i + 1..] && t[1..][i..] == t[i + 1..];
      TopDecides(s[1..], t[1..], i - 1);
    }
  }

  /** ---- Multiplication by one limb ---- */

  function MulAdd(s: seq<int>, u: nat, k: nat): (r: seq<int>)
    requires AreLimbs(s) && u < BASE && k < BASE
    ensures AreLimbs(r)
    decreases |s|
  {
    if s == [] then (if k > 0 then [k] else [])
    else
      CarryBound(s[0], u, k);
      Cons((s[0] * u + k) % BASE, MulAdd(s[1..], u, (s[0] * u + k) / BASE))
  }

  function Cons(d: int, s: seq<int>): (r: seq<int>)
    requires 0 <= d < BASE && AreLimbs(s)
    ensures AreLimbs(r) && r == [d] + s
  {
    [d] + s
  }

  lemma CarryBound(d: nat, u: nat, k: nat)
    requires d < BASE && u < BASE && k < BASE
    ensures 0 <= (d * u + k) / BASE < BASE && 0 <= (d * u + k) % BASE && d * u + k < BASE * BASE
  {
    assert d * u <= (BASE - 1) * (BASE - 1) by { Product(d, u); }
  }

  lemma Product(d: nat, u: nat)
    requires d < BASE && u < BASE
    ensures d * u <= (BASE - 1) * (BASE - 1)
  {
    MulMonotone(d, BASE - 1, u);
  }

  lemma MulMonotone(a: int, b: int, c: nat)
    requires a <= b
    ensures a * c <= b * c
  {
  }

  lemma {:induction false} MulAddValue(s: seq<int>, u: nat, k: nat)
    requires AreLimbs(s) && u < BASE && k < BASE
    ensures Value(MulAdd(s, u, k)) == Value(s) * u + k
    decreases |s|
  {
    if s == [] {
      if k > 0 { ValueCons(k, []); }
    } else {
      var p := s[0] * u + k;
      CarryBound(s[0], u, k);
      var rest := MulAdd(s[1..], u, p / BASE);
      assert MulAdd(s, u, k) == [p % BASE] + rest;
      MulAddValue(s[1..], u, p / BASE);
      LimbsTail(s);
      hide Value, MulAdd;
      ValueCons(p % BASE, rest);
      Distribute(s[0], Value(s[1..]), u, k);
    }
  }

  lemma Distribute(d: nat, v: nat, u: nat, k: nat)
    ensures var p := d * u + k; p % BASE + BASE * (v * u + p / BASE) == (d + BASE * v) * u + k
  {
    var p := d * u + k;
    assert p == BASE * (p / BASE) + p % BASE;
    assert (d + BASE * v) * u == d * u + BASE * (v * u);
  }

  lemma {:induction false} MulAddCanonical(s: seq<int>, u: nat, k: nat)
    requires Canonical(s) && 0 < u < BASE && k < BASE
    ensures |s| <= |MulAdd(s, u, k)| <= |s| + 1
    ensures s[|s| - 1] != 0 ==> Canonical(MulAdd(s, u, k))
    decreases |s|
  {
    var p := s[0] * u + k;
    CarryBound(s[0], u, k);
    if |s| == 1 {
      if s[0] != 0 && p / BASE == 0 {
        Grow(s[0], u);
        assert p % BASE == p >= u > 0;
      }
    } else {
      MulAddCanonical(s[1..], u, p / BASE);
    }
  }

  /** ---- Addition of one limb ---- */

  function AddTo(s: seq<int>, u: nat): (r: seq<int>)
    requires AreLimbs(s) && s != [] && u < BASE
    ensures AreLimbs(r) && |s| <= |r| <= |s| + 1
    decreases |s|
  {
    var p := s[0] + u;
    if p < BASE then [p] + s[1..]
    else if |s| == 1 then [p - BASE, 1]
    else [p - BASE] + AddTo(s[1..], 1)
  }

  lemma {:induction false} AddToValue(s: seq<int>, u: nat)
    requires AreLimbs(s) && s != [] && u < BASE
    ensures Value(AddTo(s, u)) == Value(s) + u
    ensures Canonical(s) ==> Canonical(AddTo(s, u))
    decreases |s|
  {
    var p := s[0] + u;
    LimbsTail(s);
    if p < BASE {
      ValueCons(p, s[1..]);
    } else if |s| == 1 {
      ValueCons(p - BASE, [1]);
      ValueCons(1, []);
      assert [p - BASE] + [1] == [p - BASE, 1] && [1] + [] == [1];
    } else {
      AddToValue(s[1..], 1);
      ValueCons(p - BASE, AddTo(s[1..], 1));
    }
  }

  /** ---- Shifts ---- */

  function Zeros(n: nat): (r: seq<int>)
    ensures |r| == n && AreLimbs(r)
  {
    seq(n, i => 0)
  }

  lemma {:induction false} ZerosValue(n: nat, s: seq<int>)
    requires AreLimbs(s)
    ensures AreLimbs(Zeros(n) + s) && Value(Zeros(n) + s) == Value(s) * Power(BASE, n)
    decreases n
  {
    if n == 0 {
      assert Zeros(0) + s == s;
    } else {
      ZerosValue(n - 1, s);
      var p := Power(BASE, n - 1);
      assert Power(BASE, n) == BASE * p;
      assert Zeros(n) + s == [0] + (Zeros(n - 1) + s);
      hide Value, Zeros, Power;
      ValueCons(0, Zeros(n - 1) + s);
      Swap(BASE, Value(s), p);
    }
  }

  lemma Swap(b: int, v: int, p: int)
    ensures b * (v * p) == v * (b * p)
  {
  }

  /** The limbs of s, shifted left by k bits less than a limb, over a carry of k bits; one limb more than s. */
  function ShiftFrom(s: seq<int>, c: nat, k: nat): (r: seq<int>)
    requires AreLimbs(s) && k < 64 && c < Power(2, k)
    ensures AreLimbs(r) && |r| == |s| + 1
    decreases |s|
  {
    PowerOfTwo(k);
    if s == [] then [c]
    else
      ShiftParts(s[0], c, k);
      Cons(s[0] * Power(2, k) % BASE + c, ShiftFrom(s[1..], s[0] * Power(2, k) / BASE, k))
  }

  lemma PowerOfTwo(k: nat)
    requires k <= 64
    ensures 0 < Power(2, k) <= BASE && Power(2, k) * Power(2, 64 - k) == BASE && (k < 64 ==> Power(2, k) < BASE)
  {
    PowerAdd(2, k, 64 - k);
    Power64();
    if k < 64 {
      PowerMonotone(2, 1, 64 - k);
      assert Power(2, 1) == 2;
    }
    Factor(Power(2, k), Power(2, 64 - k));
  }

  lemma Factor(p: nat, q: nat)
    requires p > 0 && q > 0 && p * q == BASE
    ensures p <= BASE && (q >= 2 ==> p < BASE)
  {
    MulMonotone(1, q, p);
    if q >= 2 { MulMonotone(2, q, p); }
  }

  lemma PowerOne(b: nat)
    ensures Power(b, 0) == 1 && Power(b, 1) == b
  {
  }

  lemma Power64()
    ensures Power(2, 32) == HALF && Power(2, 64) == BASE
  {
    hide Power;
    PowerOne(2);
    PowerAdd(2, 1, 1);
    PowerAdd(2, 2, 2);
    PowerAdd(2, 4, 4);
    PowerAdd(2, 8, 8);
    PowerAdd(2, 16, 16);
    PowerAdd(2, 32, 32);
  }

  /** The bits that stay, those that are carried, and that the bits coming in have no bit in common with the former. */
  lemma ShiftParts(d: nat, c: nat, k: nat)
    requires d < BASE && k < 64 && c < Power(2, k)
    ensures var p := Power(2, k);
            && 0 <= d * p / BASE < p && 0 <= d * p % BASE && d * p % BASE + c < BASE && d * p % BASE % p == 0
            && d * p / BASE == d / Power(2, 64 - k) && (d * p + c) / BASE == d * p / BASE && (d * p + c) % BASE == d * p % BASE + c
  {
    hide Power;
    var p, q := Power(2, k), Power(2, 64 - k);
    PowerOfTwo(k);
    Digits(d, p, q, c);
  }

  lemma Digits(d: nat, p: nat, q: nat, c: nat)
    requires p > 0 && q > 0 && p * q == BASE && d < BASE && c < p
    ensures d * p / BASE == d / q && d * p % BASE == d % q * p && d / q < p && d % q * p <= BASE - p
    ensures d * p % BASE % p == 0
    ensures (d * p + c) / BASE == d / q && (d * p + c) % BASE == d % q * p + c
  {
    var h, l := d / q, d % q;
    assert d == q * h + l;
    QuotientBelow(d, p, q);
    assert d * p == h * (p * q) + l * p by { Spread(d, p, q, h, l); }
    MulMonotone(l, q - 1, p);
    assert (q - 1) * p == q * p - p;
    Commute(p, q);
    assert d * p == h * BASE + l * p;
    assert 0 <= l * p <= BASE - p;
    DivMod(h, l * p + c);
    DivMod(h, l * p);
    ModMultiple(l, p);
  }

  lemma Commute(p: int, q: int)
    ensures p * q == q * p
  {
  }

  lemma Spread(d: int, p: int, q: int, h: int, l: int)
    requires d == q * h + l
    ensures d * p == h * (p * q) + l * p
  {
    assert (q * h) * p == h * (p * q);
  }

  lemma QuotientBelow(d: nat, p: nat, q: nat)
    requires q > 0 && p > 0 && d < p * q
    ensures d / q < p
  {
    if d / q >= p {
      MulMonotone(p, d / q, q);
    }
  }

  lemma DivMod(h: int, r: int)
    requires 0 <= r < BASE
    ensures (h * BASE + r) / BASE == h && (h * BASE + r) % BASE == r
  {
  }

  lemma ModMultiple(l: nat, p: nat)
    requires p > 0
    ensures l * p % p == 0
  {
    if l > 0 {
      ModMultiple(l - 1, p);
      assert l * p == (l - 1) * p + p;
      AddModulus((l - 1) * p, p);
    } else {
      assert 0 * p == 0;
    }
  }

  lemma AddModulus(x: nat, p: nat)
    requires p > 0
    ensures (x + p) % p == x % p
  {
    var q, r := x / p, x % p;
    assert x + p == (q + 1) * p + r;
    Unique(x + p, p, q + 1, r);
  }

  lemma Unique(x: nat, p: nat, q: nat, r: nat)
    requires p > 0 && x == q * p + r && r < p
    ensures x % p == r && x / p == q
  {
    var q', r' := x / p, x % p;
    assert q * p + r == q' * p + r';
    assert (q + 1) * p == q * p + p && (q' + 1) * p == q' * p + p;
    if q' > q {
      MulMonotone(q + 1, q', p);
    } else if q' < q {
      MulMonotone(q' + 1, q, p);
    }
  }

  lemma {:induction false} ShiftFromValue(s: seq<int>, c: nat, k: nat)
    requires AreLimbs(s) && k < 64 && c < Power(2, k)
    ensures Value(ShiftFrom(s, c, k)) == Value(s) * Power(2, k) + c
    decreases |s|
  {
    PowerOfTwo(k);
    if s == [] {
      ValueCons(c, []);
    } else {
      ShiftParts(s[0], c, k);
      LimbsTail(s);
      var p, d, v := Power(2, k), s[0], Value(s[1..]);
      var rest := ShiftFrom(s[1..], d * p / BASE, k);
      assert ShiftFrom(s, c, k) == [d * p % BASE + c] + rest;
      ShiftFromValue(s[1..], d * p / BASE, k);
      hide Power, Value, ShiftFrom;
      ValueCons(d * p % BASE + c, rest);
      Distribute(d, v, p, c);
    }
  }

  /** Limb i of the shifted number, from limbs i and i - 1. */
  lemma {:induction false} ShiftFromAt(s: seq<int>, c: nat, k: nat, i: nat)
    requires AreLimbs(s) && k < 64 && c < Power(2, k) && i <= |s|
    ensures ShiftFrom(s, c, k)[i]
         == (if i < |s| then s[i] * Power(2, k) % BASE else 0) + (if i == 0 then c else s[i - 1] / Power(2, 64 - k))
    decreases |s|
  {
    PowerOfTwo(k);
    if s != [] {
      ShiftParts(s[0], c, k);
      if i > 0 {
        ShiftFromAt(s[1..], s[0] * Power(2, k) / BASE, k, i - 1);
      }
    }
  }
}
