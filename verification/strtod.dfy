/** internal/strtod.h: the exact comparison of a decimal with half a unit in the last place, and the rounding decided
    by it. A double is its 64 bits; the numbers it stands for are reals. */
module Strtod {
  import Decimals
  import opened Limbs
  import opened BigIntegers

  /** ---- Powers with any exponent ---- */

  function P(b: int, e: int): (r: real)
    requires b > 0
    ensures r > 0.0
    decreases if e < 0 then -e else e
  {
    if e == 0 then 1.0 else if e > 0 then b as real * P(b, e - 1) else P(b, e + 1) / b as real
  }

  lemma PNext(b: int, e: int)
    requires b > 0
    ensures P(b, e + 1) == b as real * P(b, e)
  {
    if e < 0 {
      assert P(b, e) == P(b, e + 1) / b as real;
      Cancel(P(b, e + 1), b as real);
    }
  }

  lemma Cancel(x: real, y: real)
    requires y > 0.0
    ensures y * (x / y) == x
  {
  }

  lemma POne(b: int)
    requires b > 0
    ensures P(b, 0) == 1.0 && P(b, 1) == b as real
  {
  }

  lemma {:induction false} PAdd(b: int, j: int, k: int)
    requires b > 0
    ensures P(b, j + k) == P(b, j) * P(b, k)
    decreases if j < 0 then -j else j
  {
    hide P;
    if j > 0 {
      PAdd(b, j - 1, k);
      PNext(b, j - 1 + k);
      PNext(b, j - 1);
      Assoc(b as real, P(b, j - 1), P(b, k));
    } else if j < 0 {
      PAdd(b, j + 1, k);
      PNext(b, j + k);
      PNext(b, j);
      CancelBoth(b as real, P(b, j + k), P(b, j), P(b, k));
    } else {
      POne(b);
    }
  }

  lemma Assoc(a: real, x: real, y: real)
    ensures a * (x * y) == (a * x) * y
  {
  }

  lemma CancelBoth(a: real, x: real, y: real, z: real)
    requires a > 0.0 && a * x == (a * y) * z
    ensures x == y * z
  {
    assert a * x == a * (y * z) by { Assoc(a, y, z); }
    Cancel2(a, x, y * z);
  }

  lemma Cancel2(a: real, x: real, y: real)
    requires a > 0.0 && a * x == a * y
    ensures x == y
  {
    assert a * (x - y) == 0.0;
  }

  lemma {:induction false} PPower(b: nat, e: nat)
    requires b > 0
    ensures P(b, e) == Power(b, e) as real
  {
    if e > 0 {
      PPower(b, e - 1);
    }
  }

  lemma {:induction false} PTen(e: int)
    ensures P(10, e) == P(2, e) * P(5, e)
    decreases if e < 0 then -e else e
  {
    hide P;
    if e > 0 {
      PTen(e - 1);
      PNext(10, e - 1);
      PNext(2, e - 1);
      PNext(5, e - 1);
      Mix(P(2, e - 1), P(5, e - 1));
    } else if e < 0 {
      PTen(e + 1);
      PNext(10, e);
      PNext(2, e);
      PNext(5, e);
      Mix(P(2, e), P(5, e));
      Cancel2(10.0, P(10, e), P(2, e) * P(5, e));
    } else {
      POne(10);
      POne(2);
      POne(5);
    }
  }

  lemma Mix(x: real, y: real)
    ensures 10.0 * (x * y) == (2.0 * x) * (5.0 * y)
  {
  }

  /** ---- Scaling to integers ---- */

  /** n, scaled by powers of five and two. */
  ghost function Scaled(n: nat, exp5: nat, exp2: nat): nat {
    NatProduct(n, Power(5, exp5));
    NatProduct(n * Power(5, exp5), Power(2, exp2));
    n * Power(5, exp5) * Power(2, exp2)
  }

  /** The exponents of the scaled decimal, double and half unit. */
  datatype Exponents = Exponents(d2: int, d5: int, b2: int, b5: int, h2: int)

  function Min3(a: int, b: int, c: int): int {
    var m := if a > b then b else a;
    if m > c then c else m
  }

  /** The power of two that makes the three scaled numbers integers, and no larger than it must be. */
  function Lift2(bExp: int, dExp: int): int {
    if dExp < bExp - 1 then -dExp else 1 - bExp
  }

  /** The power of five that does. */
  function Lift5(dExp: int): int {
    if dExp < 0 then -dExp else 0
  }

  /** The adjustments of `CheckWithinHalfULP`, one after the other, come to the least common scaling. */
  method Adjust(bExp: int, dExp: int) returns (e: Exponents)
    ensures e.d2 >= 0 && e.d5 >= 0 && e.b2 >= 0 && e.b5 >= 0 && e.h2 >= 0
    ensures e.d2 == dExp + Lift2(bExp, dExp) && e.b2 == bExp + Lift2(bExp, dExp) && e.h2 == bExp - 1 + Lift2(bExp, dExp)
    ensures e.d5 == dExp + Lift5(dExp) && e.b5 == Lift5(dExp)
    ensures -1500 <= dExp <= 1500 && -1100 <= bExp <= 1000 ==> e.d5 <= 1500 && e.b5 <= 1500 && e.d2 <= 4000 && e.b2 <= 4000 && e.h2 <= 4000
  {
    var hExp := bExp - 1;
    var dS2, dS5, bS2, bS5, hS2 := 0, 0, 0, 0, 0;
    if dExp >= 0 {
      dS2, dS5 := dS2 + dExp, dS5 + dExp;
    } else {
      bS2, bS5, hS2 := bS2 - dExp, bS5 - dExp, hS2 - dExp;
    }
    if bExp >= 0 {
      bS2 := bS2 + bExp;
    } else {
      dS2, hS2 := dS2 - bExp, hS2 - bExp;
    }
    if hExp >= 0 {
      hS2 := hS2 + hExp;
    } else {
      dS2, bS2 := dS2 - hExp, bS2 - hExp;
    }
    var common := Min3(dS2, bS2, hS2);
    e := Exponents(dS2 - common, dS5, bS2 - common, bS5, hS2 - common);
  }

  /** A scaled integer is the number, times the same factor for all three. */
  lemma ScaledReal(n: nat, exp2: int, exp5: int, k2: int, k5: int)
    requires exp2 + k2 >= 0 && exp5 + k5 >= 0
    ensures Scaled(n, exp5 + k5, exp2 + k2) as real == (P(2, k2) * P(5, k5)) * (n as real * (P(2, exp2) * P(5, exp5)))
  {
    hide P, Power;
    PPower(2, exp2 + k2);
    PPower(5, exp5 + k5);
    PAdd(2, exp2, k2);
    PAdd(5, exp5, k5);
    var p, q := Power(5, exp5 + k5), Power(2, exp2 + k2);
    assert Scaled(n, exp5 + k5, exp2 + k2) == n * p * q;
    ToReal(n, p, q);
    Rearrange(n as real, P(2, exp2), P(2, k2), P(5, exp5), P(5, k5));
  }

  lemma ToReal(n: int, p: int, q: int)
    ensures (n * p * q) as real == n as real * p as real * q as real
  {
    assert (n * p) as real == n as real * p as real;
  }

  lemma Rearrange(n: real, a: real, b: real, c: real, d: real)
    ensures n * (c * d) * (a * b) == (b * d) * (n * (a * c))
  {
    assert n * (c * d) * (a * b) == n * ((c * d) * (a * b));
    assert (c * d) * (a * b) == (b * d) * (a * c);
  }

  /** ---- Capacity ---- */

  lemma {:induction false} PowerLe(a: nat, b: nat, k: nat)
    requires 0 < a <= b
    ensures Power(a, k) <= Power(b, k)
  {
    if k > 0 {
      PowerLe(a, b, k - 1);
      MulMonotone(a, b, Power(a, k - 1));
      MulMonotone(Power(a, k - 1), Power(b, k - 1), b);
    }
  }

  /** Eight is three bits, sixteen is four. */
  lemma {:induction false} Bits(k: nat)
    ensures Power(8, k) == Power(2, 3 * k) && Power(16, k) == Power(2, 4 * k)
  {
    PowerOne(2);
    if k > 0 {
      Bits(k - 1);
      PowerAdd(2, 3, 3 * (k - 1));
      PowerAdd(2, 4, 4 * (k - 1));
      Cubes();
      PowerNext(8, k - 1);
      PowerNext(16, k - 1);
      hide Power;
      assert 3 * k == 3 + 3 * (k - 1) && 4 * k == 4 + 4 * (k - 1);
    } else {
      PowerOne(8);
      PowerOne(16);
    }
  }

  lemma Cubes()
    ensures Power(2, 3) == 8 && Power(2, 4) == 16
  {
    hide Power;
    PowerOne(2);
    PowerAdd(2, 1, 1);
    PowerAdd(2, 2, 1);
    PowerAdd(2, 2, 2);
  }

  /** The scaled integers stay far below the capacity. */
  lemma ScaledFits(n: nat, digits: nat, exp5: nat, exp2: nat, cap: nat)
    requires n < Power(10, digits) && digits <= 768 && exp5 <= 1500 && exp2 <= 4000 && cap == CAPACITY
    ensures n * Power(5, exp5) < Power(BASE, cap - 1) && Scaled(n, exp5, exp2) < Power(BASE, cap - 1)
  {
    hide Power;
    PowerLe(10, 16, digits);
    PowerLe(5, 8, exp5);
    Bits(digits);
    Bits(exp5);
    var a, b, c := 4 * digits, 3 * exp5, exp2;
    ProductBelow(n, Power(2, a), Power(5, exp5), Power(2, b));
    PowerAdd(2, a, b);
    ProductBelow(n * Power(5, exp5), Power(2, a + b), Power(2, c), Power(2, c));
    PowerAdd(2, a + b, c);
    PowerMonotone(2, a + b, 64 * (cap - 1));
    PowerMonotone(2, a + b + c, 64 * (cap - 1));
    PowersOfBase(cap - 1);
    NatProduct(n, Power(5, exp5));
  }

  lemma ProductBelow(x: nat, y: nat, u: nat, v: nat)
    requires x < y && 0 < u <= v
    ensures x * u < y * v && x * u >= 0
  {
    MulMonotone(x + 1, y, u);
    Swap(y, u, 1);
    MulMonotone(u, v, y);
    assert (x + 1) * u == x * u + u;
    Commute(u, y);
    Commute(v, y);
  }

  /** MultiplyPow5 and then `<<=`. */
  method Scale(n: BigInteger, exp5: nat, exp2: nat, ghost digits: nat)
    requires n.Valid() && n.Val() < Power(10, digits) && digits <= 768 && exp5 <= 1500 && exp2 <= 4000
    modifies n`count, n.digits
    ensures n.Valid() && n.Val() == old(Scaled(n.Val(), exp5, exp2))
  {
    hide Power, Canonical, Value;
    ScaledFits(n.Val(), digits, exp5, exp2, n.digits.Length);
    NatProduct(n.Val(), Power(5, exp5));
    n.FitsHolds(n.Val() * Power(5, exp5));
    n.MultiplyPow5(exp5);
    n.ShiftLeft(exp2);
  }

  /** ---- The comparison ---- */

  function Sign(x: real): int {
    if x < 0.0 then -1 else if x == 0.0 then 0 else 1
  }

  function Abs(x: real): (r: real)
    ensures r >= 0.0
  {
    if x < 0.0 then -x else x
  }

  /** The decimal d * 10^e. */
  ghost function Decimal(d: nat, e: int): real {
    d as real * P(10, e)
  }

  /** The binary number b * 2^e. */
  ghost function Binary(b: nat, e: int): real {
    b as real * P(2, e)
  }

  /** Whether the subtraction of the scaled numbers loses no borrow. */
  ghost predicate Exact(x: nat, y: nat) {
    if x < y then ExactDifference(y, x) else ExactDifference(x, y)
  }

  method Copy(d: BigInteger) returns (r: BigInteger)
    requires d.Valid()
    ensures r.Valid() && r.Val() == d.Val() && fresh(r) && fresh(r.digits)
  {
    hide Canonical, Value;
    r := new BigInteger(0);
    ghost var limbs := d.digits[..d.count];
    forall i | 0 <= i < d.count {
      r.digits[i] := d.digits[i];
    }
    r.count := d.count;
    assert r.digits[..r.count] == limbs;
    assert Canonical(limbs);
  }

  /** The copies of the decimal, the double and the half unit, scaled to integers. */
  method ScaleAll(bInt: nat, d: BigInteger, e: Exponents, ghost digits: nat) returns (dS: BigInteger, bS: BigInteger, hS: BigInteger)
    requires d.Valid() && d.Val() < Power(10, digits) && digits <= 768 && bInt < Power(2, 53)
    requires 0 <= e.d2 <= 4000 && 0 <= e.b2 <= 4000 && 0 <= e.h2 <= 4000 && 0 <= e.d5 <= 1500 && 0 <= e.b5 <= 1500
    ensures dS.Valid() && bS.Valid() && hS.Valid()
    ensures fresh(dS) && fresh(bS) && fresh(hS) && fresh(dS.digits) && fresh(bS.digits) && fresh(hS.digits)
    ensures dS.Val() == Scaled(d.Val(), e.d5, e.d2)
    ensures bS.Val() == Scaled(bInt, e.b5, e.b2)
    ensures hS.Val() == Scaled(1, e.b5, e.h2)
  {
    hide *;
    SmallScales(bInt);
    dS := Copy(d);
    Scale(dS, e.d5, e.d2, digits);
    bS := new BigInteger(bInt);
    Scale(bS, e.b5, e.b2, 16);
    hS := new BigInteger(1);
    Scale(hS, e.b5, e.h2, 16);
  }

  /** Whether the subtraction in `CheckWithinHalfULP` loses no borrow. */
  ghost predicate ExactComparison(n: nat, dExp: int, bInt: nat, bExp: int) {
    ScalesUp(bExp, dExp);
    Exact(Scaled(n, dExp + Lift5(dExp), dExp + Lift2(bExp, dExp)), Scaled(bInt, Lift5(dExp), bExp + Lift2(bExp, dExp)))
  }

  lemma ScalesUp(bExp: int, dExp: int)
    ensures dExp + Lift2(bExp, dExp) >= 0 && bExp + Lift2(bExp, dExp) >= 0 && bExp - 1 + Lift2(bExp, dExp) >= 0
    ensures dExp + Lift5(dExp) >= 0 && Lift5(dExp) >= 0
  {
  }

  /** `CheckWithinHalfULP` COMPARES EXACTLY: the sign of the distance between the decimal and the double, less half a
      unit in the last place, whenever the subtraction of the scaled integers is exact; otherwise it errs upwards. */
  method CheckWithinHalfULP(bInt: nat, bExp: int, d: BigInteger, dExp: int, ghost digits: nat) returns (cmp: int)
    requires d.Valid() && d.Val() < Power(10, digits) && digits <= 768 && 0 < bInt < Power(2, 53)
    requires -1500 <= dExp <= 1500 && -1100 <= bExp <= 1000
    requires Decimal(d.Val(), dExp) != Binary(bInt, bExp)
    ensures -1 <= cmp <= 1
    ensures Errs(cmp, ExactComparison(d.Val(), dExp, bInt, bExp), Overshoot(Decimal(d.Val(), dExp), Binary(bInt, bExp), P(2, bExp - 1)))
  {
    hide *;
    var e := Adjust(bExp, dExp);
    ghost var n, k2, k5 := d.Val(), Lift2(bExp, dExp), Lift5(dExp);
    ScalesUp(bExp, dExp);
    var dS, bS, hS := ScaleAll(bInt, d, e, digits);
    Distinct(n, dExp, bInt, bExp, k2, k5);
    SmallScales(1);
    var delta := new BigInteger(0);
    var less := dS.Difference(bS, delta);
    cmp := delta.Compare(hS);
    ComparisonIs(n, dExp, bInt, bExp);
    Compared(n, dExp, bInt, bExp, k2, k5, delta.Val(), less);
  }

  lemma ComparisonIs(n: nat, dExp: int, bInt: nat, bExp: int)
    requires dExp + Lift2(bExp, dExp) >= 0 && bExp + Lift2(bExp, dExp) >= 0 && dExp + Lift5(dExp) >= 0 && Lift5(dExp) >= 0
    ensures ExactComparison(n, dExp, bInt, bExp)
       <==> Exact(Scaled(n, dExp + Lift5(dExp), dExp + Lift2(bExp, dExp)), Scaled(bInt, Lift5(dExp), bExp + Lift2(bExp, dExp)))
  {
    hide Exact, Scaled, Lift2, Lift5;
  }

  /** How far a number is from another, less a margin. */
  ghost function Overshoot(p: real, q: real, margin: real): real {
    Abs(p - q) - margin
  }

  /** The sign when exact, and never below it. */
  ghost predicate Errs(cmp: int, exact: bool, x: real) {
    cmp >= Sign(x) && (exact ==> cmp == Sign(x))
  }

  lemma Distinct(n: nat, dExp: int, bInt: nat, bExp: int, k2: int, k5: int)
    requires dExp + k2 >= 0 && dExp + k5 >= 0 && bExp + k2 >= 0 && k5 >= 0 && bExp - 1 + k2 >= 0
    requires Decimal(n, dExp) != Binary(bInt, bExp)
    ensures Scaled(n, dExp + k5, dExp + k2) != Scaled(bInt, k5, bExp + k2)
  {
    hide *;
    AllScaled(n, dExp, bInt, bExp, k2, k5);
    ScaledApart(Scaled(n, dExp + k5, dExp + k2), Scaled(bInt, k5, bExp + k2), P(2, k2) * P(5, k5), Decimal(n, dExp), Binary(bInt, bExp));
  }

  lemma Compared(n: nat, dExp: int, bInt: nat, bExp: int, k2: int, k5: int, delta: nat, less: bool)
    requires dExp + k2 >= 0 && dExp + k5 >= 0 && bExp + k2 >= 0 && k5 >= 0 && bExp - 1 + k2 >= 0
    requires var x, y := Scaled(n, dExp + k5, dExp + k2), Scaled(bInt, k5, bExp + k2);
             && (less <==> x < y)
             && delta >= (if less then y - x else x - y)
             && (delta == (if less then y - x else x - y) <==> if less then ExactDifference(y, x) else ExactDifference(x, y))
    ensures var h := Scaled(1, k5, bExp - 1 + k2);
            var cmp := if delta < h then -1 else if delta == h then 0 else 1;
            Errs(cmp, Exact(Scaled(n, dExp + k5, dExp + k2), Scaled(bInt, k5, bExp + k2)),
                 Overshoot(Decimal(n, dExp), Binary(bInt, bExp), P(2, bExp - 1)))
  {
    hide *;
    var x, y, h := Scaled(n, dExp + k5, dExp + k2), Scaled(bInt, k5, bExp + k2), Scaled(1, k5, bExp - 1 + k2);
    AllScaled(n, dExp, bInt, bExp, k2, k5);
    ExactIs(x, y);
    CompareScaled(x, y, h, delta, P(2, k2) * P(5, k5), Decimal(n, dExp), Binary(bInt, bExp), P(2, bExp - 1), Exact(x, y));
  }

  /** A 53-bit significand has at most 16 digits. */
  lemma SmallScales(b: nat)
    requires b < Power(2, 53)
    ensures b < BASE && 1 < BASE && b < Power(10, 16) && 1 < Power(10, 16)
  {
    hide Power;
    PowerOne(2);
    PowerOne(10);
    PowerAdd(2, 1, 1);
    PowerAdd(2, 2, 1);
    PowerAdd(2, 3, 3);
    PowerAdd(2, 6, 6);
    PowerAdd(2, 12, 1);
    PowerAdd(2, 13, 13);
    PowerAdd(2, 26, 26);
    PowerAdd(2, 52, 1);
    PowerAdd(10, 1, 1);
    PowerAdd(10, 2, 2);
    PowerAdd(10, 4, 4);
    PowerAdd(10, 8, 8);
  }

  /** The three scaled numbers, by one factor. */
  lemma AllScaled(n: nat, dExp: int, bInt: nat, bExp: int, k2: int, k5: int)
    requires dExp + k2 >= 0 && dExp + k5 >= 0 && bExp + k2 >= 0 && k5 >= 0 && bExp - 1 + k2 >= 0
    ensures Scaled(n, dExp + k5, dExp + k2) as real == (P(2, k2) * P(5, k5)) * Decimal(n, dExp)
    ensures Scaled(bInt, k5, bExp + k2) as real == (P(2, k2) * P(5, k5)) * Binary(bInt, bExp)
    ensures Scaled(1, k5, bExp - 1 + k2) as real == (P(2, k2) * P(5, k5)) * P(2, bExp - 1)
  {
    hide P, Scaled;
    PTen(dExp);
    POne(5);
    ScaledReal(n, dExp, dExp, k2, k5);
    ScaledReal(bInt, bExp, 0, k2, k5);
    ScaledReal(1, bExp - 1, 0, k2, k5);
  }

  lemma ScaledApart(x: nat, y: nat, k: real, p: real, q: real)
    requires k > 0.0 && x as real == k * p && y as real == k * q && p != q
    ensures x != y
  {
    if x == y {
      Cancel2(k, p, q);
    }
  }

  lemma ExactIs(x: nat, y: nat)
    ensures Exact(x, y) <==> if x < y then ExactDifference(y, x) else ExactDifference(x, y)
  {
  }

  /** Comparing scaled integers compares the numbers. */
  lemma CompareScaled(x: nat, y: nat, h: nat, delta: nat, k: real, p: real, q: real, r: real, exact: bool)
    requires k > 0.0 && x as real == k * p && y as real == k * q && h as real == k * r
    requires delta >= if x < y then y - x else x - y
    requires exact ==> delta == if x < y then y - x else x - y
    ensures Errs(if delta < h then -1 else if delta == h then 0 else 1, exact, Overshoot(p, q, r))
  {
    var a := if x < y then y - x else x - y;
    Apart(k, p, q);
    assert a as real == k * Abs(p - q);
    Order(k, Abs(p - q), r);
    assert k * Abs(p - q) < k * r <==> a < h;
  }

  lemma Apart(k: real, p: real, q: real)
    requires k > 0.0
    ensures k * p < k * q <==> p < q
    ensures k * Abs(p - q) == if p < q then k * q - k * p else k * p - k * q
  {
    assert k * (p - q) == k * p - k * q && k * (q - p) == k * q - k * p;
  }

  lemma Order(k: real, a: real, r: real)
    requires k > 0.0
    ensures k * a < k * r <==> a < r
    ensures k * a == k * r <==> a == r
  {
    assert k * (a - r) == k * a - k * r;
    if a < r {
      assert k * (r - a) > 0.0;
    }
  }

  /** ---- Doubles as their bits ---- */

  const HIDDEN := 0x10_0000_0000_0000
  const INFINITY := 2047 * HIDDEN

  function Significand(u: nat): nat {
    u % HIDDEN
  }

  function BiasedExponent(u: nat): nat {
    u / HIDDEN % 2048
  }

  predicate IsNormal(u: nat) {
    BiasedExponent(u) != 0 || Significand(u) == 0
  }

  function IntegerSignificand(u: nat): nat {
    if IsNormal(u) then HIDDEN + Significand(u) else Significand(u)
  }

  function IntegerExponent(u: nat): int {
    (if IsNormal(u) then BiasedExponent(u) - 1023 else -1022) - 52
  }

  /** The exponent of the last place of a double. */
  function UlpExponent(u: nat): int {
    if u / HIDDEN == 0 then -1074 else u / HIDDEN - 1075
  }

  /** The integer that multiplies the last place. */
  function Units(u: nat): nat {
    if u / HIDDEN == 0 then u % HIDDEN else HIDDEN + u % HIDDEN
  }

  /** The number a double stands for; the pattern of infinity is the power of two after the largest double. */
  ghost function Real(u: nat): real {
    Binary(Units(u), UlpExponent(u))
  }

  /** r is a nearest double to x, and the even one of two. */
  ghost predicate Nearest(r: nat, x: real) {
    forall v: nat :: v != r ==> Closer(r, v, x)
  }

  ghost predicate Closer(r: nat, v: nat, x: real) {
    Abs(x - Real(r)) < Abs(x - Real(v)) || (Abs(x - Real(r)) == Abs(x - Real(v)) && r % 2 == 0)
  }

  /** A double and its successor are one unit in the last place apart. */
  lemma Successor(u: nat)
    ensures Real(u + 1) == Real(u) + P(2, UlpExponent(u))
  {
    hide P;
    var f, e := u % HIDDEN, u / HIDDEN;
    if f + 1 < HIDDEN {
      NextSame(u);
      OneMore(Units(u), P(2, UlpExponent(u)));
    } else {
      NextBinade(u);
      OneMore(Units(u), P(2, UlpExponent(u)));
      if e > 0 {
        PNext(2, UlpExponent(u));
        Double(P(2, UlpExponent(u)));
      }
    }
  }

  lemma NextSame(u: nat)
    requires u % HIDDEN + 1 < HIDDEN
    ensures Units(u + 1) == Units(u) + 1 && UlpExponent(u + 1) == UlpExponent(u)
  {
    assert (u + 1) / HIDDEN == u / HIDDEN && (u + 1) % HIDDEN == u % HIDDEN + 1;
  }

  lemma NextBinade(u: nat)
    requires u % HIDDEN + 1 == HIDDEN
    ensures Units(u + 1) == HIDDEN && UlpExponent(u + 1) == u / HIDDEN - 1074
    ensures Units(u) == if u / HIDDEN == 0 then HIDDEN - 1 else 2 * HIDDEN - 1
  {
    assert (u + 1) / HIDDEN == u / HIDDEN + 1 && (u + 1) % HIDDEN == 0;
  }

  lemma OneMore(n: nat, p: real)
    ensures (n + 1) as real * p == n as real * p + p
  {
  }

  lemma Double(p: real)
    ensures HIDDEN as real * (2.0 * p) == (2 * HIDDEN) as real * p
  {
  }

  lemma {:induction false} Increasing(u: nat, v: nat)
    requires u < v
    ensures Real(u) + P(2, UlpExponent(u)) <= Real(v)
    decreases v
  {
    hide Real, P, UlpExponent;
    if u + 1 == v {
      Successor(u);
    } else {
      Increasing(u, v - 1);
      Successor(v - 1);
    }
  }

  /** The integers the comparison uses, for every double but zero. */
  lemma IntegersOf(u: nat)
    requires 0 < u < INFINITY
    ensures IntegerSignificand(u) == Units(u) && IntegerExponent(u) == UlpExponent(u)
    ensures 0 < Units(u) < 2 * HIDDEN && -1074 <= UlpExponent(u) <= 972
  {
    assert u / HIDDEN < 2047;
    if u / HIDDEN == 0 {
      assert u % HIDDEN == u;
    }
  }

  /** Of zero it takes the hidden bit, as if zero were 2 to the power -1023. */
  lemma IntegersOfZero()
    ensures IntegerSignificand(0) == HIDDEN && IntegerExponent(0) == -1075 && Units(0) == 0 && UlpExponent(0) == -1074
  {
  }

  /** Half a unit decides. */
  lemma Rounds(u: nat, x: real, r: nat)
    requires Real(u) <= x <= Real(u + 1)
    requires var over := x - Real(u) - P(2, UlpExponent(u) - 1);
             || (r == u && (over < 0.0 || (over == 0.0 && u % 2 == 0)))
             || (r == u + 1 && (over > 0.0 || (over == 0.0 && u % 2 == 1)))
    ensures Nearest(r, x)
  {
    hide Real, P, UlpExponent, Closer;
    Successor(u);
    PNext(2, UlpExponent(u) - 1);
    forall v: nat | v != r
      ensures Closer(r, v, x)
    {
      RoundsFrom(u, x, r, v);
    }
  }

  lemma RoundsFrom(u: nat, x: real, r: nat, v: nat)
    requires Real(u) <= x <= Real(u + 1) && v != r
    requires Real(u + 1) == Real(u) + 2.0 * P(2, UlpExponent(u) - 1)
    requires var over := x - Real(u) - P(2, UlpExponent(u) - 1);
             || (r == u && (over < 0.0 || (over == 0.0 && u % 2 == 0)))
             || (r == u + 1 && (over > 0.0 || (over == 0.0 && u % 2 == 1)))
    ensures Closer(r, v, x)
  {
    hide Real, P, UlpExponent;
    if v < u {
      Increasing(v, u);
    } else if v > u + 1 {
      Increasing(u + 1, v);
    }
  }

  /** The value of digits, in both notations of powers, and small enough. */
  lemma DigitsBelow(s: seq<int>)
    requires 1 <= |s| <= 768 && Decimals.AllDigits(s)
    ensures Decimals.ValueOf(s) < Power(10, |s|) && Decimals.ValueOf(s) < Limit(CAPACITY)
  {
    hide Decimals.ValueOf, Power, Decimals.Pow10, Scaled, Limit;
    Decimals.ValueBelow(s);
    Tens(|s|);
    PowerOne(5);
    ScaledFits(Decimals.ValueOf(s), |s|, 0, 0, CAPACITY);
    LimitIs(CAPACITY);
  }

  lemma {:induction false} Tens(k: nat)
    ensures Decimals.Pow10(k) == Power(10, k)
  {
    if k > 0 {
      Tens(k - 1);
    }
  }

  lemma TwoTo53()
    ensures Power(2, 53) == 2 * HIDDEN
  {
    hide Power;
    PowerOne(2);
    PowerAdd(2, 1, 1);
    PowerAdd(2, 2, 1);
    PowerAdd(2, 3, 3);
    PowerAdd(2, 6, 6);
    PowerAdd(2, 12, 1);
    PowerAdd(2, 13, 13);
    PowerAdd(2, 26, 26);
    PowerAdd(2, 52, 1);
  }

  /** The comparison may be made: its integers are in range and the numbers differ. */
  lemma ComparesWith(u: nat, n: nat, dExp: int)
    requires u < INFINITY && Real(u) < Decimal(n, dExp) <= Real(u + 1)
    ensures 0 < IntegerSignificand(u) < Power(2, 53) && -1100 <= IntegerExponent(u) <= 1000
    ensures Decimal(n, dExp) != Binary(IntegerSignificand(u), IntegerExponent(u))
  {
    hide P, Power, Decimal, IntegerSignificand, IntegerExponent;
    TwoTo53();
    if u == 0 {
      IntegersOfZero();
      FirstDouble();
    } else {
      IntegersOf(u);
    }
  }

  /** The least double, and zero taken with a hidden bit, in halves of the least double. */
  lemma FirstDouble()
    ensures Real(0) == 0.0 && Real(1) == P(2, -1074) == 2.0 * P(2, -1075) && P(2, -1075) == 2.0 * P(2, -1076)
    ensures Binary(HIDDEN, -1075) == HIDDEN as real * P(2, -1075) > Real(1)
  {
    hide P;
    PNext(2, -1075);
    PNext(2, -1076);
    assert Units(1) == 1 && UlpExponent(1) == -1074 && Units(0) == 0;
  }

  /** What the branches on the comparison decide. */
  lemma Decided(u: nat, n: nat, dExp: int, cmp: int, r: nat)
    requires u < INFINITY && Real(u) < Decimal(n, dExp) <= Real(u + 1) && -1 <= cmp <= 1
    requires Errs(cmp, ExactComparison(n, dExp, IntegerSignificand(u), IntegerExponent(u)),
                  Overshoot(Decimal(n, dExp), Binary(IntegerSignificand(u), IntegerExponent(u)), P(2, IntegerExponent(u) - 1)))
    requires r == if cmp < 0 then u else if cmp > 0 then u + 1 else if Significand(u) % 2 == 1 then u + 1 else u
    ensures u == 0 ==> r == 1
    ensures u > 0 && (r == u || ExactComparison(n, dExp, Units(u), UlpExponent(u))) ==> Nearest(r, Decimal(n, dExp))
  {
    hide *;
    if u == 0 {
      ZeroGoesUp(Decimal(n, dExp), cmp, ExactComparison(n, dExp, IntegerSignificand(u), IntegerExponent(u)));
    } else {
      IntegersOf(u);
      Parity(u);
      if r == u || ExactComparison(n, dExp, Units(u), UlpExponent(u)) {
        DecidedAt(u, Decimal(n, dExp), cmp, ExactComparison(n, dExp, Units(u), UlpExponent(u)), r);
      }
    }
  }

  lemma Parity(u: nat)
    ensures Significand(u) % 2 == u % 2
  {
  }

  lemma ZeroGoesUp(x: real, cmp: int, exact: bool)
    requires Real(0) < x <= Real(1)
    requires Errs(cmp, exact, Overshoot(x, Binary(IntegerSignificand(0), IntegerExponent(0)), P(2, IntegerExponent(0) - 1)))
    ensures cmp > 0
  {
    hide P, Real, Binary, IntegerSignificand, IntegerExponent;
    IntegersOfZero();
    FirstDouble();
  }

  lemma DecidedAt(u: nat, x: real, cmp: int, exact: bool, r: nat)
    requires Real(u) < x <= Real(u + 1) && -1 <= cmp <= 1 && (r == u || exact)
    requires Errs(cmp, exact, Overshoot(x, Binary(Units(u), UlpExponent(u)), P(2, UlpExponent(u) - 1)))
    requires r == if cmp < 0 then u else if cmp > 0 then u + 1 else if u % 2 == 1 then u + 1 else u
    ensures Nearest(r, x)
  {
    hide P, Units, UlpExponent, Nearest, Binary;
    Rounds(u, x, r);
  }

  /** `StrtodBigInteger`. */
  method StrtodBigInteger(approx: nat, decimals: seq<int>, dExp: int) returns (r: nat)
    requires 1 <= |decimals| <= 768 && Decimals.AllDigits(decimals) && -1500 <= dExp <= 1500 && approx < INFINITY
    requires Real(approx) < Decimal(Decimals.ValueOf(decimals), dExp) <= Real(approx + 1)
    ensures r == approx || r == approx + 1
    ensures approx == 0 ==> r == 1
    ensures approx > 0 && (r == approx || ExactComparison(Decimals.ValueOf(decimals), dExp, Units(approx), UlpExponent(approx)))
            ==> Nearest(r, Decimal(Decimals.ValueOf(decimals), dExp))
  {
    hide *;
    DigitsBelow(decimals);
    var dInt := new BigInteger.FromDecimal(decimals);
    ghost var n := Decimals.ValueOf(decimals);
    ComparesWith(approx, n, dExp);
    var cmp := CheckWithinHalfULP(IntegerSignificand(approx), IntegerExponent(approx), dInt, dExp, |decimals|);
    if cmp < 0 {
      r := approx;
    } else if cmp == 0 {
      r := if Significand(approx) % 2 == 1 then approx + 1 else approx;
    } else {
      r := approx + 1;
    }
    Decided(approx, n, dExp, cmp, r);
  }

  /** So from a zero approximation the result is the least double, WHICH IS THE NEAREST EXACTLY WHEN the decimal is above
      half of it. */
  lemma FromZero(x: real)
    requires 0.0 < x <= Real(1)
    ensures Nearest(1, x) <==> x > P(2, -1075)
  {
    hide P, Real, Nearest;
    FirstDouble();
    FirstUlp();
    if x > P(2, -1075) {
      Rounds(0, x, 1);
    } else {
      NotCloser(x);
    }
  }

  lemma NotCloser(x: real)
    requires 0.0 < x <= P(2, -1075)
    ensures !Nearest(1, x)
  {
    hide P, Real;
    FirstDouble();
    assert !Closer(1, 0, x);
  }

  lemma FirstUlp()
    ensures UlpExponent(0) == -1074
  {
  }

  /** A decimal of 19 digits just above 2^-1076, a quarter of the least double. */
  const TINY := 1235164114603116361

  /** It is below half of the least double, so that the least double is not the nearest. */
  lemma TinyDecimal()
    ensures Power(10, 18) <= TINY < Power(10, 19)
    ensures 0.0 < Decimal(TINY, -342) < P(2, -1075) && Decimal(TINY, -342) < Real(1) && !Nearest(1, Decimal(TINY, -342))
  {
    hide P, Real, Nearest, Decimal;
    FirstDouble();
    TinyBelow();
    TinyDigits();
    FromZero(Decimal(TINY, -342));
  }

  lemma TinyDigits()
    ensures Power(10, 18) <= TINY < Power(10, 19)
  {
    hide Power;
    PowerOne(10);
    PowerAdd(10, 1, 1);
    PowerAdd(10, 2, 2);
    PowerAdd(10, 4, 4);
    PowerAdd(10, 8, 8);
    PowerAdd(10, 16, 2);
    PowerAdd(10, 18, 1);
  }

  lemma TinyBelow()
    ensures 0.0 < Decimal(TINY, -342) < P(2, -1075)
  {
    hide P, Power;
    FivesAboveTwos();
    PTen(-342);
    PAdd(2, -342, -794);
    PAdd(2, 61, -1136);
    PAdd(5, 342, -342);
    PAdd(2, 794, -794);
    POne(2);
    POne(5);
    PPower(5, 342);
    PPower(2, 794);
    PPower(2, 61);
    TwoTo61();
    Reciprocals(P(5, 342), P(5, -342), P(2, 794), P(2, -794), P(2, -342));
    Factors(TINY as real, P(2, 61), P(10, -342), P(2, -1136));
  }

  lemma Factors(a: real, b: real, x: real, y: real)
    requires 0.0 < a < b && 0.0 < x < y
    ensures 0.0 < a * x < b * y
  {
    Scales(a, x, y);
    Scales(y, a, b);
    assert a * x > 0.0;
  }

  lemma TwoTo61()
    ensures Power(2, 61) == 2305843009213693952
  {
    hide Power;
    PowerOne(2);
    PowerAdd(2, 1, 1);
    PowerAdd(2, 2, 2);
    PowerAdd(2, 4, 4);
    PowerAdd(2, 8, 8);
    PowerAdd(2, 16, 16);
    PowerAdd(2, 32, 16);
    PowerAdd(2, 48, 8);
    PowerAdd(2, 56, 4);
    PowerAdd(2, 60, 1);
  }

  lemma Reciprocals(a: real, a': real, b: real, b': real, c: real)
    requires a > b > 0.0 && a' > 0.0 && b' > 0.0 && c > 0.0 && a * a' == 1.0 && b * b' == 1.0
    ensures c * a' < c * b'
  {
    Scales(b', b, a);
    assert a * a' < a * b';
    Scales(a, b', a');
    Scales(c, a', b');
  }

  lemma Scales(k: real, p: real, q: real)
    requires k > 0.0
    ensures p < q <==> k * p < k * q
    ensures k * p == p * k
  {
    assert k * (q - p) == k * q - k * p;
    if p < q {
      assert k * (q - p) > 0.0;
    } else {
      assert k * (p - q) >= 0.0;
    }
  }

  lemma FivesAboveTwos()
    ensures Power(5, 342) > Power(2, 794)
  {
    hide Power;
    HalfAbove();
    ProductBelow(Power(2, 397), Power(5, 171), Power(2, 397), Power(5, 171));
    PowerAdd(2, 397, 397);
    PowerAdd(5, 171, 171);
  }

  lemma HalfAbove()
    ensures Power(5, 171) > Power(2, 397)
  {
    hide Power;
    FiveTo81();
    TwoTo188();
    PowerAdd(5, 81, 81);
    PowerAdd(5, 162, 9);
    PowerAdd(2, 188, 188);
    PowerAdd(2, 376, 21);
    NinthAnd21st();
  }

  lemma NinthAnd21st()
    ensures Power(5, 9) == 1953125 && Power(2, 21) == 2097152
  {
    hide Power;
    PowerOne(5);
    PowerOne(2);
    PowerAdd(5, 1, 1);
    PowerAdd(5, 2, 1);
    PowerAdd(5, 3, 3);
    PowerAdd(5, 6, 3);
    PowerAdd(2, 1, 1);
    PowerAdd(2, 2, 1);
    PowerAdd(2, 3, 4);
    PowerAdd(2, 2, 2);
    PowerAdd(2, 7, 7);
    PowerAdd(2, 14, 7);
  }

  lemma FiveTo81()
    ensures Power(5, 81) == 413590306276513837435704346034981426782906055450439453125
  {
    hide Power;
    PowerOne(5);
    PowerAdd(5, 1, 1);
    PowerAdd(5, 2, 1);
    PowerAdd(5, 3, 3);
    PowerAdd(5, 6, 3);
    PowerAdd(5, 9, 9);
    PowerAdd(5, 18, 9);
    PowerAdd(5, 27, 27);
    PowerAdd(5, 54, 27);
  }

  lemma TwoTo188()
    ensures Power(2, 188) == 392318858461667547739736838950479151006397215279002157056
  {
    hide Power;
    PowerOne(2);
    PowerAdd(2, 1, 1);
    PowerAdd(2, 2, 1);
    PowerAdd(2, 3, 3);
    PowerAdd(2, 6, 5);
    PowerAdd(2, 3, 2);
    PowerAdd(2, 11, 11);
    PowerAdd(2, 22, 1);
    PowerAdd(2, 23, 23);
    PowerAdd(2, 46, 1);
    PowerAdd(2, 47, 47);
    PowerAdd(2, 94, 94);
  }
}
