/** internal/dtoa.h: the digits of the shortest decimal between two bounds, and the last one rounded towards the number
    asked for. All quantities are scaled by a power of two, and below the decimal point by a power of ten as well. */
module Dtoa {
  import opened Decimals
  import Limbs

  type U64 = x: int | 0 <= x < 0x1_0000_0000_0000_0000

  const POW10: seq<int> := [
    1, 10, 100, 1000, 10000, 100000, 1000000, 10000000, 100000000, 1000000000,
    10000000000, 100000000000, 1000000000000, 10000000000000, 100000000000000, 1000000000000000,
    10000000000000000, 100000000000000000, 1000000000000000000, 10000000000000000000
  ]

  lemma {:induction false} TableIs(i: nat)
    requires i < 20
    ensures |POW10| == 20 && POW10[i] == Pow10(i)
  {
    if i > 0 {
      TableIs(i - 1);
    }
  }

  /** Shifts by the scale and masks, as products, quotients and remainders. */
  function Product(x: nat, one: nat): (r: nat) {
    Nonnegative(x, one);
    x * one
  }

  lemma Nonnegative(x: nat, y: nat)
    ensures x * y >= 0
  {
  }

  function Quotient(x: nat, one: nat): (r: nat)
    requires one > 0
  {
    x / one
  }

  function Remainder(x: nat, one: nat): (r: nat)
    requires one > 0
  {
    x % one
  }

  /** ---- What is to be found ---- */

  function Distance(x: int, y: int): nat {
    if x < y then y - x else x - y
  }

  /** The multiple m of a unit lies in [high - delta, high]. */
  ghost predicate InRange(m: nat, unit: nat, high: int, delta: int) {
    high - delta <= m * unit <= high
  }

  /** The same without the lower end. */
  ghost predicate Inside(m: nat, unit: nat, high: int, delta: int) {
    high - delta < m * unit <= high
  }

  /** No multiple of a coarser unit would do: no decimal has fewer digits. */
  ghost predicate Shortest(coarse: nat, high: int, delta: int) {
    forall m: nat | m > 0 :: !Inside(m, coarse, high, delta)
  }

  /** Among the multiples in range, v is nearest to the number asked for. */
  ghost predicate Best(v: nat, unit: nat, high: int, delta: int, wanted: int) {
    forall m: nat | InRange(m, unit, high, delta) :: Distance(v * unit, wanted) <= Distance(m * unit, wanted)
  }

  /** v * 10^kappa is a shortest decimal in the range, and of those the nearest to w. */
  ghost predicate ShortestNearest(v: nat, kappa: int, s: nat, w: nat, high: nat, delta: nat) {
    var up, unit := Pow10(if kappa < 0 then -kappa else 0), Pow10(if kappa < 0 then 0 else kappa) * Limbs.Power(2, s);
    && InRange(v, unit, high * up, delta * up)
    && Shortest(10 * unit, high * up, delta * up)
    && Best(v, unit, high * up, delta * up, w * up)
  }

  /** ---- Rounding ---- */

  /** The distance from the top after k decrements. */
  ghost function Down(rest: int, unit: int, k: int): int {
    rest + k * unit
  }

  ghost predicate ClosestSoFar(rest: int, unit: int, w: int, k: nat) {
    forall i: nat | i <= k :: Distance(Down(rest, unit, k), w) <= Distance(Down(rest, unit, i), w)
  }

  ghost predicate Closest(rest: int, unit: int, delta: int, w: int, k: nat) {
    && Down(rest, unit, k) <= delta
    && (forall i: nat | Down(rest, unit, i) <= delta :: Distance(Down(rest, unit, k), w) <= Distance(Down(rest, unit, i), w))
  }

  /** s, with the last of its first len digits lowered by k. */
  ghost predicate Lowered(s: seq<int>, t: seq<int>, len: nat, k: nat) {
    if k == 0 then t == s
    else 0 < len <= |s| && s[len - 1] - k >= '0' as int && t == s[len - 1 := s[len - 1] - k]
  }

  /** The last digit of the first len, or nothing. */
  function LastOf(s: seq<int>, len: nat): int
    requires len <= |s|
  {
    if len == 0 then 0 else s[len - 1] - '0' as int
  }

  lemma RoundStep(s: seq<int>, t: seq<int>, len: nat, rest: int, unit: int, w: int, k: nat)
    requires len <= |s| && Lowered(s, t, len, k) && unit > 0 && ClosestSoFar(rest, unit, w, k)
    requires Down(rest, unit, LastOf(s, len)) >= w > Down(rest, unit, k)
    requires var r := Down(rest, unit, k); r + unit < w || w - r > r + unit - w
    ensures 0 < len && |t| == |s| && Lowered(s, t[len - 1 := t[len - 1] - 1], len, k + 1)
    ensures ClosestSoFar(rest, unit, w, k + 1) && Down(rest, unit, k + 1) == Down(rest, unit, k) + unit
  {
    hide Down;
    DownNext(rest, unit, k);
    DownOrder(rest, unit, k, LastOf(s, len));
    assert k < LastOf(s, len);
    if k > 0 {
      assert t[len - 1 := t[len - 1] - 1] == s[len - 1 := s[len - 1] - (k + 1)];
    }
  }

  lemma DownNext(rest: int, unit: int, k: int)
    ensures Down(rest, unit, k + 1) == Down(rest, unit, k) + unit
  {
  }

  lemma DownOrder(rest: int, unit: int, i: int, j: int)
    requires unit > 0
    ensures i < j <==> Down(rest, unit, i) < Down(rest, unit, j)
    ensures i < j ==> Down(rest, unit, i) + unit <= Down(rest, unit, j)
  {
    var n := j - i;
    Gap(i, n, unit);
    if n > 0 {
      Multiple(n, unit);
    } else {
      Multiple(-n, unit);
    }
  }

  lemma Gap(i: int, n: int, unit: int)
    ensures (i + n) * unit == i * unit + n * unit && (-n) * unit == -(n * unit)
  {
  }

  lemma Multiple(n: nat, unit: int)
    requires unit > 0
    ensures n * unit >= 0 && (n > 0 ==> n * unit >= unit)
  {
    if n > 0 {
      assert (n - 1) * unit >= 0;
    }
  }

  lemma RoundDone(rest: int, unit: int, delta: int, w: int, k: nat)
    requires unit > 0 && Down(rest, unit, k) <= delta && ClosestSoFar(rest, unit, w, k)
    requires var r := Down(rest, unit, k);
             r >= w || delta - r < unit || (r + unit >= w && w - r <= r + unit - w)
    ensures Closest(rest, unit, delta, w, k)
  {
    hide Down;
    forall i: nat | Down(rest, unit, i) <= delta
      ensures Distance(Down(rest, unit, k), w) <= Distance(Down(rest, unit, i), w)
    {
      DownOrder(rest, unit, k, i);
    }
  }

  /** `GrisuRound` lowers the last digit while that comes closer to w, AND NEVER BELOW ZERO. */
  method GrisuRound(buffer: array<int>, len: nat, delta: U64, rest0: U64, tenKappa: U64, w: U64) returns (ghost k: nat)
    requires len <= buffer.Length && rest0 <= delta && tenKappa > 0 && w <= delta
    requires Down(rest0, tenKappa, LastOf(buffer[..], len)) >= w
    modifies buffer
    ensures Lowered(old(buffer[..]), buffer[..], len, k)
    ensures Closest(rest0, tenKappa, delta, w, k)
  {
    hide Down, Closest, Lowered, ClosestSoFar;
    var rest: U64 := rest0;
    k := 0;
    RoundStart(buffer[..], len, rest0, tenKappa, w);
    while rest < w && delta - rest >= tenKappa && (rest + tenKappa < w || w - rest > rest + tenKappa - w)
      invariant rest == Down(rest0, tenKappa, k) <= delta
      invariant Lowered(old(buffer[..]), buffer[..], len, k)
      invariant ClosestSoFar(rest0, tenKappa, w, k)
      decreases delta - rest
    {
      ghost var was := buffer[..];
      RoundStep(old(buffer[..]), was, len, rest0, tenKappa, w, k);
      buffer[len - 1] := buffer[len - 1] - 1;
      assert buffer[..] == was[len - 1 := was[len - 1] - 1];
      rest := rest + tenKappa;
      k := k + 1;
    }
    RoundDone(rest0, tenKappa, delta, w, k);
  }

  lemma RoundStart(s: seq<int>, len: nat, rest: int, unit: int, w: int)
    ensures Lowered(s, s, len, 0) && ClosestSoFar(rest, unit, w, 0) && Down(rest, unit, 0) == rest
  {
  }

  /** ---- The digits ---- */

  /** The digits written so far stand for v, without leading zeros. */
  ghost predicate Shown(s: seq<int>, v: nat) {
    AllDigits(s) && ValueOf(s) == v && (s != [] ==> s[0] != '0' as int)
  }

  /** The digits after rounding: none for zero, or the canonical ones. */
  ghost predicate Written(s: seq<int>, v: nat) {
    if s == [] then v == 0 else s == Decimal(v)
  }

  /** What a digit adds. */
  function Pushed(s: seq<int>, d: nat): seq<int> {
    if d != 0 || s != [] then s + ['0' as int + d] else s
  }

  lemma PushShown(s: seq<int>, v: nat, d: nat)
    requires Shown(s, v) && d < 10
    ensures Shown(Pushed(s, d), 10 * v + d)
    ensures LastOf(Pushed(s, d), |Pushed(s, d)|) == d
  {
    if d != 0 || s != [] {
      ValuePush(s, '0' as int + d);
    }
  }

  lemma {:induction false} ValueAtLeast(s: seq<int>)
    requires AllDigits(s) && s != [] && s[0] != '0' as int
    ensures ValueOf(s) >= Pow10(|s| - 1)
    decreases |s|
  {
    if |s| > 1 {
      ValueAtLeast(s[..|s| - 1]);
    }
  }

  lemma {:induction false} PowMonotone(j: nat, k: nat)
    requires j <= k
    ensures Pow10(j) <= Pow10(k)
    decreases k
  {
    if j < k {
      PowMonotone(j, k - 1);
    }
  }

  /** A number below 10^19 and 60 bits, by the table. */
  lemma PowBelow(j: nat, bound: nat)
    requires Pow10(j) < bound <= 0x1000_0000_0000_0000
    ensures j <= 18
  {
    hide Pow10;
    if j > 18 {
      PowMonotone(19, j);
      TableIs(19);
    }
  }

  /** At most 21 digits. */
  lemma FewDigits(s: seq<int>, v: nat)
    requires Shown(s, v) && v < 10 * 0x1_0000_0000_0000_0000
    ensures |s| <= 21
  {
    hide Pow10, ValueOf;
    if |s| > 21 {
      ValueAtLeast(s);
      PowMonotone(20, |s| - 2);
      TableIs(19);
      PowNext(19);
      PowNext(|s| - 2);
    }
  }

  lemma PowNext(k: nat)
    ensures Pow10(k + 1) == 10 * Pow10(k)
  {
  }

  /** Lowering the last digit lowers the number. */
  lemma LoweredWritten(s: seq<int>, t: seq<int>, len: nat, k: nat, v: nat)
    requires len <= |s| && Shown(s[..len], v) && Lowered(s, t, len, k)
    ensures k <= LastOf(s, len) && k <= v && len <= |t| && Written(t[..len], v - k)
  {
    if len > 0 {
      var p, c := s[..len - 1], s[len - 1];
      assert s[..len] == p + [c];
      assert t[..len] == p + [c - k];
      LowerLast(p, c, k, v);
    }
  }

  lemma LowerLast(p: seq<int>, c: int, k: nat, v: nat)
    requires Shown(p + [c], v) && c - k >= '0' as int
    ensures k <= v && Written(p + [c - k], v - k)
  {
    hide ValueOf, Decimal;
    PrefixDigits(p, c);
    ValuePush(p, c);
    ValuePush(p, c - k);
    if p != [] {
      assert (p + [c])[0] == p[0] == (p + [c - k])[0];
    }
    DecimalValue(p + [c - k]);
  }

  lemma PrefixDigits(p: seq<int>, c: int)
    requires AllDigits(p + [c])
    ensures AllDigits(p) && IsDigit(c)
  {
    assert forall i | 0 <= i < |p| :: p[i] == (p + [c])[i];
    assert (p + [c])[|p|] == c;
  }

  /** ---- The arithmetic of a step ---- */

  lemma DivMod(x: nat, y: nat)
    requires y > 0
    ensures x / y * y + x % y == x && x % y < y && x / y >= 0
  {
  }

  lemma Below(d: nat, y: nat, x: nat)
    requires d * y <= x < 10 * y
    ensures d < 10
  {
    if d >= 10 {
      Limbs.MulMonotone(10, d, y);
    }
  }

  ghost predicate SplitsAt(v: nat, unit: nat, rest: nat, high: nat) {
    v * unit + rest == high && rest < unit
  }

  /** One more digit of the whole part. */
  lemma WholeStep(v: nat, t: nat, one: nat, p1: nat, p2: nat, f: nat)
    requires t > 0 && one > 0 && p2 < one && p1 < 10 * t && SplitsAt(v, 10 * t * one, p1 * one + p2, f)
    ensures var d := p1 / t;
            && d < 10 && d * (t * one) + (p1 % t * one + p2) == p1 * one + p2
            && SplitsAt(10 * v + d, t * one, p1 % t * one + p2, f)
            && SplitsAt(v, 10 * (t * one), p1 * one + p2, f)
  {
    var d, q := p1 / t, p1 % t;
    DivMod(p1, t);
    Below(d, t, p1);
    assert p1 * one == d * (t * one) + q * one by { Parts(d, t, q, one); }
    assert (10 * v + d) * (t * one) == 10 * v * (t * one) + d * (t * one) by { Spread(10 * v, d, t * one); }
    assert 10 * t * one == 10 * (t * one) by { Tenfold(t, one); }
    assert 10 * v * (t * one) == v * (10 * (t * one)) by { Tenfold2(v, t * one); }
    RestBelow(q, t, one, p2);
  }

  lemma Parts(d: nat, t: nat, q: nat, one: nat)
    ensures (d * t + q) * one == d * (t * one) + q * one
  {
    Limbs.Regroup(d, t, one);
  }

  lemma Spread(a: nat, b: nat, x: nat)
    ensures (a + b) * x == a * x + b * x
  {
  }

  lemma Tenfold(t: nat, x: nat)
    ensures 10 * t * x == 10 * (t * x)
  {
  }

  lemma Tenfold2(v: nat, x: nat)
    ensures 10 * v * x == v * (10 * x)
  {
  }

  lemma RestBelow(q: nat, t: nat, one: nat, p2: nat)
    requires q < t && p2 < one
    ensures q * one + p2 < t * one
  {
    assert (t - q) * one >= one by { Multiple(t - q, one); }
    assert (t - q) * one == t * one - q * one;
  }

  /** One more digit after the point. */
  lemma FractionStep(v: nat, one: nat, p2: nat, f: nat, t: nat)
    requires one > 0 && SplitsAt(v, one, p2, f * t)
    ensures var d := p2 * 10 / one;
            && d < 10 && d * one + p2 * 10 % one == p2 * 10
            && SplitsAt(10 * v + d, one, p2 * 10 % one, f * (10 * t))
            && SplitsAt(v, 10 * one, 10 * p2, f * (10 * t))
  {
    var d := p2 * 10 / one;
    DivMod(p2 * 10, one);
    Below(d, one, p2 * 10);
    assert f * (10 * t) == 10 * (f * t) by { Tenfold2(f, t); Tenfold(f, t); }
    assert v * (10 * one) == 10 * (v * one) by { Tenfold2(v, one); Tenfold(v, one); }
    Spread(10 * v, d, one);
    Tenfold(v, one);
  }

  /** ---- The result of a step that ends the run ---- */

  lemma Remaining(v: nat, m: nat, unit: nat, rest: nat, high: nat)
    requires v * unit + rest == high
    ensures Down(rest, unit, v - m) == high - m * unit
  {
    Spread2(v, m, unit);
  }

  lemma Spread2(v: int, m: int, x: int)
    ensures (v - m) * x == v * x - m * x
  {
  }

  lemma NoneShorter(v: nat, coarse: nat, rest: nat, high: nat, delta: nat)
    requires SplitsAt(v, coarse, rest, high) && (rest >= delta || v == 0)
    ensures Shortest(coarse, high, delta)
  {
    forall m: nat | m > 0
      ensures !Inside(m, coarse, high, delta)
    {
      if m > v {
        Spread2(m, v, coarse);
        Multiple(m - v, coarse);
      } else {
        Spread2(v, m, coarse);
        Multiple(v - m, coarse);
      }
    }
  }

  lemma BestOf(v: nat, unit: nat, rest: nat, high: nat, delta: nat, w: nat, k: nat)
    requires SplitsAt(v, unit, rest, high) && w <= high && k <= v && Closest(rest, unit, delta, w, k)
    ensures InRange(v - k, unit, high, delta) && Best(v - k, unit, high, delta, high - w)
  {
    hide Down;
    Remaining(v, v - k, unit, rest, high);
    RestGrows(rest, unit, k);
    forall m: nat | InRange(m, unit, high, delta)
      ensures Distance((v - k) * unit, high - w) <= Distance(m * unit, high - w)
    {
      NotAbove(v, m, unit, rest, high);
      Remaining(v, m, unit, rest, high);
      var i: nat := v - m;
      assert Down(rest, unit, i) <= delta;
    }
  }

  lemma RestGrows(rest: nat, unit: nat, k: nat)
    ensures Down(rest, unit, k) >= 0
  {
  }

  lemma NotAbove(v: nat, m: nat, unit: nat, rest: nat, high: nat)
    requires SplitsAt(v, unit, rest, high) && m * unit <= high
    ensures m <= v
  {
    if m > v {
      Spread2(m, v, unit);
      Multiple(m - v, unit);
    }
  }

  /** ---- DigitGen ---- */

  function CountDecimalDigit32(n: nat): (r: nat)
    requires n < 1000000000
    ensures 1 <= r <= 9 && n < Pow10(r) && (r > 1 ==> n >= Pow10(r - 1))
  {
    PowTable();
    if n < 10 then 1
    else if n < 100 then 2
    else if n < 1000 then 3
    else if n < 10000 then 4
    else if n < 100000 then 5
    else if n < 1000000 then 6
    else if n < 10000000 then 7
    else if n < 100000000 then 8
    else 9
  }

  lemma PowTable()
    ensures Pow10(1) == 10 && Pow10(2) == 100 && Pow10(3) == 1000 && Pow10(4) == 10000 && Pow10(5) == 100000
    ensures Pow10(6) == 1000000 && Pow10(7) == 10000000 && Pow10(8) == 100000000 && Pow10(9) == 1000000000
  {
    hide Pow10;
    TableIs(1);
    TableIs(2);
    TableIs(3);
    TableIs(4);
    TableIs(5);
    TableIs(6);
    TableIs(7);
    TableIs(8);
    TableIs(9);
  }

  /** Before a digit of the whole part: the digits so far, and a rest too large to stop at. */
  ghost predicate Whole(f: nat, one: nat, delta: nat, count: nat, kappa: nat, v: nat, p1: nat, p2: nat) {
    && kappa <= count && p2 < one && p1 < Pow10(kappa)
    && SplitsAt(v, Pow10(kappa) * one, p1 * one + p2, f)
    && if kappa == count then v == 0 else p1 * one + p2 > delta
  }

  /** Before a digit after the point. */
  ghost predicate Fraction(f: nat, one: nat, delta: nat, j: nat, v: nat, p2: nat, scaled: nat) {
    SplitsAt(v, one, p2, f * Pow10(j)) && scaled == delta * Pow10(j) && p2 >= scaled && j <= 18
  }

  lemma WholeStart(f: nat, one: nat, delta: nat, p1: nat, p2: nat, count: nat)
    requires one > 0 && p1 == Quotient(f, one) && p2 == Remainder(f, one) && p1 < Pow10(count)
    ensures Whole(f, one, delta, count, count, 0, p1, p2)
  {
    hide Pow10;
    DivMod(f, one);
    RestBelow(p1, Pow10(count), one, p2);
  }

  lemma WholeNext(f: nat, one: nat, delta: nat, count: nat, kappa: nat, v: nat, p1: nat, p2: nat, t: nat, d: nat, q: nat, unit: nat, rest: nat)
    requires one > 0 && kappa > 0 && Whole(f, one, delta, count, kappa, v, p1, p2)
    requires t == Pow10(kappa - 1) && d == p1 / t && q == p1 % t && unit == t * one && rest == q * one + p2
    ensures d < 10 && d * unit + rest == p1 * one + p2 && q < t
    ensures SplitsAt(10 * v + d, unit, rest, f) && SplitsAt(v, 10 * unit, p1 * one + p2, f)
    ensures rest > delta ==> Whole(f, one, delta, count, kappa - 1, 10 * v + d, q, p2)
  {
    hide Pow10, SplitsAt;
    PowNext(kappa - 1);
    WholeStep(v, t, one, p1, p2, f);
  }

  /** A digit and what is left after it. */
  ghost predicate Joins(d: nat, unit: nat, rest: nat, whole: nat) {
    d * unit + rest == whole
  }

  /** All that a step of the whole part establishes. */
  lemma WholeAt(f: nat, one: nat, delta: nat, count: nat, left: nat, v: nat, p1: nat, p2: nat, d: nat, q: nat, unit: nat, rp: nat, tmp: nat)
    requires one > 0 && Quotient(f, one) < 1000000000 && count == CountDecimalDigit32(Quotient(f, one))
    requires Whole(f, one, delta, count, left + 1, v, p1, p2)
    requires d == Quotient(p1, Pow10(left)) && q == Remainder(p1, Pow10(left)) && unit == Product(Pow10(left), one)
    requires rp == Product(p1, one) + p2 && tmp == Product(q, one) + p2
    ensures d < 10 && 0 < unit && (unit <= f || unit <= one) && tmp <= f && 10 * v + d <= f && (rp >= delta || v == 0)
    ensures SplitsAt(v, 10 * unit, rp, f) && SplitsAt(10 * v + d, unit, tmp, f) && Joins(d, unit, tmp, rp)
    ensures tmp > delta ==> Whole(f, one, delta, count, left, 10 * v + d, q, p2)
  {
    hide Pow10, CountDecimalDigit32, SplitsAt;
    WholeNext(f, one, delta, count, left + 1, v, p1, p2, Pow10(left), d, q, unit, tmp);
    WholeFits(f, one, count, left + 1);
    Multiple(Pow10(left), one);
    SmallDigits(10 * v + d, unit, tmp, f);
    SplitParts(10 * v + d, unit, tmp, f);
  }

  lemma WholeFits(f: nat, one: nat, count: nat, kappa: nat)
    requires 0 < kappa <= count && one > 0 && f / one < 1000000000 && count == CountDecimalDigit32(f / one)
    ensures Pow10(kappa - 1) * one <= if one < f then f else one
  {
    hide Pow10, CountDecimalDigit32;
    PowMonotone(kappa - 1, count - 1);
    Limbs.MulMonotone(Pow10(kappa - 1), Pow10(count - 1), one);
    DivMod(f, one);
    if count > 1 {
      Limbs.MulMonotone(Pow10(count - 1), f / one, one);
    } else {
      PowZero();
    }
  }

  lemma PowZero()
    ensures Pow10(0) == 1
  {
  }

  /** A step that ends the run, in either part. */
  lemma Ends(high: nat, unit: nat, delta: nat, gap: nat, vp: nat, rp: nat, d: nat, rest: nat, k: nat)
    requires SplitsAt(vp, 10 * unit, rp, high) && (rp >= delta || vp == 0)
    requires SplitsAt(10 * vp + d, unit, rest, high) && gap <= high && k <= 10 * vp + d && Closest(rest, unit, delta, gap, k)
    ensures InRange(10 * vp + d - k, unit, high, delta)
    ensures Shortest(10 * unit, high, delta)
    ensures Best(10 * vp + d - k, unit, high, delta, high - gap)
  {
    hide *;
    NoneShorter(vp, 10 * unit, rp, high, delta);
    BestOf(10 * vp + d, unit, rest, high, delta, gap, k);
  }

  /** Appends a digit, unless it is a leading zero; there is always room. */
  method Put(buffer: array<int>, len: nat, d: nat, ghost v: nat) returns (n: nat)
    requires len <= 21 <= buffer.Length && Shown(buffer[..len], v) && d < 10 && 10 * v + d < 10 * 0x1_0000_0000_0000_0000
    modifies buffer
    ensures n <= 21 && n <= len + 1 && Shown(buffer[..n], 10 * v + d) && LastOf(buffer[..], n) == d
  {
    hide Shown, LastOf;
    ghost var s := buffer[..len];
    PushShown(s, v, d);
    FewDigits(Pushed(s, d), 10 * v + d);
    n := len;
    if d != 0 || len != 0 {
      buffer[n] := '0' as int + d;
      n := n + 1;
    }
    assert buffer[..n] == Pushed(s, d);
    LastPrefix(buffer[..], n);
  }

  lemma LastPrefix(s: seq<int>, len: nat)
    requires len <= |s|
    ensures LastOf(s, len) == LastOf(s[..len], len)
  {
  }

  /** The bounds of the scale. */
  lemma ScaleBounds(s: nat)
    requires 32 <= s <= 60
    ensures 0x1_0000_0000 <= Limbs.Power(2, s) <= 0x1000_0000_0000_0000
  {
    hide Limbs.Power;
    TwoTo60();
    Limbs.PowerMonotone(2, 32, s);
    Limbs.PowerMonotone(2, s, 60);
  }

  lemma TwoTo60()
    ensures Limbs.Power(2, 32) == 0x1_0000_0000 && Limbs.Power(2, 60) == 0x1000_0000_0000_0000
  {
    hide Limbs.Power;
    Limbs.PowerOne(2);
    Limbs.PowerAdd(2, 1, 1);
    Limbs.PowerAdd(2, 2, 2);
    Limbs.PowerAdd(2, 4, 4);
    Limbs.PowerAdd(2, 8, 8);
    Limbs.PowerAdd(2, 16, 16);
    Limbs.PowerAdd(2, 32, 16);
    Limbs.PowerAdd(2, 48, 8);
    Limbs.PowerAdd(2, 56, 4);
  }

  /** Digits before a step are below the scaled top. */
  lemma SmallDigits(v: nat, unit: nat, rest: nat, high: nat)
    requires SplitsAt(v, unit, rest, high) && unit > 0
    ensures v <= high
  {
    assert v * unit >= v by { Limbs.MulMonotone(1, unit, v); }
  }

  /** `GrisuRound` may start: lowering the digit just written past zero would pass w. */
  lemma Ready(vp: nat, unit: nat, rp: nat, high: nat, delta: nat, gap: nat, d: nat, rest: nat)
    requires SplitsAt(vp, 10 * unit, rp, high) && (rp >= delta || vp == 0) && gap <= delta && gap <= high
    requires Joins(d, unit, rest, rp)
    ensures Down(rest, unit, d) >= gap
  {
    if vp == 0 {
      assert rp == high;
    }
  }

  lemma WholeResult(v: nat, kappa: nat, s: nat, w: nat, f: nat, delta: nat, unit: nat)
    requires unit == Product(Pow10(kappa), Limbs.Power(2, s))
    requires InRange(v, unit, f, delta) && Shortest(10 * unit, f, delta) && Best(v, unit, f, delta, w)
    ensures ShortestNearest(v, kappa, s, w, f, delta)
  {
    hide InRange, Shortest, Best, Limbs.Power, Pow10;
    PowZero();
  }

  lemma FractionResult(v: nat, j: nat, s: nat, w: nat, f: nat, delta: nat, high: nat, scaled: nat, wanted: int)
    requires j > 0 && high == Product(f, Pow10(j)) && scaled == Product(delta, Pow10(j)) && wanted == Product(w, Pow10(j))
    requires InRange(v, Limbs.Power(2, s), high, scaled) && Shortest(10 * Limbs.Power(2, s), high, scaled)
    requires Best(v, Limbs.Power(2, s), high, scaled, wanted)
    ensures ShortestNearest(v, -(j as int), s, w, f, delta)
  {
    hide InRange, Shortest, Best, Limbs.Power, Pow10;
    PowZero();
  }

  /** The step after the point, and what it multiplies staying in range. */
  lemma FractionNext(f: nat, one: nat, delta: nat, gap: nat, j: nat, v: nat, p2: nat, scaled: nat, d: nat, q: nat)
    requires 0 < one <= 0x1000_0000_0000_0000 && Fraction(f, one, delta, j, v, p2, scaled) && 0 < delta && gap <= delta
    requires d == p2 * 10 / one && q == p2 * 10 % one
    ensures d < 10 && d * one + q == 10 * p2
    ensures SplitsAt(10 * v + d, one, q, f * Pow10(j + 1))
    ensures SplitsAt(v, 10 * one, 10 * p2, f * Pow10(j + 1))
    ensures 10 * scaled == delta * Pow10(j + 1) && gap * Pow10(j + 1) <= 10 * scaled
    ensures q >= 10 * scaled ==> Fraction(f, one, delta, j + 1, 10 * v + d, q, 10 * scaled)
  {
    hide Pow10, SplitsAt;
    PowNext(j);
    FractionStep(v, one, p2, f, Pow10(j));
    Tenfold2(delta, Pow10(j));
    Tenfold(delta, Pow10(j));
    Limbs.MulMonotone(gap, delta, Pow10(j + 1));
    SplitBelow(10 * v + d, one, q, f * Pow10(j + 1));
    if q >= 10 * scaled {
      StillSmall(delta, j + 1, q, one);
    }
  }

  lemma SplitBelow(v: nat, unit: nat, rest: nat, high: nat)
    requires SplitsAt(v, unit, rest, high)
    ensures rest < unit
  {
  }

  lemma StillSmall(delta: nat, j: nat, rest: nat, one: nat)
    requires delta > 0 && delta * Pow10(j) <= rest < one <= 0x1000_0000_0000_0000
    ensures j <= 18
  {
    hide Pow10;
    Limbs.MulMonotone(1, delta, Pow10(j));
    PowBelow(j, one);
  }

  lemma FractionStart(f: nat, one: nat, delta: nat, count: nat, v: nat, p1: nat, p2: nat)
    requires count > 0 && Whole(f, one, delta, count, 0, v, p1, p2)
    ensures Fraction(f, one, delta, 0, v, p2, delta)
  {
    PowZero();
    assert p1 == 0;
  }

  /** The digits are below ten times the top. */
  lemma FractionSmall(f: nat, one: nat, delta: nat, j: nat, v: nat, p2: nat, scaled: nat)
    requires one > 0 && delta > 0 && Fraction(f, one, delta, j, v, p2, scaled)
    ensures v <= f
  {
    hide Pow10;
    Limbs.MulMonotone(1, delta, Pow10(j));
    assert Pow10(j) <= one;
    Limbs.MulMonotone(Pow10(j), one, f);
    if v > f {
      Limbs.MulMonotone(f + 1, v, one);
    }
  }

  /** The last step of a run, in either part: rounding the digits written. */
  method RoundLast(buffer: array<int>, len: nat, delta: U64, rest: U64, unit: U64, gap: U64,
                   ghost vp: nat, ghost rp: nat, ghost d: nat, ghost high: nat)
    returns (ghost v: nat)
    requires len <= buffer.Length && Shown(buffer[..len], 10 * vp + d) && LastOf(buffer[..], len) == d && unit > 0
    requires SplitsAt(vp, 10 * unit, rp, high) && (rp >= delta || vp == 0) && gap <= delta && gap <= high
    requires SplitsAt(10 * vp + d, unit, rest, high) && Joins(d, unit, rest, rp) && rest <= delta
    modifies buffer
    ensures Written(buffer[..len], v) && InRange(v, unit, high, delta)
    ensures Shortest(10 * unit, high, delta) && Best(v, unit, high, delta, high - gap)
  {
    hide *;
    ghost var was := buffer[..];
    assert was[..len] == buffer[..len];
    Ready(vp, unit, rp, high, delta, gap, d, rest);
    ghost var k := GrisuRound(buffer, len, delta, rest, unit, gap);
    LoweredWritten(was, buffer[..], len, k, 10 * vp + d);
    Ends(high, unit, delta, gap, vp, rp, d, rest, k);
    v := 10 * vp + d - k;
    assert buffer[..len] == buffer[..][..len];
  }

  /** `DigitGen` WRITES THE SHORTEST, AND OF THE SHORTEST THE NEAREST, decimal between the bounds: high - delta and high,
      scaled by 2^s, around w. Every intermediate value stays in 64 bits, and there are at most 21 digits. */
  method DigitGen(w: U64, f: U64, s: nat, delta: U64, buffer: array<int>, k0: int)
    returns (len: nat, K: int, ghost v: nat, ghost kappa: int)
    requires 32 <= s <= 60 && Quotient(f, Limbs.Power(2, s)) < 1000000000 && f - delta <= w <= f && delta > 0 && buffer.Length >= 21
    modifies buffer
    ensures len <= 21 && Written(buffer[..len], v) && K == k0 + kappa
    ensures ShortestNearest(v, kappa, s, w, f, delta)
  {
    hide *;
    ScaleBounds(s);
    var one: U64 := Limbs.Power(2, s);
    var gap: U64 := f - w;
    Halved(f, one);
    var p1: nat, p2: U64 := Quotient(f, one), Remainder(f, one);
    var count := CountDecimalDigit32(p1);
    var left: nat := count;
    len, K, v := 0, k0, 0;
    WholeStart(f, one, delta, p1, p2, count);
    NothingShown(buffer[..0]);
    while left > 0
      invariant left <= count <= 9 && len + left <= count
      invariant Whole(f, one, delta, count, left, v, p1, p2)
      invariant Shown(buffer[..len], v)
      decreases left
    {
      ghost var vp, rp := v, Product(p1, one) + p2;
      left := left - 1;
      TableIs(left);
      var d, q := Quotient(p1, POW10[left]), Remainder(p1, POW10[left]);
      WholeAt(f, one, delta, count, left, v, p1, p2, d, q, Product(POW10[left], one), rp, Product(q, one) + p2);
      p1 := q;
      len := Put(buffer, len, d, v);
      v := 10 * v + d;
      var tmp: U64 := Product(p1, one) + p2;
      if tmp <= delta {
        K := K + left;
        kappa := left;
        v := RoundLast(buffer, len, delta, tmp, Product(POW10[left], one), gap, vp, rp, d, f);
        WholeResult(v, left, s, w, f, delta, Product(POW10[left], one));
        return;
      }
    }
    FractionStart(f, one, delta, count, v, p1, p2);
    var scaled: U64 := delta;
    var j: nat := 0;
    while true
      invariant Fraction(f, one, delta, j, v, p2, scaled) && j <= 18
      invariant len <= 21 && Shown(buffer[..len], v)
      decreases 19 - j
    {
      ghost var vp := v;
      ghost var d', q' := Quotient(p2 * 10, one), Remainder(p2 * 10, one);
      FractionAt(f, w, one, delta, gap, j, v, p2, scaled, d', q');
      var tenfold: U64 := p2 * 10;
      scaled := scaled * 10;
      var d := Quotient(tenfold, one);
      len := Put(buffer, len, d, v);
      v := 10 * v + d;
      p2 := Remainder(tenfold, one);
      j := j + 1;
      if p2 < scaled {
        K := K - j;
        kappa := -(j as int);
        TableIs(j);
        // the index is below 20 here, so the power is always in the table
        var lowered: U64 := Product(gap, POW10[j]);
        v := RoundLast(buffer, len, scaled, p2, one, lowered, vp, tenfold, d, Product(f, Pow10(j)));
        FractionResult(v, j, s, w, f, delta, Product(f, Pow10(j)), scaled, Product(w, Pow10(j)));
        return;
      }
    }
  }

  /** All that a step after the point establishes. */
  lemma FractionAt(f: nat, w: nat, one: nat, delta: nat, gap: nat, j: nat, v: nat, p2: nat, scaled: nat, d: nat, q: nat)
    requires 0 < one <= 0x1000_0000_0000_0000 && Fraction(f, one, delta, j, v, p2, scaled) && 0 < delta && gap <= delta
    requires w <= f && gap == f - w && d == Quotient(p2 * 10, one) && q == Remainder(p2 * 10, one)
    ensures d < 10 && p2 < one && q < one && scaled <= p2 && v <= f && Joins(d, one, q, 10 * p2)
    ensures SplitsAt(10 * v + d, one, q, Product(f, Pow10(j + 1)))
    ensures SplitsAt(v, 10 * one, 10 * p2, Product(f, Pow10(j + 1)))
    ensures 10 * scaled == Product(delta, Pow10(j + 1)) && Product(gap, Pow10(j + 1)) <= 10 * scaled
    ensures Product(gap, Pow10(j + 1)) == Product(f, Pow10(j + 1)) - Product(w, Pow10(j + 1))
    ensures q >= 10 * scaled ==> j + 1 <= 18 && Fraction(f, one, delta, j + 1, 10 * v + d, q, 10 * scaled)
  {
    hide Pow10, SplitsAt;
    FractionNext(f, one, delta, gap, j, v, p2, scaled, d, q);
    FractionSmall(f, one, delta, j, v, p2, scaled);
    Spread2(f, w, Pow10(j + 1));
    SplitBelow(v, one, p2, f * Pow10(j));
  }

  lemma Halved(f: nat, one: nat)
    requires one > 0
    ensures Remainder(f, one) < one
  {
  }

  lemma NothingShown(s: seq<int>)
    requires s == []
    ensures Shown(s, 0)
  {
  }

  lemma SplitParts(v: nat, unit: nat, rest: nat, high: nat)
    requires SplitsAt(v, unit, rest, high)
    ensures rest <= high
  {
  }
}
