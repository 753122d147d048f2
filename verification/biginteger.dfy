/** internal/biginteger.h: unsigned integers in a fixed array of 64-bit limbs, changed limb by limb. */
module BigIntegers {
  import Decimals
  import opened Limbs

  /** kCapacity: the bit count divided by the bytes of a limb. */
  const CAPACITY: nat := 416

  /** ---- The portable product of two limbs ---- */

  /** a * b in two limbs, by halves. */
  method MulHalves(a: nat, b: nat) returns (lo: nat, hi: nat)
    requires a < BASE && b < BASE
    ensures lo < BASE && hi * BASE + lo == a * b
  {
    var a0, a1, b0, b1 := a % HALF, a / HALF, b % HALF, b / HALF;
    HalfProducts(a0, a1, b0, b1);
    Halves(a, b, a0, a1, b0, b1);
    var x0, x1, x2, x3 := a0 * b0, a0 * b1, a1 * b0, a1 * b1;
    lo, hi := CombineHalves(x0, x1, x2, x3);
  }

  /** The partial products, with the carry of their middle. */
  method CombineHalves(x0: nat, x1: nat, x2: nat, x3: nat) returns (lo: nat, hi: nat)
    requires x0 <= (HALF - 1) * (HALF - 1) && x1 <= (HALF - 1) * (HALF - 1) && x2 <= (HALF - 1) * (HALF - 1)
    ensures lo < BASE && hi * BASE + lo == x3 * BASE + (x1 + x2) * HALF + x0
  {
    var m := x1 + x0 / HALF;
    var s := (m + x2) % BASE;
    hi := x3;
    if s < x2 {
      hi := hi + HALF;
    }
    lo := s % HALF * HALF + x0 % HALF;
    hi := hi + s / HALF;
    MiddleCarry(m, x2);
  }

  /** a * b + k in two limbs. */
  method MulAdd64(a: nat, b: nat, k: nat) returns (lo: nat, hi: nat)
    requires a < BASE && b < BASE && k < BASE
    ensures lo < BASE && hi < BASE && hi * BASE + lo == a * b + k
  {
    lo, hi := MulHalves(a, b);
    CarryBound(a, b, k);
    MiddleCarry(lo, k);
    lo := (lo + k) % BASE;
    if lo < k {
      hi := hi + 1;
    }
    HighBound(hi, lo);
  }

  lemma HalfProducts(a0: nat, a1: nat, b0: nat, b1: nat)
    requires a0 < HALF && a1 < HALF && b0 < HALF && b1 < HALF
    ensures 0 <= a0 * b0 <= (HALF - 1) * (HALF - 1) && 0 <= a0 * b1 <= (HALF - 1) * (HALF - 1)
    ensures 0 <= a1 * b0 <= (HALF - 1) * (HALF - 1) && 0 <= a1 * b1 <= (HALF - 1) * (HALF - 1)
  {
    HalfProduct(a0, b0);
    HalfProduct(a0, b1);
    HalfProduct(a1, b0);
    HalfProduct(a1, b1);
  }

  lemma HalfProduct(a: nat, b: nat)
    requires a < HALF && b < HALF
    ensures 0 <= a * b <= (HALF - 1) * (HALF - 1)
  {
    MulMonotone(a, HALF - 1, b);
  }

  lemma MiddleCarry(m: nat, x: nat)
    requires m < BASE && x < BASE
    ensures var s := (m + x) % BASE; (if s < x then BASE else 0) + s == m + x
  {
  }

  lemma Halves(a: nat, b: nat, a0: nat, a1: nat, b0: nat, b1: nat)
    requires a == a1 * HALF + a0 && b == b1 * HALF + b0
    ensures a * b == a1 * b1 * BASE + (a0 * b1 + a1 * b0) * HALF + a0 * b0
  {
    assert a * b == (a1 * HALF) * b + a0 * b;
    assert (a1 * HALF) * b == a1 * b * HALF;
    assert a1 * b == a1 * b1 * HALF + a1 * b0 by { Expand(a1, b1, b0); }
    assert a0 * b == a0 * b1 * HALF + a0 * b0 by { Expand(a0, b1, b0); }
  }

  lemma Expand(x: int, h: int, l: int)
    ensures x * (h * HALF + l) == x * h * HALF + x * l
  {
  }

  lemma HighBound(hi: nat, lo: nat)
    requires hi * BASE + lo < BASE * BASE
    ensures hi < BASE
  {
  }

  /** ---- Steps of the loops, on values ---- */

  /** A number below BASE^(cap - 1) has fewer than cap limbs. */
  lemma FitsCount(s: seq<int>, cap: nat)
    requires Canonical(s) && cap >= 2 && Value(s) < Power(BASE, cap - 1)
    ensures |s| < cap
  {
    hide Value, Power;
    if |s| >= cap {
      ValueLeading(s);
      PowerMonotone(BASE, cap - 1, |s| - 1);
    }
  }

  /** After i rounds of a multiplication of s by u, with carry k: the limbs done, and those untouched. */
  ghost predicate MulState(s: seq<int>, d: seq<int>, i: nat, u: nat, k: nat) {
    && AreLimbs(s) && i <= |s| <= |d| && u < BASE && k < BASE
    && AreLimbs(s[i..]) && d[i..|s|] == s[i..]
    && d[..i] + MulAdd(s[i..], u, k) == MulAdd(s, u, 0)
  }

  lemma MulStart(s: seq<int>, d: seq<int>, u: nat)
    requires AreLimbs(s) && |s| <= |d| && d[..|s|] == s && u < BASE
    ensures MulState(s, d, 0, u, 0)
  {
    assert s[0..] == s && d[0..|s|] == d[..|s|];
    assert [] + MulAdd(s, u, 0) == MulAdd(s, u, 0);
  }

  lemma MulAt(s: seq<int>, d: seq<int>, i: nat, u: nat, k: nat)
    requires MulState(s, d, i, u, k) && i < |s|
    ensures d[i] == s[i] && 0 <= s[i] < BASE
  {
    assert d[i..|s|][0] == s[i..][0];
  }

  /** One round. */
  lemma MulStep(s: seq<int>, d: seq<int>, i: nat, u: nat, k: nat, lo: nat, hi: nat)
    requires MulState(s, d, i, u, k) && i < |s| && 0 <= s[i] < BASE
    requires lo < BASE && hi < BASE && hi * BASE + lo == s[i] * u + k
    ensures MulState(s, d[i := lo], i + 1, u, hi)
  {
    var d' := d[i := lo];
    MulPeel(s, i, u, k, lo, hi);
    hide MulAdd;
    assert d'[..i + 1] == d[..i] + [lo];
    assert d'[..i + 1] + MulAdd(s[i + 1..], u, hi) == d[..i] + ([lo] + MulAdd(s[i + 1..], u, hi));
    assert d'[i + 1..|s|] == d[i..|s|][1..] == s[i + 1..];
  }

  lemma MulPeel(s: seq<int>, i: nat, u: nat, k: nat, lo: nat, hi: nat)
    requires AreLimbs(s) && i < |s| && u < BASE && k < BASE && AreLimbs(s[i..])
    requires lo < BASE && hi < BASE && hi * BASE + lo == s[i] * u + k
    ensures AreLimbs(s[i + 1..]) && MulAdd(s[i..], u, k) == [lo] + MulAdd(s[i + 1..], u, hi)
  {
    DivMod(hi, lo);
    CarryBound(s[i], u, k);
    assert s[i..][1..] == s[i + 1..] && s[i..][0] == s[i];
  }

  /** The end. */
  lemma MulDone(s: seq<int>, d: seq<int>, u: nat, k: nat)
    requires MulState(s, d, |s|, u, k)
    ensures MulAdd(s, u, 0) == d[..|s|] + (if k > 0 then [k] else [])
  {
    assert s[|s|..] == [];
    assert MulAdd([], u, k) == if k > 0 then [k] else [];
  }

  /** What a multiplication yields, and that it stays in normal form and within the capacity. */
  lemma MulResult(s: seq<int>, u: nat, cap: nat)
    requires Canonical(s) && 1 < u < BASE && cap >= 2 && Value(s) * u < Power(BASE, cap - 1)
    ensures var r := MulAdd(s, u, 0); Canonical(r) && Value(r) == Value(s) * u && |s| <= |r| < cap
  {
    hide Value, Power, MulAdd;
    MulAddValue(s, u, 0);
    MulAddCanonical(s, u, 0);
    if s[|s| - 1] == 0 {
      MulZero(s, u);
    }
    FitsCount(MulAdd(s, u, 0), cap);
  }

  lemma MulZero(s: seq<int>, u: nat)
    requires s == [0] && u < BASE
    ensures MulAdd(s, u, 0) == [0]
  {
    assert s[1..] == [];
    assert MulAdd([], u, 0) == [];
  }

  /** The 32-bit multiplication of a limb, by halves. */
  method MulAdd32(d: nat, u: nat, k: nat) returns (lo: nat, hi: nat)
    requires d < BASE && u < HALF && k < HALF
    ensures lo < BASE && hi < HALF && hi * BASE + lo == d * u + k
  {
    var c, l := d / HALF, d % HALF;
    HalfProduct(u, c);
    HalfProduct(u, l);
    Expand(u, c, l);
    var p0 := u * l + k;
    var p1 := u * c + p0 / HALF;
    lo := p0 % HALF + p1 * HALF % BASE;
    hi := p1 / HALF;
    LowHalf(p1);
  }

  /** Shifting a limb up by half its bits keeps its low half. */
  lemma LowHalf(p: nat)
    requires p < BASE
    ensures p * HALF % BASE == p % HALF * HALF && p == p / HALF * HALF + p % HALF
  {
    assert p * HALF == p / HALF * BASE + p % HALF * HALF;
    DivMod(p / HALF, p % HALF * HALF);
  }

  /** ---- Addition ---- */

  /** What is being added at limb i: u to the lowest, a carry to the others. */
  function Addend(i: nat, u: nat): nat {
    if i == 0 then u else 1
  }

  /** The carry has reached limb i, to which its addend has been added. */
  ghost predicate AddState(s: seq<int>, d: seq<int>, i: nat, u: nat) {
    && AreLimbs(s) && i < |s| <= |d| && u < BASE && AreLimbs(s[i..])
    && d[i] == (s[i] + Addend(i, u)) % BASE && d[i + 1..|s|] == s[i + 1..]
    && d[..i] + AddTo(s[i..], Addend(i, u)) == AddTo(s, u)
  }

  lemma AddStart(s: seq<int>, d: seq<int>, u: nat)
    requires AreLimbs(s) && s != [] && |s| <= |d| && d[..|s|] == s && u < BASE
    ensures AddState(s, d[0 := (s[0] + u) % BASE], 0, u)
  {
    var d' := d[0 := (s[0] + u) % BASE];
    assert s[0..] == s && d'[1..|s|] == d[..|s|][1..];
    assert [] + AddTo(s, u) == AddTo(s, u);
  }

  /** Without a carry the rest stays as it is. */
  lemma AddStop(s: seq<int>, d: seq<int>, i: nat, u: nat)
    requires AddState(s, d, i, u) && d[i] >= s[i]
    ensures AddTo(s, u) == d[..|s|]
  {
    assert s[i..][0] == s[i] && s[i..][1..] == s[i + 1..];
    NoWrap(s[i], Addend(i, u));
    assert AddTo(s[i..], Addend(i, u)) == [d[i]] + s[i + 1..];
    assert d[..i] + ([d[i]] + d[i + 1..|s|]) == d[..|s|];
  }

  lemma NoWrap(a: int, c: nat)
    requires 0 <= a < BASE && c < BASE
    ensures (a + c) % BASE >= a <==> a + c < BASE
    ensures (a + c) % BASE == if a + c < BASE then a + c else a + c - BASE
  {
  }

  lemma AddStep(s: seq<int>, d: seq<int>, i: nat, u: nat)
    requires AddState(s, d, i, u) && d[i] < s[i] && i + 1 < |s|
    ensures d[i + 1] == s[i + 1] && AddState(s, d[i + 1 := (s[i + 1] + 1) % BASE], i + 1, u)
  {
    var d' := d[i + 1 := (s[i + 1] + 1) % BASE];
    AddCarry(s, d, i, u);
    hide AddTo, AreLimbs;
    assert d[i + 1..|s|][0] == s[i + 1..][0];
    assert d'[..i + 1] == d[..i] + [d[i]];
    assert d'[..i + 1] + AddTo(s[i + 1..], 1) == d[..i] + ([d[i]] + AddTo(s[i + 1..], 1));
    assert d'[i + 2..|s|] == d[i + 1..|s|][1..] == s[i + 1..][1..] == s[i + 2..];
  }

  lemma AddCarry(s: seq<int>, d: seq<int>, i: nat, u: nat)
    requires AddState(s, d, i, u) && d[i] < s[i] && i + 1 < |s|
    ensures AreLimbs(s[i + 1..]) && AddTo(s[i..], Addend(i, u)) == [d[i]] + AddTo(s[i + 1..], 1)
  {
    assert s[i..][0] == s[i] && s[i..][1..] == s[i + 1..];
    NoWrap(s[i], Addend(i, u));
  }

  lemma AddTop(s: seq<int>, d: seq<int>, i: nat, u: nat)
    requires AddState(s, d, i, u) && d[i] < s[i] && i + 1 == |s|
    ensures AddTo(s, u) == d[..|s|] + [1]
  {
    assert s[i..] == [s[i]];
    NoWrap(s[i], Addend(i, u));
    assert AddTo(s[i..], Addend(i, u)) == [d[i], 1];
    assert d[..i] + [d[i], 1] == d[..|s|] + [1];
  }

  lemma AddResult(s: seq<int>, u: nat, cap: nat)
    requires Canonical(s) && u < BASE && cap >= 2 && Value(s) + u < Power(BASE, cap - 1)
    ensures var r := AddTo(s, u); Canonical(r) && Value(r) == Value(s) + u && |r| < cap
  {
    hide Value, Power, AddTo;
    AddToValue(s, u);
    FitsCount(AddTo(s, u), cap);
  }

  /** ---- Shifts ---- */

  /** The limbs of s shifted by k bits have reached down to index i, moved up by offset; those up to i are untouched. */
  ghost predicate ShiftState(s: seq<int>, d: seq<int>, offset: nat, k: nat, i: int) {
    && AreLimbs(s) && 0 < k < 64 && |s| + offset < |d| && i <= |s|
    && (forall j | 0 <= j <= i :: d[j] == if j < |s| then s[j] else 0)
    && (0 < Power(2, k) ==> forall j | i < j <= |s| && 0 <= j :: d[j + offset] == ShiftFrom(s, 0, k)[j])
  }

  lemma ShiftStep(s: seq<int>, d: seq<int>, offset: nat, k: nat, i: int)
    requires ShiftState(s, d, offset, k, i) && 0 < i
    ensures 0 <= d[i] < BASE && 0 <= d[i - 1] < BASE
    ensures var x := d[i] * Power(2, k) % BASE + d[i - 1] / Power(2, 64 - k);
            x == ShiftFrom(s, 0, k)[i] && ShiftState(s, d[i + offset := x], offset, k, i - 1)
  {
    ShiftFromAt(s, 0, k, i);
    assert d[i - 1] == s[i - 1];
    if i == |s| {
      assert 0 * Power(2, k) % BASE == 0;
    }
    hide Power, ShiftFrom;
  }

  lemma ShiftLast(s: seq<int>, d: seq<int>, offset: nat, k: nat)
    requires ShiftState(s, d, offset, k, 0) && s != []
    ensures var x := d[0] * Power(2, k) % BASE; x == ShiftFrom(s, 0, k)[0] && ShiftState(s, d[offset := x], offset, k, -1)
  {
    ShiftFromAt(s, 0, k, 0);
    hide Power, ShiftFrom;
  }

  /** All limbs are in place once the lowest ones are cleared. */
  lemma ShiftDone(s: seq<int>, d: seq<int>, offset: nat, k: nat)
    requires ShiftState(s, d, offset, k, -1) && forall j | 0 <= j < offset :: d[j] == 0
    ensures d[..offset + |s| + 1] == Zeros(offset) + ShiftFrom(s, 0, k)
  {
    hide Power, ShiftFrom, Zeros;
    PowerOfTwo(k);
    var r := Zeros(offset) + ShiftFrom(s, 0, k);
    forall j | 0 <= j < offset + |s| + 1 ensures d[j] == r[j] {
      if j >= offset {
        assert d[(j - offset) + offset] == ShiftFrom(s, 0, k)[j - offset];
      } else {
        assert Zeros(offset)[j] == 0 by { ZeroAt(offset, j); }
      }
    }
  }

  lemma ZeroAt(n: nat, j: nat)
    requires j < n
    ensures Zeros(n)[j] == 0
  {
  }

  /** Shifting a normal number leaves at most one leading zero. */
  lemma ShiftTop(s: seq<int>, k: nat)
    requires Canonical(s) && Value(s) != 0 && 0 < k < 64
    ensures var r := ShiftFrom(s, 0, k); var n := |s|;
            && |r| == n + 1 && (r[n] == 0 ==> r[n - 1] != 0)
  {
    hide Power, ShiftFrom, Value;
    var n := |s|;
    PowerOfTwo(k);
    ShiftFromAt(s, 0, k, n);
    ShiftFromAt(s, 0, k, n - 1);
    SmallNumbers(s);
    ShiftParts(s[n - 1], 0, k);
    Grow(Power(2, k), s[n - 1]);
    MulMonotone(1, s[n - 1], Power(2, k));
  }

  lemma {:induction false} PowersOfBase(n: nat)
    ensures Power(BASE, n) == Power(2, 64 * n)
  {
    Power64();
    PowerOne(2);
    if n > 0 {
      PowersOfBase(n - 1);
      assert 64 * n == 64 + 64 * (n - 1);
      PowerAdd(2, 64, 64 * (n - 1));
      PowerNext(BASE, n - 1);
      hide Power;
      assert Power(BASE, n) == BASE * Power(BASE, n - 1);
    } else {
      assert Power(BASE, 0) == 1;
    }
  }

  lemma PowerNext(b: nat, n: nat)
    ensures Power(b, n + 1) == b * Power(b, n)
  {
  }

  /** Bits and whole limbs together. */
  lemma ShiftSplit(v: nat, shift: nat)
    ensures v * Power(2, shift % 64) * Power(BASE, shift / 64) == v * Power(2, shift)
  {
    hide Power;
    PowersOfBase(shift / 64);
    PowerAdd(2, shift % 64, 64 * (shift / 64));
    assert shift == shift % 64 + 64 * (shift / 64);
    Regroup(v, Power(2, shift % 64), Power(BASE, shift / 64));
  }

  /** ---- Decimal digits ---- */

  lemma {:induction false} TenIsTwoFives(k: nat)
    ensures Decimals.Pow10(k) == Power(5, k) * Power(2, k)
  {
    if k > 0 {
      TenIsTwoFives(k - 1);
      var p, q := Power(5, k - 1), Power(2, k - 1);
      assert (5 * p) * (2 * q) == 10 * (p * q);
    }
  }

  /** At most 19 digits fit in a limb. */
  lemma DigitsFit(s: seq<int>)
    requires Decimals.AllDigits(s) && |s| <= 19
    ensures Decimals.ValueOf(s) < BASE
  {
    Decimals.ValueBelow(s);
    TenMonotone(|s|, 19);
    TenTo19();
  }

  lemma {:induction false} TenMonotone(j: nat, k: nat)
    requires j <= k
    ensures Decimals.Pow10(j) <= Decimals.Pow10(k)
    decreases k
  {
    if j < k {
      TenMonotone(j, k - 1);
    }
  }

  lemma TenTo19()
    ensures Decimals.Pow10(19) <= BASE
  {
    hide Decimals.Pow10;
    TenOne();
    Decimals.PowAdd(1, 1);
    Decimals.PowAdd(2, 1);
    Decimals.PowAdd(3, 3);
    Decimals.PowAdd(6, 3);
    Decimals.PowAdd(9, 9);
    Decimals.PowAdd(18, 1);
  }

  lemma TenOne()
    ensures Decimals.Pow10(1) == 10
  {
  }

  /** Appending k digits of value u. */
  lemma AppendDigits(v: nat, k: nat, u: nat)
    ensures v * Power(5, k) * Power(2, k) + u == v * Decimals.Pow10(k) + u
    ensures v * Power(5, k) <= v * Decimals.Pow10(k)
  {
    hide Power, Decimals.Pow10;
    TenIsTwoFives(k);
    Regroup(v, Power(5, k), Power(2, k));
    Grow(Power(2, k), v * Power(5, k));
    Swap(v * Power(5, k), 1, Power(2, k));
    NatProduct(v, Power(5, k));
  }

  /** v, with the digits s after it. */
  ghost function Appended(v: nat, s: seq<int>): nat
    requires Decimals.AllDigits(s)
  {
    NatProduct(v, Decimals.Pow10(|s|));
    v * Decimals.Pow10(|s|) + Decimals.ValueOf(s)
  }

  /** A prefix has no larger value. */
  lemma PrefixValue(s: seq<int>, i: nat, j: nat)
    requires Decimals.AllDigits(s) && i <= j <= |s|
    ensures Decimals.AllDigits(s[..i]) && Decimals.AllDigits(s[i..j]) && Decimals.AllDigits(s[..j])
    ensures Decimals.ValueOf(s[..j]) == Decimals.ValueOf(s[..i]) * Decimals.Pow10(j - i) + Decimals.ValueOf(s[i..j])
    ensures Decimals.ValueOf(s[..j]) <= Decimals.ValueOf(s)
  {
    hide Decimals.ValueOf, Decimals.Pow10;
    Decimals.ValueAppend(s[..i], s[i..j]);
    assert s[..i] + s[i..j] == s[..j];
    Decimals.ValueAppend(s[..j], s[j..]);
    assert s[..j] + s[j..] == s;
    Grow(Decimals.Pow10(|s| - j), Decimals.ValueOf(s[..j]));
    assert |s[j..]| == |s| - j;
    Swap(Decimals.ValueOf(s[..j]), 1, Decimals.Pow10(|s| - j));
  }

  ghost function Limit(cap: nat): nat
    requires cap >= 2
  {
    Power(BASE, cap - 1)
  }

  lemma LimitIs(cap: nat)
    requires cap >= 2
    ensures Limit(cap) == Power(BASE, cap - 1)
  {
  }

  /** ---- Subtraction ---- */

  /** One limb of `Difference`, and the borrow it passes on. */
  function SubDigit(a: int, b: int, borrow: nat): (d: int)
    ensures 0 <= d < BASE
  {
    (a - borrow - b) % BASE
  }

  function SubBorrow(a: int, b: int, borrow: nat): (r: nat)
    ensures r <= 1
  {
    if SubDigit(a, b, borrow) > a then 1 else 0
  }

  /** The limbs of `Difference`, for operands of equal length. */
  function Subtract(a: seq<int>, b: seq<int>, borrow: nat): (r: seq<int>)
    requires AreLimbs(a) && AreLimbs(b) && |a| == |b| && borrow <= 1
    ensures AreLimbs(r) && |r| == |a|
  {
    if a == [] then []
    else Cons(SubDigit(a[0], b[0], borrow), Subtract(a[1..], b[1..], SubBorrow(a[0], b[0], borrow)))
  }

  /** A borrow that meets an all-ones limb of the subtrahend wraps all the way round, and is lost. */
  predicate Lost(b: int, borrow: nat) {
    b == BASE - 1 && borrow == 1
  }

  /** By how much the limbs of `Difference` are too large. */
  function Excess(a: seq<int>, b: seq<int>, borrow: nat): nat
    requires AreLimbs(a) && AreLimbs(b) && |a| == |b| && borrow <= 1
  {
    if a == [] then 0
    else (if Lost(b[0], borrow) then BASE else 0) + BASE * Excess(a[1..], b[1..], SubBorrow(a[0], b[0], borrow))
  }

  /** The borrow out of the top limb. */
  function FinalBorrow(a: seq<int>, b: seq<int>, borrow: nat): nat
    requires AreLimbs(a) && AreLimbs(b) && |a| == |b| && borrow <= 1
  {
    if a == [] then borrow else FinalBorrow(a[1..], b[1..], SubBorrow(a[0], b[0], borrow))
  }

  lemma SubOne(a: int, b: int, borrow: nat)
    requires 0 <= a < BASE && 0 <= b < BASE && borrow <= 1
    ensures SubDigit(a, b, borrow) + b + borrow
         == a + BASE * SubBorrow(a, b, borrow) + (if Lost(b, borrow) then BASE else 0)
    ensures !Lost(b, borrow) ==> (SubBorrow(a, b, borrow) == 1 <==> a < b + borrow)
  {
  }

  lemma {:induction false} SubtractValue(a: seq<int>, b: seq<int>, borrow: nat)
    requires AreLimbs(a) && AreLimbs(b) && |a| == |b| && borrow <= 1
    ensures Value(Subtract(a, b, borrow)) + Value(b) + borrow
         == Value(a) + Excess(a, b, borrow) + Power(BASE, |a|) * FinalBorrow(a, b, borrow)
    decreases |a|
  {
    if a == [] {
      assert Power(BASE, 0) == 1;
    } else {
      var d, c := SubDigit(a[0], b[0], borrow), SubBorrow(a[0], b[0], borrow);
      SubOne(a[0], b[0], borrow);
      LimbsTail(a);
      LimbsTail(b);
      SubtractValue(a[1..], b[1..], c);
      var rest := Subtract(a[1..], b[1..], c);
      assert Subtract(a, b, borrow) == [d] + rest;
      assert Excess(a, b, borrow) == (if Lost(b[0], borrow) then BASE else 0) + BASE * Excess(a[1..], b[1..], c);
      assert FinalBorrow(a, b, borrow) == FinalBorrow(a[1..], b[1..], c);
      PowerNext(BASE, |a| - 1);
      hide Value, Subtract, Excess, FinalBorrow, Power, SubDigit, SubBorrow, Lost;
      ValueCons(d, rest);
      Regroup(BASE, Power(BASE, |a| - 1), FinalBorrow(a[1..], b[1..], c));
    }
  }

  /** `Difference` OF a > b IS NEVER TOO SMALL, and too large by exactly the lost borrows. */
  lemma DifferenceValue(a: seq<int>, b: seq<int>)
    requires AreLimbs(a) && AreLimbs(b) && |a| == |b| && Value(a) > Value(b)
    ensures Value(Subtract(a, b, 0)) == Value(a) - Value(b) + Excess(a, b, 0)
  {
    hide Value, Subtract, Excess, FinalBorrow, Power;
    SubtractValue(a, b, 0);
    ValueBound(Subtract(a, b, 0));
    NoFinalBorrow(Power(BASE, |a|), FinalBorrow(a, b, 0));
  }

  lemma NoFinalBorrow(p: nat, f: nat)
    ensures f >= 1 ==> p * f >= p
    ensures f == 0 ==> p * f == 0
  {
    if f >= 1 {
      Grow(f, p);
      Swap(f, p, 1);
    }
  }

  /** Whether a borrow comes into limb i of a - b and meets a limb of all ones there: something that can be told from
      the operands alone. */
  ghost predicate BorrowMeetsOnes(a: seq<int>, b: seq<int>, borrow: nat, i: nat)
    requires AreLimbs(a) && AreLimbs(b) && |a| == |b| && i < |a|
  {
    b[i] == BASE - 1 && Value(a[..i]) < Value(b[..i]) + borrow
  }

  /** WHEN `Difference` IS EXACT: exactly when no incoming borrow meets an all-ones limb of the subtrahend. */
  lemma {:induction false} ExactIff(a: seq<int>, b: seq<int>, borrow: nat)
    requires AreLimbs(a) && AreLimbs(b) && |a| == |b| && borrow <= 1
    ensures Excess(a, b, borrow) == 0 <==> forall i | 0 <= i < |a| :: !BorrowMeetsOnes(a, b, borrow, i)
    decreases |a|
  {
    if a != [] {
      var c := SubBorrow(a[0], b[0], borrow);
      FirstMeets(a, b, borrow);
      SubOne(a[0], b[0], borrow);
      if !Lost(b[0], borrow) {
        ExactIff(a[1..], b[1..], c);
        hide Excess, BorrowMeetsOnes, SubBorrow;
        forall i | 0 <= i < |a| - 1
          ensures BorrowMeetsOnes(a[1..], b[1..], c, i) <==> BorrowMeetsOnes(a, b, borrow, i + 1)
        {
          MeetsNext(a, b, borrow, i);
        }
        MeetsAll(a, b, borrow, c);
        assert Excess(a, b, borrow) == BASE * Excess(a[1..], b[1..], c) by { ExcessTail(a, b, borrow); }
      }
    }
  }

  lemma FirstMeets(a: seq<int>, b: seq<int>, borrow: nat)
    requires AreLimbs(a) && AreLimbs(b) && |a| == |b| && a != [] && borrow <= 1
    ensures BorrowMeetsOnes(a, b, borrow, 0) <==> Lost(b[0], borrow)
  {
    assert Value(a[..0]) == 0 && Value(b[..0]) == 0;
  }

  lemma ExcessTail(a: seq<int>, b: seq<int>, borrow: nat)
    requires AreLimbs(a) && AreLimbs(b) && |a| == |b| && a != [] && borrow <= 1 && !Lost(b[0], borrow)
    ensures Excess(a, b, borrow) == BASE * Excess(a[1..], b[1..], SubBorrow(a[0], b[0], borrow))
  {
  }

  lemma MeetsAll(a: seq<int>, b: seq<int>, borrow: nat, c: nat)
    requires AreLimbs(a) && AreLimbs(b) && |a| == |b| && a != [] && AreLimbs(a[1..]) && AreLimbs(b[1..])
    requires !BorrowMeetsOnes(a, b, borrow, 0)
    requires forall i | 0 <= i < |a| - 1 :: BorrowMeetsOnes(a[1..], b[1..], c, i) <==> BorrowMeetsOnes(a, b, borrow, i + 1)
    ensures (forall i | 0 <= i < |a| :: !BorrowMeetsOnes(a, b, borrow, i))
       <==> (forall i | 0 <= i < |a| - 1 :: !BorrowMeetsOnes(a[1..], b[1..], c, i))
  {
    hide BorrowMeetsOnes;
    if forall i | 0 <= i < |a| - 1 :: !BorrowMeetsOnes(a[1..], b[1..], c, i) {
      forall i | 0 <= i < |a| ensures !BorrowMeetsOnes(a, b, borrow, i) {
        if i > 0 {
          assert !BorrowMeetsOnes(a[1..], b[1..], c, i - 1);
        }
      }
    }
  }

  lemma MeetsNext(a: seq<int>, b: seq<int>, borrow: nat, i: nat)
    requires AreLimbs(a) && AreLimbs(b) && |a| == |b| && i + 1 < |a| && borrow <= 1 && !Lost(b[0], borrow)
    ensures AreLimbs(a[1..]) && AreLimbs(b[1..])
    ensures BorrowMeetsOnes(a[1..], b[1..], SubBorrow(a[0], b[0], borrow), i) <==> BorrowMeetsOnes(a, b, borrow, i + 1)
  {
    var c := SubBorrow(a[0], b[0], borrow);
    SubOne(a[0], b[0], borrow);
    var x, y := a[..i + 1], b[..i + 1];
    TailOfPrefix(a, i);
    TailOfPrefix(b, i);
    LimbsTail(x);
    LimbsTail(y);
    hide Value, SubBorrow;
    BorrowPasses(a[0], b[0], borrow, c, Value(x[1..]), Value(y[1..]));
  }

  lemma TailOfPrefix(a: seq<int>, i: nat)
    requires i < |a|
    ensures a[..i + 1][1..] == a[1..][..i] && a[..i + 1][0] == a[0]
  {
    var x, y := a[..i + 1][1..], a[1..][..i];
    assert |x| == |y|;
    forall k | 0 <= k < i ensures x[k] == y[k] {
      assert x[k] == a[..i + 1][k + 1] == a[k + 1];
    }
    assert x == y;
  }

  lemma BorrowPasses(a: int, b: int, borrow: nat, c: nat, x: nat, y: nat)
    requires 0 <= a < BASE && 0 <= b && b + borrow < BASE && c <= 1 && (c == 1 <==> a < b + borrow)
    ensures a + BASE * x < b + BASE * y + borrow <==> x < y + c
  {
  }

  /** 2^128 minus (2^128 - 2^64 + 1): the borrow out of the lowest limb meets a limb of all ones, and the result is
      2^128 too large. */
  lemma LostBorrow()
    ensures var a, b := [0, 0, 1], [1, BASE - 1, 0];
            Value(a) > Value(b) && Excess(a, b, 0) == BASE * BASE && Value(Subtract(a, b, 0)) == Value(a) - Value(b) + BASE * BASE
  {
    var a, b := [0, 0, 1], [1, BASE - 1, 0];
    ValueThree(0, 0, 1);
    ValueThree(1, BASE - 1, 0);
    assert a[1..] == [0, 1] && b[1..] == [BASE - 1, 0] && a[1..][1..] == [1] && b[1..][1..] == [0];
    assert SubBorrow(0, 1, 0) == 1 && SubBorrow(0, BASE - 1, 1) == 0;
    assert Excess([1], [0], 0) == 0 by { ExcessOne(); }
    assert Excess([0, 1], [BASE - 1, 0], 1) == BASE;
    assert Excess(a, b, 0) == BASE * Excess([0, 1], [BASE - 1, 0], 1);
    hide Value, Subtract, Excess;
    DifferenceValue(a, b);
  }

  lemma ExcessOne()
    ensures Excess([1], [0], 0) == 0
  {
    var a: seq<int>, b: seq<int> := [1], [0];
    assert a[1..] == [] && b[1..] == [];
    assert Excess([], [], SubBorrow(1, 0, 0)) == 0;
  }

  lemma ValueThree(x: int, y: int, z: int)
    requires 0 <= x < BASE && 0 <= y < BASE && 0 <= z < BASE
    ensures Value([x, y, z]) == x + BASE * (y + BASE * z)
  {
    hide Value;
    SingleLimb([z], z);
    ValueCons(y, [z]);
    ValueCons(x, [y, z]);
    assert [y] + [z] == [y, z] && [x] + [y, z] == [x, y, z];
  }

  class BigInteger {
    const digits: array<int>
    var count: nat

    ghost predicate Valid()
      reads this, digits
    {
      digits.Length == CAPACITY && 1 <= count <= CAPACITY && Canonical(digits[..count])
    }

    /** The integer held. */
    ghost function Val(): nat
      requires Valid()
      reads this, digits
    {
      Value(digits[..count])
    }

    /** Whether an integer is within the capacity. */
    ghost predicate Holds(n: nat)
    {
      digits.Length >= 2 && n < Power(BASE, digits.Length)
    }

    /** The same with a limb to spare, which the shift in place may write to. */
    ghost predicate Fits(n: nat)
    {
      digits.Length >= 2 && n < Power(BASE, digits.Length - 1)
    }

    lemma FitsHolds(n: nat)
      ensures Fits(n) ==> Holds(n)
    {
      hide Power;
      if digits.Length >= 1 {
        PowerMonotone(BASE, digits.Length - 1, digits.Length);
      }
    }

    constructor (u: nat)
      requires u < BASE
      ensures Valid() && Val() == u && fresh(digits) && count == 1 && digits.Length == CAPACITY
    {
      digits := new int[CAPACITY];
      count := 1;
      new;
      digits[0] := u;
      SingleLimb(digits[..1], u);
    }

    method Set(u: nat)
      requires Valid() && u < BASE
      modifies this`count, digits
      ensures Valid() && Val() == u
    {
      digits[0] := u;
      count := 1;
      SingleLimb(digits[..1], u);
    }

    method PushBack(digit: nat)
      requires count < digits.Length
      modifies this`count, digits
      ensures count == old(count) + 1 && digits[..count] == old(digits[..count]) + [digit as int]
    {
      digits[count] := digit;
      count := count + 1;
    }

    /** `*=` by a limb. */
    method Mul64(u: nat)
      requires Valid() && u < BASE && Holds(Val() * u)
      modifies this`count, digits
      ensures Valid() && Val() == old(Val()) * u
    {
      hide Value, MulAdd, Power, Canonical, MulState;
      ghost var s := digits[..count];
      if u == 0 {
        Set(0);
        return;
      }
      if u == 1 {
        return;
      }
      SmallNumbers(s);
      if count == 1 && digits[0] == 1 {
        Set(u);
        return;
      }
      MulResult(s, u, digits.Length + 1);
      MulStart(s, digits[..], u);
      var k: nat, i := 0, 0;
      while i < count
        invariant i <= count == |s| && count <= digits.Length == CAPACITY && k < BASE
        invariant MulState(s, digits[..], i, u, k)
      {
        MulAt(s, digits[..], i, u, k);
        ghost var was := digits[..];
        var lo, hi := MulAdd64(digits[i], u, k);
        MulStep(s, was, i, u, k, lo, hi);
        digits[i] := lo;
        assert digits[..] == was[i := lo as int];
        k, i := hi, i + 1;
      }
      MulDone(s, digits[..], u, k);
      assert digits[..][..|s|] == digits[..count];
      if k > 0 {
        PushBack(k);
      }
      assert digits[..count] == MulAdd(s, u, 0);
    }

    /** `*=` by a 32-bit integer. */
    method Mul32(u: nat)
      requires Valid() && u < HALF && Holds(Val() * u)
      modifies this`count, digits
      ensures Valid() && Val() == old(Val()) * u
    {
      hide Value, MulAdd, Power, Canonical, MulState;
      ghost var s := digits[..count];
      if u == 0 {
        Set(0);
        return;
      }
      if u == 1 {
        return;
      }
      SmallNumbers(s);
      if count == 1 && digits[0] == 1 {
        Set(u);
        return;
      }
      MulResult(s, u, digits.Length + 1);
      MulStart(s, digits[..], u);
      var k: nat, i := 0, 0;
      while i < count
        invariant i <= count == |s| && count <= digits.Length == CAPACITY && k < HALF
        invariant MulState(s, digits[..], i, u, k)
      {
        MulAt(s, digits[..], i, u, k);
        ghost var was := digits[..];
        var lo, hi := MulAdd32(digits[i], u, k);
        MulStep(s, was, i, u, k, lo, hi);
        digits[i] := lo;
        assert digits[..] == was[i := lo as int];
        k, i := hi, i + 1;
      }
      MulDone(s, digits[..], u, k);
      assert digits[..][..|s|] == digits[..count];
      if k > 0 {
        PushBack(k);
      }
      assert digits[..count] == MulAdd(s, u, 0);
    }

    /** `+=` of a limb: the carry stops at the first limb that does not wrap. */
    method Add(u: nat)
      requires Valid() && u < BASE && Holds(Val() + u)
      modifies this`count, digits
      ensures Valid() && Val() == old(Val()) + u
    {
      hide Value, AddTo, Power, Canonical, AddState;
      ghost var s := digits[..count];
      SmallNumbers(s);
      AddResult(s, u, digits.Length + 1);
      AddStart(s, digits[..], u);
      ghost var was := digits[..];
      var backup := digits[0];
      digits[0] := (digits[0] + u) % BASE;
      assert digits[..] == was[0 := digits[0]];
      var i := 0;
      while i < count - 1
        invariant i < count == |s| <= digits.Length == CAPACITY && backup == s[i]
        invariant AddState(s, digits[..], i, u)
      {
        if digits[i] >= backup {
          AddStop(s, digits[..], i, u);
          assert digits[..][..count] == digits[..count];
          return;
        }
        was := digits[..];
        AddStep(s, was, i, u);
        backup := digits[i + 1];
        digits[i + 1] := (digits[i + 1] + 1) % BASE;
        assert digits[..] == was[i + 1 := digits[i + 1]];
        i := i + 1;
      }
      assert digits[..][..count] == digits[..count];
      if digits[count - 1] < backup {
        AddTop(s, digits[..], i, u);
        PushBack(1);
      } else {
        AddStop(s, digits[..], i, u);
      }
    }

    predicate IsZero()
      reads this, digits
      requires digits.Length == CAPACITY
    {
      count == 1 && digits[0] == 0
    }

    /** `<<=` by whole limbs. */
    method ShiftLimbs(offset: nat)
      requires Valid() && count + offset <= CAPACITY
      modifies this`count, digits
      ensures count == old(count) + offset && digits.Length == CAPACITY
      ensures digits[..count] == Zeros(offset) + old(digits[..count])
    {
      hide Canonical, AreLimbs;
      ghost var s := digits[..count];
      forall i | 0 <= i < count {
        digits[i + offset] := digits[i];
      }
      assert forall j | 0 <= j < |s| :: digits[j + offset] == s[j];
      count := count + offset;
      ClearLow(offset);
      ghost var r := Zeros(offset) + s;
      forall j | 0 <= j < count ensures digits[j] == r[j] {
        if j >= offset {
          assert digits[(j - offset) + offset] == s[j - offset];
        } else {
          ZeroAt(offset, j);
        }
      }
      assert digits[..count] == r;
    }

    /** The memset of the lowest limbs. */
    method ClearLow(n: nat)
      requires n <= digits.Length
      modifies digits
      ensures forall j | 0 <= j < n :: digits[j] == 0
      ensures forall j | n <= j < digits.Length :: digits[j] == old(digits[j])
    {
      forall i | 0 <= i < n {
        digits[i] := 0;
      }
    }

    /** `<<=` with bits left over, from the top limb down: each limb takes bits from the one below it, which has not
        been overwritten yet. */
    method ShiftBits(offset: nat, k: nat)
      requires Valid() && 0 < k < 64 && count + offset < CAPACITY
      modifies this`count, digits
      ensures digits.Length == CAPACITY && count == old(count) + offset
      ensures count < CAPACITY && 0 < Power(2, k) && digits[..count + 1] == Zeros(offset) + ShiftFrom(old(digits[..count]), 0, k)
    {
      hide Power, ShiftFrom, Canonical, ShiftState;
      ghost var s := digits[..count];
      SmallNumbers(s);
      PowerOfTwo(k);
      digits[count] := 0;
      ShiftStart(s, digits[..], offset, k);
      var i := count;
      while i > 0
        invariant 0 <= i <= count == |s| && count + offset < digits.Length == CAPACITY
        invariant ShiftState(s, digits[..], offset, k, i)
      {
        ghost var was := digits[..];
        ShiftStep(s, was, offset, k, i);
        digits[i + offset] := digits[i] * Power(2, k) % BASE + digits[i - 1] / Power(2, 64 - k);
        assert digits[..] == was[i + offset := digits[i + offset]];
        i := i - 1;
      }
      ghost var was := digits[..];
      ShiftLast(s, was, offset, k);
      digits[offset] := digits[0] * Power(2, k) % BASE;
      assert digits[..] == was[offset := digits[offset]];
      was := digits[..];
      count := count + offset;
      ClearLow(offset);
      ShiftClear(s, was, digits[..], offset, k);
      ShiftDone(s, digits[..], offset, k);
      assert digits[..][..count + 1] == digits[..count + 1];
    }

    /** `<<=` */
    method ShiftLeft(shift: nat)
      requires Valid() && Fits(Val() * Power(2, shift))
      modifies this`count, digits
      ensures Valid() && Val() == old(Val()) * Power(2, shift)
    {
      hide Power, ShiftFrom, Canonical, Value, Zeros;
      ghost var s := digits[..count];
      SmallNumbers(s);
      PowerOne(2);
      if IsZero() || shift == 0 {
        return;
      }
      NotZero(s);
      var offset, interShift := shift / 64, shift % 64;
      ShiftSplit(Value(s), shift);
      if interShift == 0 {
        ShiftWhole(s, offset, digits.Length);
        ShiftLimbs(offset);
      } else {
        ShiftResult(s, offset, interShift, digits.Length);
        ShiftBits(offset, interShift);
        ghost var r := digits[..count + 1];
        assert r[..count] == digits[..count] && r[count] == digits[count];
        if digits[count] != 0 {
          count := count + 1;
        }
      }
    }

    /** Multiplies by 5^exp in steps of 27, 13 and the rest. */
    method MultiplyPow5(exp: nat)
      requires Valid() && Holds(Val() * Power(5, exp))
      modifies this`count, digits
      ensures Valid() && Val() == old(Val()) * Power(5, exp)
    {
      hide Power, Canonical, Value, FiveTo;
      ghost var v := Val();
      FiveConstants();
      PowerOne(5);
      NatProduct(v, Power(5, exp));
      ghost var total: nat := v * Power(5, exp);
      var e: nat := exp;
      while e >= 27
        invariant Valid() && e <= exp && Val() * Power(5, e) == total
      {
        Portion(Val(), 27, e, total, Power(BASE, digits.Length));
        Mul64(0x6765C793FA10079D);
        e := e - 27;
      }
      while e >= 13
        invariant Valid() && e < 27 && Val() * Power(5, e) == total
      {
        Portion(Val(), 13, e, total, Power(BASE, digits.Length));
        Mul32(1220703125);
        e := e - 13;
      }
      if e > 0 {
        FiveTable(e);
        Mul32(FiveTo(e));
      } else {
        assert Val() * Power(5, e) == Val() * 1;
      }
    }

    /** ParseUint64: at most 19 digits never overflow. */
    static method ParseUint64(s: seq<int>) returns (r: nat)
      requires Decimals.AllDigits(s) && |s| <= 19
      ensures r == Decimals.ValueOf(s) < BASE
    {
      hide Decimals.ValueOf;
      r := 0;
      NoDigits();
      var i := 0;
      assert s[..0] == [];
      while i < |s|
        invariant i <= |s| && r == Decimals.ValueOf(s[..i])
      {
        Decimals.ValuePush(s[..i], s[i]);
        assert s[..i] + [s[i]] == s[..i + 1];
        DigitsFit(s[..i + 1]);
        r := (r * 10 + (s[i] - '0' as int)) % BASE;
        i := i + 1;
      }
      assert s[..i] == s;
      DigitsFit(s);
    }

    /** Ten to the number of digits times this, plus the digits. */
    method AppendDecimal64(s: seq<int>)
      requires Valid() && Decimals.AllDigits(s) && |s| <= 19
      requires Fits(Appended(Val(), s))
      modifies this`count, digits
      ensures Valid() && Val() == Appended(old(Val()), s)
    {
      hide Power, Canonical, Value, Decimals.ValueOf, Decimals.Pow10;
      var u := ParseUint64(s);
      SmallNumbers(digits[..count]);
      if IsZero() {
        Set(u);
      } else {
        AppendDigits(Val(), |s|, u);
        FitsHolds(Val() * Power(5, |s|));
        MultiplyPow5(|s|);
        ShiftLeft(|s|);
        FitsHolds(Val() + u);
        Add(u);
      }
    }

    /** The decimal constructor: nineteen digits at a time. */
    constructor FromDecimal(decimals: seq<int>)
      requires decimals != [] && Decimals.AllDigits(decimals) && Decimals.ValueOf(decimals) < Limit(CAPACITY)
      ensures Valid() && Val() == Decimals.ValueOf(decimals) && fresh(digits)
    {
      hide Power, Canonical, Value, Decimals.ValueOf, Decimals.Pow10, Limit;
      digits := new int[CAPACITY];
      count := 1;
      new;
      digits[0] := 0;
      SingleLimb(digits[..1], 0);
      LimitIs(digits.Length);
      NoDigits();
      var length: nat, i: nat := |decimals|, 0;
      assert decimals[..0] == [];
      while length >= 19
        invariant Valid() && i + length == |decimals| && Val() == Decimals.ValueOf(decimals[..i])
      {
        PrefixValue(decimals, i, i + 19);
        AppendDecimal64(decimals[i..i + 19]);
        length, i := length - 19, i + 19;
      }
      if length > 0 {
        PrefixValue(decimals, i, i + length);
        AppendDecimal64(decimals[i..i + length]);
      }
      assert decimals[..i + length] == decimals;
    }

    /** The order of the integers, by the number of limbs and then from the top limb down. */
    method Compare(rhs: BigInteger) returns (c: int)
      requires Valid() && rhs.Valid()
      ensures c == if Val() < rhs.Val() then -1 else if Val() == rhs.Val() then 0 else 1
    {
      hide Value, Power, Canonical;
      ghost var s, t := digits[..count], rhs.digits[..rhs.count];
      SmallNumbers(s);
      SmallNumbers(t);
      if count != rhs.count {
        if count < rhs.count {
          LongerIsLarger(s, t);
          return -1;
        }
        LongerIsLarger(t, s);
        return 1;
      }
      var i := count;
      assert s[count..] == t[count..];
      while i > 0
        invariant 0 <= i <= count && s[i..] == t[i..]
      {
        i := i - 1;
        if digits[i] != rhs.digits[i] {
          assert s[i] == digits[i] && t[i] == rhs.digits[i];
          if digits[i] < rhs.digits[i] {
            TopDecides(s, t, i);
            return -1;
          }
          TopDecides(t, s, i);
          return 1;
        }
        assert s[i..] == [s[i]] + s[i + 1..] && t[i..] == [t[i]] + t[i + 1..];
      }
      assert s[0..] == s && t[0..] == t;
      return 0;
    }

    /** The limbs of a - b, for a larger than b, with the borrow as it is computed; and their normal form. */
    static method SubtractInto(a: BigInteger, b: BigInteger, out: BigInteger)
      requires a.Valid() && b.Valid() && b.count <= a.count && out.digits.Length == CAPACITY && out.count == 1
      requires out != a && out != b && out.digits != a.digits && out.digits != b.digits
      requires Value(a.digits[..a.count]) > Value(b.digits[..b.count])
      modifies out`count, out.digits
      ensures AreLimbs(a.digits[..a.count]) && AreLimbs(Padded(b.digits[..b.count], a.count))
      ensures out.Valid() && out.Val() == Value(Subtract(a.digits[..a.count], Padded(b.digits[..b.count], a.count), 0))
    {
      hide Value, Power, Canonical, Subtract, SubDigit, SubBorrow, SubState, Padded;
      SmallNumbers(a.digits[..a.count]);
      SmallNumbers(b.digits[..b.count]);
      ghost var s, t := a.digits[..a.count], Padded(b.digits[..b.count], a.count);
      PaddedValue(b.digits[..b.count], a.count);
      SubStart(s, t, out.digits[..]);
      var borrow, i: nat := 0, 0;
      while i < a.count
        invariant i <= a.count == |s| <= out.digits.Length && out.digits.Length == CAPACITY && borrow <= 1
        invariant SubState(s, t, out.digits[..], out.count, i, borrow)
      {
        PaddedAt(b.digits[..b.count], a.count, i);
        var d := SubDigit(a.digits[i], if i < b.count then b.digits[i] else 0, borrow);
        ghost var was := out.digits[..];
        SubStep(s, t, was, out.count, i, borrow);
        borrow := SubBorrow(a.digits[i], if i < b.count then b.digits[i] else 0, borrow);
        out.digits[i] := d;
        assert out.digits[..] == was[i := d];
        if d != 0 {
          out.count := i + 1;
        }
        i := i + 1;
      }
      SubEnd(s, t, out.digits[..], out.count, borrow);
      assert out.digits[..][..out.count] == out.digits[..out.count];
    }

    /** `Difference` IS THE ABSOLUTE DIFFERENCE exactly when no borrow comes into an all-ones limb of the subtrahend;
        otherwise it is larger. */
    method Difference(rhs: BigInteger, out: BigInteger) returns (less: bool)
      requires Valid() && rhs.Valid() && Val() != rhs.Val() && out.digits.Length == CAPACITY && out.count == 1
      requires out != this && out != rhs && out.digits != digits && out.digits != rhs.digits
      modifies out`count, out.digits
      ensures less <==> Val() < rhs.Val()
      ensures out.Valid()
      ensures out.Val() >= if less then rhs.Val() - Val() else Val() - rhs.Val()
      ensures out.Val() == (if less then rhs.Val() - Val() else Val() - rhs.Val())
         <==> (if less then ExactDifference(rhs.Val(), Val()) else ExactDifference(Val(), rhs.Val()))
    {
      hide Value, Power, Canonical, Subtract, Excess, Padded, Surplus, ExactDifference;
      var cmp := Compare(rhs);
      less := cmp < 0;
      if less {
        CountOrder(digits[..count], rhs.digits[..rhs.count]);
        SubtractInto(rhs, this, out);
        SurplusIs(rhs.digits[..rhs.count], digits[..count]);
        SurplusZero(rhs.digits[..rhs.count], digits[..count]);
      } else {
        CountOrder(rhs.digits[..rhs.count], digits[..count]);
        SubtractInto(this, rhs, out);
        SurplusIs(digits[..count], rhs.digits[..rhs.count]);
        SurplusZero(digits[..count], rhs.digits[..rhs.count]);
      }
    }
  }

  lemma NoDigits()
    ensures Decimals.ValueOf([]) == 0
  {
  }

  /** b, with zeros up to n limbs. */
  function Padded(b: seq<int>, n: nat): (r: seq<int>)
    requires AreLimbs(b) && |b| <= n
    ensures AreLimbs(r) && |r| == n
  {
    b + Zeros(n - |b|)
  }

  lemma PaddedAt(b: seq<int>, n: nat, i: nat)
    requires AreLimbs(b) && |b| <= n && i < n
    ensures Padded(b, n)[i] == if i < |b| then b[i] else 0
  {
    if i >= |b| {
      ZeroAt(n - |b|, i - |b|);
    }
  }

  lemma {:induction false} PaddedValue(b: seq<int>, n: nat)
    requires AreLimbs(b) && |b| <= n
    ensures Value(Padded(b, n)) == Value(b)
    decreases |b|
  {
    if b == [] {
      ZerosValue(n, []);
      assert Zeros(n) + [] == Padded(b, n);
    } else {
      PaddedValue(b[1..], n - 1);
      assert Padded(b, n) == [b[0]] + Padded(b[1..], n - 1);
      LimbsTail(b);
      hide Value, Padded;
      ValueCons(b[0], Padded(b[1..], n - 1));
    }
  }

  /** The excess of a - b for operands as they are held. */
  ghost function Surplus(a: seq<int>, b: seq<int>): nat
  {
    if AreLimbs(a) && AreLimbs(b) && |b| <= |a| then Excess(a, Padded(b, |a|), 0) else 0
  }

  lemma SurplusIs(a: seq<int>, b: seq<int>)
    requires AreLimbs(a) && AreLimbs(b) && |b| <= |a| && Value(a) > Value(b)
    ensures Value(Subtract(a, Padded(b, |a|), 0)) == Value(a) - Value(b) + Surplus(a, b)
  {
    hide Value, Subtract, Excess, Padded;
    PaddedValue(b, |a|);
    DifferenceValue(a, Padded(b, |a|));
  }

  lemma CountOrder(a: seq<int>, b: seq<int>)
    requires Canonical(a) && Canonical(b) && Value(a) < Value(b)
    ensures |a| <= |b| && AreLimbs(a) && AreLimbs(b)
  {
    hide Value;
    if |a| > |b| {
      LongerIsLarger(b, a);
    }
  }

  /** ---- Exactness, in terms of the integers alone ---- */

  /** In a - b, a borrow comes into limb i, which is all ones in b. */
  ghost predicate BorrowMeets(a: nat, b: nat, i: nat) {
    var p := Power(BASE, i);
    p > 0 && b / p % BASE == BASE - 1 && a % p < b % p
  }

  ghost predicate ExactDifference(a: nat, b: nat) {
    forall i: nat :: !BorrowMeets(a, b, i)
  }

  /** The limbs of a number are its digits to the base. */
  lemma {:induction false} LimbIs(s: seq<int>, i: nat)
    requires AreLimbs(s) && i < |s|
    ensures Power(BASE, i) > 0 && s[i] == Value(s) / Power(BASE, i) % BASE && Value(s[..i]) == Value(s) % Power(BASE, i)
    decreases i
  {
    LimbsTail(s);
    if i == 0 {
      assert s[..0] == [];
      hide Value;
      PowerOne(BASE);
      DivModSmall(s[0], Value(s[1..]));
      assert Value([]) == 0 by { ValueNone(); }
    } else {
      var v, p := Value(s[1..]), Power(BASE, i - 1);
      LimbIs(s[1..], i - 1);
      assert s[..i] == [s[0]] + s[1..][..i - 1];
      hide Value;
      ValueCons(s[0], s[1..][..i - 1]);
      PowerNext(BASE, i - 1);
      hide Power;
      DigitShift(s[0], v, p);
    }
  }

  lemma ValueNone()
    ensures Value([]) == 0
  {
  }

  lemma DivModSmall(d: int, v: nat)
    requires 0 <= d < BASE
    ensures (d + BASE * v) / 1 % BASE == d && (d + BASE * v) % 1 == 0
  {
    DivMod(v, d);
  }

  lemma DigitShift(d: int, v: nat, p: nat)
    requires 0 <= d < BASE && p > 0
    ensures BASE * p > 0 && (d + BASE * v) / (BASE * p) == v / p && (d + BASE * v) % (BASE * p) == d + BASE * (v % p)
  {
    var q, r := v / p, v % p;
    Scale(r, p, d);
    assert v == p * q + r;
    Spread(v, BASE, p, q, r);
    Swap(q, p, BASE);
    assert d + BASE * v == q * (BASE * p) + (d + BASE * r) by { Gather(d, v, p, q, r); }
    Unique(d + BASE * v, BASE * p, q, d + BASE * r);
  }

  lemma Gather(d: int, v: nat, p: nat, q: nat, r: nat)
    requires v == p * q + r
    ensures d + BASE * v == q * (BASE * p) + (d + BASE * r)
  {
    assert q * (BASE * p) == BASE * (p * q);
  }

  /** `Difference` IS EXACT, in its limbs and in the integers alike, on the same operands. */
  lemma SurplusZero(s: seq<int>, t: seq<int>)
    requires AreLimbs(s) && AreLimbs(t) && |t| <= |s|
    ensures Surplus(s, t) == 0 <==> ExactDifference(Value(s), Value(t))
  {
    hide Value, Excess, Padded, Power;
    var u := Padded(t, |s|);
    PaddedValue(t, |s|);
    ExactIff(s, u, 0);
    forall i: nat ensures BorrowMeets(Value(s), Value(t), i) <==> i < |s| && BorrowMeetsOnes(s, u, 0, i) {
      if i < |s| {
        LimbIs(s, i);
        LimbIs(u, i);
      } else {
        NoLimb(u, i);
      }
    }
  }

  /** Above its top limb a number has no digit. */
  lemma NoLimb(s: seq<int>, i: nat)
    requires AreLimbs(s) && i >= |s|
    ensures Power(BASE, i) > 0 && Value(s) / Power(BASE, i) == 0
  {
    hide Value, Power;
    ValueBound(s);
    PowerMonotone(BASE, |s|, i);
    QuotientZero(Value(s), Power(BASE, i));
  }

  lemma QuotientZero(v: nat, p: nat)
    requires v < p
    ensures v / p == 0
  {
    Unique(v, p, 0, v);
  }

  /** The first i limbs of the difference are written, and the count covers the last that is not zero. */
  ghost predicate SubState(s: seq<int>, t: seq<int>, d: seq<int>, count: nat, i: nat, borrow: nat) {
    && AreLimbs(s) && AreLimbs(t) && |s| == |t| && i <= |s| <= |d| && borrow <= 1
    && AreLimbs(s[i..]) && AreLimbs(t[i..]) && AreLimbs(d[..i])
    && d[..i] + Subtract(s[i..], t[i..], borrow) == Subtract(s, t, 0)
    && 1 <= count && (if i == 0 then count == 1 else count <= i) && (forall j | count <= j < i :: d[j] == 0)
    && (i > 0 && count > 1 ==> d[count - 1] != 0)
  }

  lemma SubStart(s: seq<int>, t: seq<int>, d: seq<int>)
    requires AreLimbs(s) && AreLimbs(t) && |s| == |t| <= |d|
    ensures SubState(s, t, d, 1, 0, 0)
  {
    assert s[0..] == s && t[0..] == t;
    assert [] + Subtract(s, t, 0) == Subtract(s, t, 0);
  }

  lemma SubStep(s: seq<int>, t: seq<int>, d: seq<int>, count: nat, i: nat, borrow: nat)
    requires SubState(s, t, d, count, i, borrow) && i < |s|
    ensures var x := SubDigit(s[i], t[i], borrow);
            SubState(s, t, d[i := x], if x != 0 then i + 1 else count, i + 1, SubBorrow(s[i], t[i], borrow))
  {
    var x := SubDigit(s[i], t[i], borrow);
    var d' := d[i := x];
    SubPeel(s, t, i, borrow);
    SubKeeps(d, count, i, x);
    hide Subtract, SubDigit, SubBorrow, AreLimbs;
    assert d'[..i + 1] == d[..i] + [x];
    assert d'[..i + 1] + Subtract(s[i + 1..], t[i + 1..], SubBorrow(s[i], t[i], borrow))
        == d[..i] + ([x] + Subtract(s[i + 1..], t[i + 1..], SubBorrow(s[i], t[i], borrow)));
  }

  lemma SubKeeps(d: seq<int>, count: nat, i: nat, x: int)
    requires i < |d| && AreLimbs(d[..i]) && 0 <= x < BASE
    requires 1 <= count && (if i == 0 then count == 1 else count <= i) && forall j | count <= j < i :: d[j] == 0
    ensures AreLimbs(d[i := x][..i + 1])
    ensures var d' := d[i := x]; x == 0 ==> forall j | count <= j < i + 1 :: d'[j] == 0
  {
    assert d[i := x][..i + 1] == d[..i] + [x];
  }

  lemma SubPeel(s: seq<int>, t: seq<int>, i: nat, borrow: nat)
    requires AreLimbs(s) && AreLimbs(t) && |s| == |t| && i < |s| && borrow <= 1 && AreLimbs(s[i..]) && AreLimbs(t[i..])
    ensures AreLimbs(s[i + 1..]) && AreLimbs(t[i + 1..])
    ensures Subtract(s[i..], t[i..], borrow)
         == [SubDigit(s[i], t[i], borrow)] + Subtract(s[i + 1..], t[i + 1..], SubBorrow(s[i], t[i], borrow))
  {
    assert s[i..][0] == s[i] && s[i..][1..] == s[i + 1..];
    assert t[i..][0] == t[i] && t[i..][1..] == t[i + 1..];
  }

  lemma SubEnd(s: seq<int>, t: seq<int>, d: seq<int>, count: nat, borrow: nat)
    requires SubState(s, t, d, count, |s|, borrow) && s != []
    ensures 1 <= count <= |s| && Canonical(d[..count]) && Value(d[..count]) == Value(Subtract(s, t, 0))
  {
    hide Value, SubDigit, SubBorrow;
    assert s[|s|..] == [] && t[|s|..] == [];
    assert Subtract([], [], borrow) == [];
    hide Subtract;
    assert d[..|s|] + [] == d[..|s|];
    DropZeros(d[..|s|], count);
    assert d[..|s|][..count] == d[..count];
  }

  /** Leading zeros do not count. */
  lemma {:induction false} DropZeros(r: seq<int>, n: nat)
    requires AreLimbs(r) && n <= |r| && forall j | n <= j < |r| :: r[j] == 0
    ensures AreLimbs(r[..n]) && Value(r[..n]) == Value(r)
    decreases |r|
  {
    if n < |r| {
      DropZero(r);
      DropZeros(r[..|r| - 1], n);
      assert r[..|r| - 1][..n] == r[..n];
    } else {
      assert r[..n] == r;
    }
  }

  /** The table kPow5. */
  function FiveTo(exp: nat): nat
    requires 1 <= exp <= 12
  {
    [5, 25, 125, 625, 3125, 15625, 78125, 390625, 1953125, 9765625, 48828125, 244140625][exp - 1]
  }

  lemma FiveConstants()
    ensures Power(5, 13) == 1220703125 && Power(5, 27) == 0x6765C793FA10079D
  {
    hide Power;
    PowerOne(5);
    PowerAdd(5, 1, 1);
    PowerAdd(5, 2, 1);
    PowerAdd(5, 3, 3);
    PowerAdd(5, 6, 6);
    PowerAdd(5, 12, 1);
    PowerAdd(5, 13, 13);
    PowerAdd(5, 26, 1);
  }

  lemma FiveTable(e: nat)
    requires 1 <= e <= 12
    ensures FiveTo(e) == Power(5, e) && FiveTo(e) < HALF
    decreases e
  {
    if e == 1 {
      PowerOne(5);
    } else {
      FiveTable(e - 1);
      PowerNext(5, e - 1);
      hide Power;
    }
  }

  lemma NatProduct(a: nat, b: nat)
    ensures a * b >= 0
  {
  }

  /** A factor of a product that fits, fits. */
  lemma Portion(n: nat, part: nat, e: nat, total: nat, limit: nat)
    requires part <= e && n * Power(5, e) == total < limit
    ensures n * Power(5, part) < limit && n * Power(5, part) * Power(5, e - part) == total
  {
    hide Power;
    PowerAdd(5, part, e - part);
    Regroup(n, Power(5, part), Power(5, e - part));
    Grow(Power(5, e - part), n * Power(5, part));
    Swap(n * Power(5, part), 1, Power(5, e - part));
  }

  lemma ShiftStart(s: seq<int>, d: seq<int>, offset: nat, k: nat)
    requires AreLimbs(s) && 0 < k < 64 && |s| + offset < |d| && d[..|s|] == s && d[|s|] == 0
    ensures ShiftState(s, d, offset, k, |s|)
  {
    forall j | 0 <= j < |s| ensures d[j] == s[j] {
      assert d[..|s|][j] == s[j];
    }
  }

  /** Clearing the lowest limbs does not touch the shifted ones. */
  lemma ShiftClear(s: seq<int>, d: seq<int>, d': seq<int>, offset: nat, k: nat)
    requires ShiftState(s, d, offset, k, -1) && |d'| == |d| && forall j | offset <= j < |d| :: d'[j] == d[j]
    ensures ShiftState(s, d', offset, k, -1)
  {
    hide Power, ShiftFrom;
  }

  lemma NotZero(s: seq<int>)
    requires Canonical(s)
    ensures Value(s) == 0 <==> s == [0]
  {
    if |s| == 1 {
      assert s[1..] == [];
    } else {
      hide Value;
      ValueLeading(s);
    }
  }

  /** A shift by whole limbs. */
  lemma ShiftWhole(s: seq<int>, offset: nat, cap: nat)
    requires Canonical(s) && Value(s) != 0 && cap >= 2
    requires Value(s) * Power(2, 0) * Power(BASE, offset) < Power(BASE, cap - 1)
    ensures var r := Zeros(offset) + s; Canonical(r) && Value(r) == Value(s) * Power(2, 0) * Power(BASE, offset) && |r| < cap
  {
    hide Value, Power;
    PowerOne(2);
    ZerosValue(offset, s);
    SmallNumbers(s);
    FitsCount(Zeros(offset) + s, cap);
  }

  /** A shift by bits: what is left once a leading zero is dropped. */
  lemma ShiftResult(s: seq<int>, offset: nat, k: nat, cap: nat)
    requires Canonical(s) && Value(s) != 0 && 0 < k < 64 && cap >= 2
    requires Value(s) * Power(2, k) * Power(BASE, offset) < Power(BASE, cap - 1)
    ensures 0 < Power(2, k) && AreLimbs(s)
    ensures var r := Zeros(offset) + ShiftFrom(s, 0, k); var n := |r| - 1;
            var t := if r[n] != 0 then r else r[..n];
            Canonical(t) && Value(t) == Value(s) * Power(2, k) * Power(BASE, offset) && n == |s| + offset && |t| < cap && n < cap
  {
    hide Value, Power, ShiftFrom;
    PowerOfTwo(k);
    ShiftFromValue(s, 0, k);
    ShiftTop(s, k);
    var r := Zeros(offset) + ShiftFrom(s, 0, k);
    ZerosValue(offset, ShiftFrom(s, 0, k));
    var n := |r| - 1;
    if r[n] == 0 {
      DropZero(r);
    }
    FitsCount(if r[n] != 0 then r else r[..n], cap);
  }

  /** A leading zero does not count. */
  lemma {:induction false} DropZero(r: seq<int>)
    requires AreLimbs(r) && r != [] && r[|r| - 1] == 0
    ensures Value(r[..|r| - 1]) == Value(r)
    decreases |r|
  {
    if |r| == 1 {
      assert r[1..] == [] && r[..0] == [];
    } else {
      DropZero(r[1..]);
      assert r[1..][..|r| - 2] == r[..|r| - 1][1..];
    }
  }

  lemma SingleLimb(s: seq<int>, u: nat)
    requires s == [u as int] && u < BASE
    ensures Canonical(s) && Value(s) == u
  {
    assert s[1..] == [];
  }

  lemma SmallNumbers(s: seq<int>)
    requires Canonical(s)
    ensures |s| == 1 ==> Value(s) == s[0]
    ensures AreLimbs(s) && s != []
  {
    if |s| == 1 {
      assert s[1..] == [];
    }
  }
}
