/** The integer path of `ParseNumber` of reader.h: which event a run of digits becomes, and when it is left for the
    floating-point path. */
module JsonNumbers {
  import opened Decimals
  import opened JsonEvents
  import Itoa

  const TWO31 := 0x8000_0000
  const TWO32 := 0x1_0000_0000
  const TWO63 := 0x8000_0000_0000_0000
  const TWO64 := 0x1_0000_0000_0000_0000

  /** The end of the run of digits at pos. */
  function DigitsEnd(src: seq<int>, pos: nat): (end: nat)
    requires pos <= |src|
    ensures pos <= end <= |src| && AllDigits(src[pos..end])
    decreases |src| - pos
  {
    if !IsDigit(At(src, pos)) then pos
    else
      var end := DigitsEnd(src, pos + 1);
      assert src[pos..end] == [src[pos]] + src[pos + 1..end];
      end
  }

  /** An integer, the floating-point path, or an error. */
  datatype IntegerScan = Integral(n: Number, end: nat) | Floating | Invalid(code: ErrorCode, offset: nat)

  /** The smallest event type that holds a magnitude; beyond 64 bits a number is a double. */
  function IntegerEvent(minus: bool, v: nat, end: nat): IntegerScan {
    if minus then (if v <= TWO31 then Integral(Int(-(v as int)), end) else if v <= TWO63 then Integral(Int64(-(v as int)), end) else Floating)
    else if v < TWO32 then Integral(Uint(v), end)
    else if v < TWO64 then Integral(Uint64(v), end)
    else Floating
  }

  /** What makes a number a double although its integer part fits. */
  predicate Continues(c: int) {
    c == '.' as int || c == 'e' as int || c == 'E' as int
  }

  /** What `ParseNumber` is to find at pos. */
  function IntegerAt(src: seq<int>, pos: nat): IntegerScan
    requires pos <= |src|
  {
    var minus := At(src, pos) == '-' as int;
    var p := if minus then pos + 1 else pos;
    var c := At(src, p);
    if !IsDigit(c) then (if c == 'I' as int || c == 'N' as int then Floating else Invalid(ValueInvalid, p))
    else
      var end := if c == '0' as int then p + 1 else DigitsEnd(src, p);
      if Continues(At(src, end)) then Floating
      else IntegerEvent(minus, if c == '0' as int then 0 else ValueOf(src[p..end]), end)
  }

  lemma ValueNext(src: seq<int>, start: nat, q: nat)
    requires start <= q < |src| && AllDigits(src[start..q]) && IsDigit(src[q])
    ensures AllDigits(src[start..q + 1])
    ensures ValueOf(src[start..q + 1]) == ValueOf(src[start..q]) * 10 + (src[q] - '0' as int)
  {
    assert src[start..q + 1] == src[start..q] + [src[q]];
    ValuePush(src[start..q], src[q]);
  }

  /** More digits do not make a number smaller. */
  lemma {:induction false} ValueGrows(src: seq<int>, start: nat, q: nat, end: nat)
    requires start <= q <= end <= |src| && AllDigits(src[start..end])
    ensures AllDigits(src[start..q]) && ValueOf(src[start..q]) <= ValueOf(src[start..end])
    decreases end - q
  {
    assert src[start..q] == src[start..end][..q - start];
    if q < end {
      assert src[q] == src[start..end][q - start];
      ValueGrows(src, start, q + 1, end);
      ValueNext(src, start, q);
    }
  }

  /** The run does not depend on where in it one starts. */
  lemma {:induction false} DigitsEndFrom(src: seq<int>, start: nat, q: nat)
    requires start <= q <= |src| && AllDigits(src[start..q])
    ensures DigitsEnd(src, start) == DigitsEnd(src, q)
    decreases q - start
  {
    if start < q {
      assert src[start] == src[start..q][0];
      assert src[start + 1..q] == src[start..q][1..];
      DigitsEndFrom(src, start + 1, q);
    }
  }

  /** The digit loops with a limit: they stop before the value would exceed it. */
  method TakeDigits(src: seq<int>, start: nat, from: nat, value: nat, limit: nat) returns (q: nat, v: nat)
    requires start <= from <= |src| && AllDigits(src[start..from]) && value == ValueOf(src[start..from]) <= limit
    ensures from <= q <= DigitsEnd(src, start) && AllDigits(src[start..q]) && v == ValueOf(src[start..q]) <= limit
    ensures q < DigitsEnd(src, start) ==> ValueOf(src[start..DigitsEnd(src, start)]) > limit
  {
    hide ValueOf;
    q, v := from, value;
    DigitsEndFrom(src, start, q);
    while IsDigit(At(src, q))
      invariant from <= q <= |src| && AllDigits(src[start..q]) && v == ValueOf(src[start..q]) <= limit
      invariant DigitsEnd(src, start) == DigitsEnd(src, q)
      decreases |src| - q
    {
      ValueNext(src, start, q);
      if v >= limit / 10 {
        if v != limit / 10 || src[q] - '0' as int > limit % 10 {
          ValueGrows(src, start, q + 1, DigitsEnd(src, start));
          return;
        }
      }
      v := v * 10 + (src[q] - '0' as int);
      q := q + 1;
    }
  }

  /** THE INTEGER PATH. The loops over 32 and then 64 bits never overflow, and the result is exactly the smallest event
      for the value of the digits; the path is left precisely when no 64-bit integer holds it, or the number goes on. */
  method ParseInteger(src: seq<int>, pos: nat) returns (r: IntegerScan)
    requires pos <= |src|
    ensures r == IntegerAt(src, pos)
  {
    hide ValueOf;
    var minus := At(src, pos) == '-' as int;
    var s := if minus then pos + 1 else pos;
    var start := s;
    var i, i64: nat := 0, 0;
    var use64bit, useDouble := false, false;
    if At(src, s) == '0' as int {
      s := s + 1;
    } else if IsDigit(At(src, s)) {
      ValueNext(src, start, s);
      ValueNothing();
      assert src[s..s] == [];
      i := src[s] - '0' as int;
      s, i := TakeDigits(src, start, s + 1, i, if minus then TWO31 else TWO32 - 1);
      if IsDigit(At(src, s)) {
        i64, use64bit := i, true;
      }
      RunEnds(src, start, s);
    } else {
      return if At(src, s) == 'I' as int || At(src, s) == 'N' as int then Floating else Invalid(ValueInvalid, s);
    }
    if use64bit {
      s, i64 := TakeDigits(src, start, s, i64, if minus then TWO63 else TWO64 - 1);
      RunEnds(src, start, s);
      useDouble := IsDigit(At(src, s));
    }
    if useDouble || Continues(At(src, s)) {
      return Floating;
    }
    r := if use64bit then (if minus then Integral(Int64(-(i64 as int)), s) else Integral(Uint64(i64), s))
         else if minus then Integral(Int(-(i as int)), s) else Integral(Uint(i), s);
  }

  lemma ValueNothing()
    ensures ValueOf([]) == 0
  {
  }

  /** A position within a run is its end exactly when no digit follows. */
  lemma RunEnds(src: seq<int>, start: nat, q: nat)
    requires start <= |src| && start <= q <= DigitsEnd(src, start) && AllDigits(src[start..q])
    ensures IsDigit(At(src, q)) <==> q < DigitsEnd(src, start)
  {
    DigitsEndFrom(src, start, q);
  }

  /** t is found in src at pos. */
  predicate Stands(src: seq<int>, pos: nat, t: seq<int>) {
    pos + |t| <= |src| && src[pos..pos + |t|] == t
  }

  lemma {:induction false} RunOf(src: seq<int>, pos: nat, end: nat)
    requires pos <= end <= |src| && AllDigits(src[pos..end]) && !IsDigit(At(src, end))
    ensures DigitsEnd(src, pos) == end
  {
    DigitsEndFrom(src, pos, end);
  }

  /** INTEGERS ARE READ BACK. Wherever the text that i32toa, u32toa, i64toa or u64toa writes for v stands, followed by
      something that does not continue a number, the parser reads v, as the smallest event that holds it. */
  lemma ReadsBack(src: seq<int>, pos: nat, v: int)
    requires -TWO63 <= v < TWO64 && Stands(src, pos, Itoa.Signed(v))
    requires var c := At(src, pos + |Itoa.Signed(v)|); !IsDigit(c) && !Continues(c)
    ensures IntegerAt(src, pos) == IntegerEvent(v < 0, if v < 0 then -v else v, pos + |Itoa.Signed(v)|)
  {
    hide Decimal, ValueOf, DigitsEnd;
    var m := if v < 0 then -v else v;
    var p, end := if v < 0 then pos + 1 else pos, pos + |Itoa.Signed(v)|;
    SignedParts(src, pos, v);
    ValueDecimal(m);
    assert src[p] == Decimal(m)[0];
    RunOf(src, p, end);
    if src[p] == '0' as int {
      assert Decimal(0) == ['0' as int] by { DecimalZero(); }
    }
  }

  lemma DecimalZero()
    ensures Decimal(0) == ['0' as int]
  {
  }

  lemma SignedParts(src: seq<int>, pos: nat, v: int)
    requires Stands(src, pos, Itoa.Signed(v))
    ensures v < 0 ==> src[pos] == '-' as int && Stands(src, pos + 1, Decimal(-v)) && |Itoa.Signed(v)| == 1 + |Decimal(-v)|
    ensures v >= 0 ==> src[pos] != '-' as int && Stands(src, pos, Decimal(v))
  {
    hide Decimal;
    assert src[pos] == src[pos..pos + |Itoa.Signed(v)|][0];
    if v < 0 {
      assert src[pos + 1..pos + 1 + |Decimal(-v)|] == src[pos..pos + |Itoa.Signed(v)|][1..];
    }
  }
}
