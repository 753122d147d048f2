/** internal/itoa.h: integers to decimal text, two digits at a time from a table, into a buffer of the caller. */
module Itoa {
  import opened Buffers
  import opened Decimals

  const TEN4 := 10000
  const TEN8 := 100000000
  const TEN16 := TEN8 * TEN8

  /** GetDigitsLut: the two digits of 00 to 99, one after the other. */
  function DigitsLut(i: nat): (c: int)
    requires i < 200
    ensures IsDigit(c)
  {
    if i % 2 == 0 then DigitOf(i / 2 / 10) else DigitOf(i / 2 % 10)
  }

  method Put(buffer: array<int>, p: nat, c: int) returns (q: nat)
    requires p < buffer.Length
    modifies buffer
    ensures q == p + 1 && Wrote(old(buffer[..]), buffer[..], p, [c])
  {
    buffer[p] := c;
    q := p + 1;
  }

  /** Two digits of the table. */
  method PutPair(buffer: array<int>, p: nat, v: nat) returns (q: nat)
    requires v < 100 && p + 2 <= buffer.Length
    modifies buffer
    ensures v < Pow10(2) && q == p + 2 && Wrote(old(buffer[..]), buffer[..], p, Fixed(v, 2))
  {
    hide Fixed;
    Fixed2(v);
    var i := v * 2;
    buffer[p] := DigitsLut(i);
    buffer[p + 1] := DigitsLut(i + 1);
    q := p + 2;
  }

  /** Four digits. */
  method Put4(buffer: array<int>, p: nat, v: nat) returns (q: nat)
    requires v < TEN4 && p + 4 <= buffer.Length
    modifies buffer
    ensures v < Pow10(4) && q == p + 4 && Wrote(old(buffer[..]), buffer[..], p, Fixed(v, 4))
  {
    hide Fixed, Wrote, Pow10;
    Pow10s();
    FixedSplit(v / 100, v % 100, 2, 2);
    q := PutPair(buffer, p, v / 100);
    ghost var mid := buffer[..];
    q := PutPair(buffer, q, v % 100);
    WroteMore(old(buffer[..]), mid, buffer[..], p, Fixed(v / 100, 2), Fixed(v % 100, 2));
  }

  /** Eight digits. */
  method Put8(buffer: array<int>, p: nat, v: nat) returns (q: nat)
    requires v < TEN8 && p + 8 <= buffer.Length
    modifies buffer
    ensures v < Pow10(8) && q == p + 8 && Wrote(old(buffer[..]), buffer[..], p, Fixed(v, 8))
  {
    hide Fixed, Wrote, Pow10;
    Pow10s();
    FixedSplit(v / TEN4, v % TEN4, 4, 4);
    q := Put4(buffer, p, v / TEN4);
    ghost var mid := buffer[..];
    q := Put4(buffer, q, v % TEN4);
    WroteMore(old(buffer[..]), mid, buffer[..], p, Fixed(v / TEN4, 4), Fixed(v % TEN4, 4));
  }

  /** Up to four digits, without leading zeros; the last one in any case. */
  method PutShort4(buffer: array<int>, p: nat, v: nat) returns (q: nat)
    requires v < TEN4 && p + |Decimal(v)| <= buffer.Length
    modifies buffer
    ensures q == p + |Decimal(v)| && Wrote(old(buffer[..]), buffer[..], p, Decimal(v))
  {
    hide Wrote, Decimal, DigitsLut, DigitOf;
    var d1, d2 := v / 100 * 2, v % 100 * 2;
    PairLut(v / 100);
    PairLut(v % 100);
    Short4(v);
    q := p;
    ghost var done: seq<int> := [];
    NothingWritten(buffer[..], p);
    if v >= 1000 {
      q, done := PutNext(buffer, p, q, DigitsLut(d1), old(buffer[..]), done);
    }
    if v >= 100 {
      q, done := PutNext(buffer, p, q, DigitsLut(d1 + 1), old(buffer[..]), done);
    }
    if v >= 10 {
      q, done := PutNext(buffer, p, q, DigitsLut(d2), old(buffer[..]), done);
    }
    q, done := PutNext(buffer, p, q, DigitsLut(d2 + 1), old(buffer[..]), done);
    assert done == Decimal(v);
  }

  lemma PairLut(v: nat)
    requires v < 100
    ensures DigitsLut(v * 2) == DigitOf(v / 10) && DigitsLut(v * 2 + 1) == DigitOf(v % 10)
  {
  }

  /** One more character after those written since p. */
  method PutNext(buffer: array<int>, p: nat, at: nat, c: int, ghost was: seq<int>, ghost done: seq<int>)
    returns (q: nat, ghost done': seq<int>)
    requires at == p + |done| < buffer.Length && Wrote(was, buffer[..], p, done)
    modifies buffer
    ensures q == at + 1 && done' == done + [c] && Wrote(was, buffer[..], p, done')
  {
    hide Wrote;
    ghost var mid := buffer[..];
    q := Put(buffer, at, c);
    done' := done + [c];
    WroteMore(was, mid, buffer[..], p, done, [c]);
  }

  /** Decimal digits of a number of one to four of them. */
  lemma Short4(v: nat)
    requires v < TEN4
    ensures var a, b := v / 100, v % 100; var low := [DigitOf(b / 10), DigitOf(b % 10)];
            Decimal(v) ==
            if v >= 1000 then [DigitOf(a / 10), DigitOf(a % 10)] + low
            else if v >= 100 then [DigitOf(a)] + low
            else if v >= 10 then low
            else [DigitOf(v)]
  {
    hide Decimal, Fixed, Pow10, DigitOf;
    if v >= 100 {
      Pow10s();
      DecimalSplit(v / 100, v % 100, 2);
      Fixed2(v % 100);
      Decimal2(v / 100);
    } else {
      Decimal2(v);
    }
  }

  lemma Decimal2(v: nat)
    requires v < 100
    ensures Decimal(v) == if v < 10 then [DigitOf(v)] else [DigitOf(v / 10), DigitOf(v % 10)]
  {
    if v >= 10 {
      assert Decimal(v / 10) == [DigitOf(v / 10)];
    }
  }

  /** Up to eight digits, without leading zeros. */
  method PutShort8(buffer: array<int>, p: nat, v: nat) returns (q: nat)
    requires v < TEN8 && p + |Decimal(v)| <= buffer.Length
    modifies buffer
    ensures q == p + |Decimal(v)| && Wrote(old(buffer[..]), buffer[..], p, Decimal(v))
  {
    hide Wrote, Decimal, Fixed, Pow10;
    if v < TEN4 {
      q := PutShort4(buffer, p, v);
    } else {
      Pow10s();
      DecimalSplit(v / TEN4, v % TEN4, 4);
      q := PutShort4(buffer, p, v / TEN4);
      ghost var mid := buffer[..];
      q := Put4(buffer, q, v % TEN4);
      WroteMore(old(buffer[..]), mid, buffer[..], p, Decimal(v / TEN4), Fixed(v % TEN4, 4));
    }
  }

  /** u32toa writes the canonical decimal form. */
  method U32ToA(value: nat, buffer: array<int>, p: nat) returns (q: nat)
    requires value < 0x1_0000_0000 && p + |Decimal(value)| <= buffer.Length
    modifies buffer
    ensures q == p + |Decimal(value)| && Wrote(old(buffer[..]), buffer[..], p, Decimal(value))
  {
    hide Wrote, Decimal, Fixed, Pow10;
    if value < TEN8 {
      q := PutShort8(buffer, p, value);
    } else {
      var a, rest := value / TEN8, value % TEN8;
      Pow10s();
      DecimalSplit(a, rest, 8);
      Decimal2(a);
      Fixed2(a);
      if a >= 10 {
        q := PutPair(buffer, p, a);
      } else {
        q := Put(buffer, p, '0' as int + a);
      }
      ghost var mid := buffer[..];
      q := Put8(buffer, q, rest);
      WroteMore(old(buffer[..]), mid, buffer[..], p, Decimal(a), Fixed(rest, 8));
    }
  }

  /** u64toa writes the canonical decimal form. */
  method U64ToA(value: nat, buffer: array<int>, p: nat) returns (q: nat)
    requires value < 0x1_0000_0000_0000_0000 && p + |Decimal(value)| <= buffer.Length
    modifies buffer
    ensures q == p + |Decimal(value)| && Wrote(old(buffer[..]), buffer[..], p, Decimal(value))
  {
    hide Wrote, Decimal, Fixed, Pow10;
    if value < TEN8 {
      q := PutShort8(buffer, p, value);
    } else if value < TEN16 {
      var v0, v1 := value / TEN8, value % TEN8;
      Pow10s();
      DecimalSplit(v0, v1, 8);
      q := PutShort8(buffer, p, v0);
      ghost var mid := buffer[..];
      q := Put8(buffer, q, v1);
      WroteMore(old(buffer[..]), mid, buffer[..], p, Decimal(v0), Fixed(v1, 8));
    } else {
      var a, rest := value / TEN16, value % TEN16;
      Pow10s();
      DecimalSplit(a, rest, 16);
      q := PutShort4(buffer, p, a);
      ghost var mid := buffer[..];
      q := Put16(buffer, q, rest);
      WroteMore(old(buffer[..]), mid, buffer[..], p, Decimal(a), Fixed(rest, 16));
    }
  }

  method Put16(buffer: array<int>, p: nat, v: nat) returns (q: nat)
    requires v < TEN16 && p + 16 <= buffer.Length
    modifies buffer
    ensures v < Pow10(16) && q == p + 16 && Wrote(old(buffer[..]), buffer[..], p, Fixed(v, 16))
  {
    hide Fixed, Wrote, Pow10;
    Pow10s();
    FixedSplit(v / TEN8, v % TEN8, 8, 8);
    q := Put8(buffer, p, v / TEN8);
    ghost var mid := buffer[..];
    q := Put8(buffer, q, v % TEN8);
    WroteMore(old(buffer[..]), mid, buffer[..], p, Fixed(v / TEN8, 8), Fixed(v % TEN8, 8));
  }

  /** The canonical form of an integer. */
  function Signed(v: int): (s: seq<int>)
    ensures s != []
  {
    if v < 0 then ['-' as int] + Decimal(-v) else Decimal(v)
  }

  /** i32toa: the magnitude of a negative value is its two's complement. */
  method I32ToA(value: int, buffer: array<int>, p: nat) returns (q: nat)
    requires -0x8000_0000 <= value < 0x8000_0000 && p + |Signed(value)| <= buffer.Length
    modifies buffer
    ensures q == p + |Signed(value)| && Wrote(old(buffer[..]), buffer[..], p, Signed(value))
  {
    hide Wrote, Decimal;
    var u := value % 0x1_0000_0000;
    if value < 0 {
      q := Put(buffer, p, '-' as int);
      u := (0x1_0000_0000 - 1 - u + 1) % 0x1_0000_0000;
      ghost var mid := buffer[..];
      q := U32ToA(u, buffer, q);
      WroteMore(old(buffer[..]), mid, buffer[..], p, ['-' as int], Decimal(-value));
    } else {
      q := U32ToA(u, buffer, p);
    }
  }

  /** i64toa */
  method I64ToA(value: int, buffer: array<int>, p: nat) returns (q: nat)
    requires -0x8000_0000_0000_0000 <= value < 0x8000_0000_0000_0000 && p + |Signed(value)| <= buffer.Length
    modifies buffer
    ensures q == p + |Signed(value)| && Wrote(old(buffer[..]), buffer[..], p, Signed(value))
  {
    hide Wrote, Decimal;
    var u := value % 0x1_0000_0000_0000_0000;
    if value < 0 {
      q := Put(buffer, p, '-' as int);
      u := (0x1_0000_0000_0000_0000 - 1 - u + 1) % 0x1_0000_0000_0000_0000;
      ghost var mid := buffer[..];
      q := U64ToA(u, buffer, q);
      WroteMore(old(buffer[..]), mid, buffer[..], p, ['-' as int], Decimal(-value));
    } else {
      q := U64ToA(u, buffer, p);
    }
  }

  /** The buffers of the callers are large enough: at most 10 digits for 32 bits and 20 for 64, and a sign. */
  lemma LengthBound(v: nat)
    ensures v < 0x1_0000_0000 ==> |Decimal(v)| <= 10
    ensures v < 0x1_0000_0000_0000_0000 ==> |Decimal(v)| <= 20
  {
    hide Decimal, Fixed, Pow10;
    Pow10s();
    if 0 < v / TEN16 < TEN4 {
      DecimalSplit(v / TEN16, v % TEN16, 16);
      Short4(v / TEN16);
    } else if 0 < v / TEN8 < TEN8 {
      DecimalSplit(v / TEN8, v % TEN8, 8);
      Short8Length(v / TEN8);
      if v / TEN8 < 100 {
        Decimal2(v / TEN8);
      }
    } else if v < TEN8 {
      Short8Length(v);
    }
  }

  lemma Short8Length(v: nat)
    requires v < TEN8
    ensures |Decimal(v)| <= 8
  {
    hide Decimal, Fixed, Pow10;
    Pow10s();
    if v < TEN4 {
      Short4(v);
    } else {
      DecimalSplit(v / TEN4, v % TEN4, 4);
      Short4(v / TEN4);
    }
  }

  lemma Fixed2(v: nat)
    requires v < 100
    ensures v < Pow10(2) && Fixed(v, 2) == [DigitOf(v / 10), DigitOf(v % 10)]
  {
    assert Fixed(v / 10 / 10, 0) == [];
    assert Fixed(v / 10, 1) == [DigitOf(v / 10)];
  }

  lemma Pow10s()
    ensures Pow10(1) == 10 && Pow10(2) == 100 && Pow10(4) == TEN4 && Pow10(8) == TEN8 && Pow10(16) == TEN16
  {
    PowAdd(2, 2);
    PowAdd(4, 4);
    PowAdd(8, 8);
  }
}
