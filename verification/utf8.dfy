/** UTF8::Encode, Decode and Validate of encodings.h. Bit operations are written as arithmetic: masks and shifts on
    non-negative integers are remainders and quotients, and the operands of every `|` have no bit in common. */
module Utf8 {

  /** A Unicode scalar value. */
  predicate IsScalar(cp: int) {
    0 <= cp <= 0x10FFFF && !(0xD800 <= cp <= 0xDFFF)
  }

  /** `Encode` */
  function Encode(cp: int): (bytes: seq<int>)
    requires 0 <= cp <= 0x10FFFF
    ensures 1 <= |bytes| <= 4 && forall i | 0 <= i < |bytes| :: 0 <= bytes[i] < 256
  {
    if cp <= 0x7F then [cp]
    else if cp <= 0x7FF then [0xC0 + cp / 64, 0x80 + cp % 64]
    else if cp <= 0xFFFF then [0xE0 + cp / 4096, 0x80 + cp / 64 % 64, 0x80 + cp % 64]
    else [0xF0 + cp / 262144, 0x80 + cp / 4096 % 64, 0x80 + cp / 64 % 64, 0x80 + cp % 64]
  }

  /** `GetRange`: the class of a byte. */
  function GetRange(c: int): int
    requires 0 <= c < 256
  {
    if c < 0x80 then 0
    else if c < 0x90 then 0x10
    else if c < 0xA0 then 0x40
    else if c < 0xC0 then 0x20
    else if c < 0xC2 then 8
    else if c < 0xE0 then 2
    else if c == 0xE0 then 10
    else if c == 0xED then 4
    else if c < 0xF0 then 3
    else if c == 0xF0 then 11
    else if c < 0xF4 then 6
    else if c == 0xF4 then 5
    else 8
  }

  /** The bytes a `RAPIDJSON_TRANS` with this mask lets through. */
  predicate Allowed(mask: int, c: int)
    requires 0 <= c < 256
  {
    match mask
    case 0x70 => GetRange(c) == 0x10 || GetRange(c) == 0x20 || GetRange(c) == 0x40
    case 0x50 => GetRange(c) == 0x10 || GetRange(c) == 0x40
    case 0x10 => GetRange(c) == 0x10
    case 0x20 => GetRange(c) == 0x20
    case 0x60 => GetRange(c) == 0x20 || GetRange(c) == 0x40
    case _ => false
  }

  /** Trailing bytes of a leading byte's class, and the mask of the first of them. */
  function Tails(range: int): (nat, int) {
    match range
    case 2 => (1, 0x70)
    case 3 => (2, 0x70)
    case 4 => (2, 0x50)
    case 5 => (3, 0x10)
    case 6 => (3, 0x70)
    case 10 => (2, 0x20)
    case 11 => (3, 0x60)
    case _ => (0, 0)
  }

  /** `0xFF >> type`, masking the leading byte. */
  function Payload(range: int, c: int): int {
    match range
    case 2 => c % 64
    case 3 => c % 32
    case 4 => c % 16
    case 5 => c % 8
    case 6 => c % 4
    case _ => 0
  }

  datatype Decoded = Valid(cp: int, length: nat) | Invalid

  predicate IsBytes(s: seq<int>) {
    forall i | 0 <= i < |s| :: 0 <= s[i] < 256
  }

  /** The trailing bytes s, all but the first under the mask 0x70. */
  predicate GoodTails(s: seq<int>, mask: int)
    requires IsBytes(s)
  {
    forall i | 0 <= i < |s| :: Allowed(if i == 0 then mask else 0x70, s[i])
  }

  function Append(cp: int, tails: seq<int>): int
    decreases |tails|
  {
    if tails == [] then cp else Append(cp * 64 + tails[0] % 64, tails[1..])
  }

  /** `Decode` at the start of s. A sequence cut off by the end of the text is invalid; there, the code reads the
      terminator of the text as one of the trailing bytes. */
  function Decode(s: seq<int>): Decoded
    requires IsBytes(s) && s != []
  {
    if s[0] < 0x80 then Valid(s[0], 1)
    else
      var range := GetRange(s[0]);
      var (n, mask) := Tails(range);
      if n == 0 || |s| <= n || !GoodTails(s[1..n + 1], mask) then Invalid
      else Valid(Append(Payload(range, s[0]), s[1..n + 1]), n + 1)
  }

  lemma Append1(cp: int, a: int)
    ensures Append(cp, [a]) == cp * 64 + a % 64
  {
  }

  lemma Append2(cp: int, a: int, b: int)
    ensures Append(cp, [a, b]) == (cp * 64 + a % 64) * 64 + b % 64
  {
    assert [a, b][1..] == [b];
    Append1(cp * 64 + a % 64, b);
  }

  lemma Append3(cp: int, a: int, b: int, c: int)
    ensures Append(cp, [a, b, c]) == ((cp * 64 + a % 64) * 64 + b % 64) * 64 + c % 64
  {
    assert [a, b, c][1..] == [b, c];
    Append2(cp * 64 + a % 64, b, c);
  }

  /** Six bits at a time. */
  lemma Split(cp: nat)
    ensures cp == cp / 64 * 64 + cp % 64 && 0 <= cp % 64 < 64
    ensures cp / 4096 == cp / 64 / 64 && cp / 262144 == cp / 64 / 64 / 64
  {
  }

  lemma Glue(q: nat, r: nat)
    requires r < 64
    ensures (q * 64 + r) / 64 == q && (q * 64 + r) % 64 == r
  {
  }

  lemma GlueFour(q: nat, a: nat, b: nat, c: nat)
    requires a < 64 && b < 64 && c < 64
    ensures var cp := ((q * 64 + a) * 64 + b) * 64 + c;
            cp / 262144 == q && cp / 4096 % 64 == a && cp / 64 % 64 == b && cp % 64 == c
  {
    var cp := ((q * 64 + a) * 64 + b) * 64 + c;
    Split(cp);
    Glue(q, a);
    Glue(q * 64 + a, b);
    Glue((q * 64 + a) * 64 + b, c);
  }

  /** The range class of a leading byte, its payload, and the byte with the same payload in plain form. */
  lemma Leading(q: nat)
    ensures q < 32 && q >= 2 ==> Payload(GetRange(0xC0 + q), 0xC0 + q) == q && Tails(GetRange(0xC0 + q)) == (1, 0x70)
    ensures q < 16 ==> Payload(GetRange(0xE0 + q), 0xE0 + q) == q
    ensures q < 16 ==> Tails(GetRange(0xE0 + q)) == (2, if q == 0 then 0x20 else if q == 13 then 0x50 else 0x70)
    ensures q <= 4 ==> Payload(GetRange(0xF0 + q), 0xF0 + q) == q
    ensures q <= 4 ==> Tails(GetRange(0xF0 + q)) == (3, if q == 0 then 0x60 else if q == 4 then 0x10 else 0x70)
  {
  }

  /** What a trailing byte must be. */
  lemma Trailing(r: nat)
    requires r < 64
    ensures Allowed(0x70, 0x80 + r) && (0x80 + r) % 64 == r
    ensures Allowed(0x50, 0x80 + r) <==> r < 0x20
    ensures Allowed(0x10, 0x80 + r) <==> r < 0x10
    ensures Allowed(0x20, 0x80 + r) <==> r >= 0x20
    ensures Allowed(0x60, 0x80 + r) <==> r >= 0x10
  {
  }

  /** Every scalar value is decoded from its encoding, whatever follows. */
  lemma DecodeEncoded(cp: int, rest: seq<int>)
    requires IsScalar(cp) && IsBytes(rest)
    ensures IsBytes(Encode(cp) + rest) && Decode(Encode(cp) + rest) == Valid(cp, |Encode(cp)|)
  {
    if cp > 0xFFFF {
      FourDecoded(cp, rest);
    } else if cp > 0x7FF {
      ThreeDecoded(cp, rest);
    } else if cp > 0x7F {
      TwoDecoded(cp, rest);
    }
  }

  lemma TwoDecoded(cp: int, rest: seq<int>)
    requires 0x80 <= cp <= 0x7FF && IsBytes(rest)
    ensures Decode(Encode(cp) + rest) == Valid(cp, 2)
  {
    hide GetRange, Tails, Payload, Allowed;
    var q, a := cp / 64, cp % 64;
    Split(cp);
    Leading(q);
    Trailing(a);
    var s := [0xC0 + q, 0x80 + a] + rest;
    assert s[1..2] == [0x80 + a];
    Append1(q, 0x80 + a);
    assert GoodTails(s[1..2], 0x70);
  }

  lemma ThreeDecoded(cp: int, rest: seq<int>)
    requires 0x800 <= cp <= 0xFFFF && IsScalar(cp) && IsBytes(rest)
    ensures Decode(Encode(cp) + rest) == Valid(cp, 3)
  {
    hide GetRange, Tails, Payload, Allowed, Append;
    var q, a, b := cp / 64 / 64, cp / 64 % 64, cp % 64;
    Split(cp);
    Split(cp / 64);
    Leading(q);
    Trailing(a);
    Trailing(b);
    var s, t := [0xE0 + q, 0x80 + a, 0x80 + b] + rest, [0x80 + a, 0x80 + b];
    assert s[1..3] == t;
    Append2(q, 0x80 + a, 0x80 + b);
    assert GoodTails(t, Tails(GetRange(s[0])).1);
  }

  lemma FourDecoded(cp: int, rest: seq<int>)
    requires 0x10000 <= cp <= 0x10FFFF && IsBytes(rest)
    ensures Decode(Encode(cp) + rest) == Valid(cp, 4)
  {
    hide GetRange, Tails, Payload, Allowed, Append;
    var q, a, b, c := cp / 64 / 64 / 64, cp / 64 / 64 % 64, cp / 64 % 64, cp % 64;
    Split(cp);
    Split(cp / 64);
    Split(cp / 64 / 64);
    Leading(q);
    Trailing(a);
    Trailing(b);
    Trailing(c);
    var s, t := [0xF0 + q, 0x80 + a, 0x80 + b, 0x80 + c] + rest, [0x80 + a, 0x80 + b, 0x80 + c];
    assert s[1..4] == t;
    Append3(q, 0x80 + a, 0x80 + b, 0x80 + c);
    assert GoodTails(t, Tails(GetRange(s[0])).1);
  }

  /** Nothing else is decoded: no overlong form, no surrogate, nothing above U+10FFFF. */
  lemma DecodeOnlyEncoded(s: seq<int>)
    requires IsBytes(s) && s != [] && Decode(s).Valid?
    ensures var r := Decode(s); IsScalar(r.cp) && r.length <= |s| && s[..r.length] == Encode(r.cp)
  {
    if s[0] >= 0x80 {
      var (n, mask) := Tails(GetRange(s[0]));
      var t := s[1..n + 1];
      assert forall i | 0 <= i < n :: Allowed(if i == 0 then mask else 0x70, t[i]);
      assert s[..n + 1] == [s[0]] + t;
      if n == 1 {
        DecodedTwo(s[0] - 0xC0, t[0] - 0x80, t);
      } else if n == 2 {
        DecodedThree(s[0] - 0xE0, t[0] - 0x80, t[1] - 0x80, t);
      } else {
        DecodedFour(s[0] - 0xF0, t[0] - 0x80, t[1] - 0x80, t[2] - 0x80, t);
      }
    }
  }

  lemma DecodedTwo(q: nat, a: nat, t: seq<int>)
    requires 2 <= q < 32 && a < 64 && t == [0x80 + a]
    ensures var cp := Append(Payload(GetRange(0xC0 + q), 0xC0 + q), t); IsScalar(cp) && Encode(cp) == [0xC0 + q] + t
  {
    hide GetRange, Payload, Tails, Append, Allowed;
    Leading(q);
    Trailing(a);
    Append1(q, 0x80 + a);
    Glue(q, a);
  }

  lemma DecodedThree(q: nat, a: nat, b: nat, t: seq<int>)
    requires q < 16 && a < 64 && b < 64 && t == [0x80 + a, 0x80 + b]
    requires (q == 0 ==> a >= 0x20) && (q == 13 ==> a < 0x20)
    ensures var cp := Append(Payload(GetRange(0xE0 + q), 0xE0 + q), t); IsScalar(cp) && Encode(cp) == [0xE0 + q] + t
  {
    hide GetRange, Payload, Tails, Append, Allowed;
    Leading(q);
    Trailing(a);
    Trailing(b);
    Append2(q, 0x80 + a, 0x80 + b);
    Glue(q, a);
    Glue(q * 64 + a, b);
    Split((q * 64 + a) * 64 + b);
  }

  lemma DecodedFour(q: nat, a: nat, b: nat, c: nat, t: seq<int>)
    requires q <= 4 && a < 64 && b < 64 && c < 64 && t == [0x80 + a, 0x80 + b, 0x80 + c]
    requires (q == 0 ==> a >= 0x10) && (q == 4 ==> a < 0x10)
    ensures var cp := Append(Payload(GetRange(0xF0 + q), 0xF0 + q), t); IsScalar(cp) && Encode(cp) == [0xF0 + q] + t
  {
    hide GetRange, Payload, Tails, Append, Allowed;
    Leading(q);
    Trailing(a);
    Trailing(b);
    Trailing(c);
    Append3(q, 0x80 + a, 0x80 + b, 0x80 + c);
    GlueFour(q, a, b, c);
  }

  /** ---- Encodings as the standard has them ---- */

  predicate IsTail(b: int) {
    0x80 <= b <= 0xBF
  }

  /** Section 3 of RFC 3629. */
  predicate Encodes(bytes: seq<int>, cp: int) {
    || (|bytes| == 1 && cp == bytes[0] && 0 <= cp <= 0x7F)
    || (|bytes| == 2 && IsTail(bytes[1]) && cp == (bytes[0] - 0xC0) * 0x40 + (bytes[1] - 0x80) && 0x80 <= cp <= 0x7FF)
    || (|bytes| == 3 && IsTail(bytes[1]) && IsTail(bytes[2])
        && cp == (bytes[0] - 0xE0) * 0x1000 + (bytes[1] - 0x80) * 0x40 + (bytes[2] - 0x80) && 0x800 <= cp <= 0xFFFF)
    || (|bytes| == 4 && IsTail(bytes[1]) && IsTail(bytes[2]) && IsTail(bytes[3])
        && cp == (bytes[0] - 0xF0) * 0x40000 + (bytes[1] - 0x80) * 0x1000 + (bytes[2] - 0x80) * 0x40 + (bytes[3] - 0x80)
        && 0x10000 <= cp <= 0x10FFFF)
  }

  /** The encoding of section 3 of RFC 3629 is the one the parser writes, and the only one. */
  lemma EncodeIs(bytes: seq<int>, cp: int)
    requires 0 <= cp <= 0x10FFFF
    ensures Encodes(bytes, cp) <==> bytes == Encode(cp)
  {
    hide IsTail;
    if Encodes(bytes, cp) {
      EncodeOnly(bytes, cp);
    }
    EncodeDoes(cp);
  }

  lemma EncodeOnly(bytes: seq<int>, cp: int)
    requires 0 <= cp <= 0x10FFFF && Encodes(bytes, cp)
    ensures bytes == Encode(cp)
  {
    if |bytes| == 2 {
      EncodeTwo(bytes, cp);
    } else if |bytes| == 3 {
      EncodeThree(bytes, cp);
    } else if |bytes| == 4 {
      EncodeFour(bytes, cp);
    }
  }

  lemma EncodeTwo(bytes: seq<int>, cp: int)
    requires |bytes| == 2 && Encodes(bytes, cp)
    ensures bytes == Encode(cp)
  {
    Sextet(bytes[0] - 0xC0, bytes[1] - 0x80, cp);
  }

  lemma EncodeThree(bytes: seq<int>, cp: int)
    requires |bytes| == 3 && Encodes(bytes, cp)
    ensures bytes == Encode(cp)
  {
    var a := (bytes[0] - 0xE0) * 0x40 + (bytes[1] - 0x80);
    Sextet(bytes[0] - 0xE0, bytes[1] - 0x80, a);
    Sextet(a, bytes[2] - 0x80, cp);
    Split(cp);
  }

  lemma EncodeFour(bytes: seq<int>, cp: int)
    requires |bytes| == 4 && Encodes(bytes, cp)
    ensures bytes == Encode(cp)
  {
    var a := (bytes[0] - 0xF0) * 0x40 + (bytes[1] - 0x80);
    var b := a * 0x40 + (bytes[2] - 0x80);
    Sextet(bytes[0] - 0xF0, bytes[1] - 0x80, a);
    Sextet(a, bytes[2] - 0x80, b);
    Sextet(b, bytes[3] - 0x80, cp);
    Split(cp);
  }

  /** Six bits at the end of a number. */
  lemma Sextet(q: int, r: int, n: int)
    requires n == q * 64 + r && 0 <= r < 64
    ensures n / 64 == q && n % 64 == r
  {
  }

  lemma EncodeDoes(cp: int)
    requires 0 <= cp <= 0x10FFFF
    ensures Encodes(Encode(cp), cp)
  {
    Split(cp);
    if cp > 0x7FF {
      Split(cp / 64);
    }
    if cp > 0xFFFF {
      Split(cp / 4096);
    }
  }
}
