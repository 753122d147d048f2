/** JSON strings: `ParseString` and `ParseStringToStream` of reader.h, into a separate buffer and in place. Text and
    strings are sequences of bytes. */
module JsonStrings {
  import opened Buffers
  import opened JsonEvents
  import Utf8

  /** The value of a hexadecimal digit; -1 for any other character. */
  function HexValue(c: int): (v: int)
    ensures -1 <= v < 16
  {
    if '0' as int <= c <= '9' as int then c - '0' as int
    else if 'A' as int <= c <= 'F' as int then c - 'A' as int + 10
    else if 'a' as int <= c <= 'f' as int then c - 'a' as int + 10
    else -1
  }

  /** The value of n hexadecimal digits from pos on; -1 when one of them is not a digit. */
  function HexFrom(src: seq<int>, pos: nat, n: nat, v: nat): (r: int)
    ensures r >= -1 && (r >= 0 ==> pos + n <= |src| || n == 0)
    decreases n
  {
    if n == 0 then v
    else if HexValue(At(src, pos)) < 0 then -1
    else HexFrom(src, pos + 1, n - 1, v * 16 + HexValue(At(src, pos)))
  }

  /** `ParseHex4` */
  function Hex4(src: seq<int>, pos: nat): (r: int)
    ensures -1 <= r < 0x10000 && (r >= 0 ==> pos + 4 <= |src|)
  {
    HexBound(src, pos, 4, 0);
    HexFrom(src, pos, 4, 0)
  }

  lemma {:induction false} HexBound(src: seq<int>, pos: nat, n: nat, v: nat)
    requires n <= 4
    ensures HexFrom(src, pos, n, v) < (v + 1) * (if n == 0 then 1 else if n == 1 then 16 else if n == 2 then 256 else if n == 3 then 4096 else 65536)
    decreases n
  {
    if n > 0 && HexValue(At(src, pos)) >= 0 {
      HexBound(src, pos + 1, n - 1, v * 16 + HexValue(At(src, pos)));
    }
  }

  /** The table of one-letter escapes; 0 for any other character. */
  function Escape(c: int): int {
    if c == '"' as int then '"' as int
    else if c == '/' as int then '/' as int
    else if c == '\\' as int then '\\' as int
    else if c == 'b' as int then 0x08
    else if c == 'f' as int then 0x0C
    else if c == 'n' as int then 0x0A
    else if c == 'r' as int then 0x0D
    else if c == 't' as int then 0x09
    else 0
  }

  /** After `\u` at pos: one code unit, or two that form a surrogate pair. */
  function Unicode(src: seq<int>, pos: nat, escapeOffset: nat): (r: Scan<seq<int>>)
    ensures r.Read? ==> pos + 4 <= r.end <= |src| && 1 <= |r.value| <= 4 && pos + |r.value| < r.end + 1
  {
    var u := Hex4(src, pos);
    if u < 0 then Bad(StringUnicodeEscapeInvalidHex, escapeOffset)
    else if u < 0xD800 || u > 0xDFFF then Read(Utf8.Encode(u), pos + 4)
    else if u > 0xDBFF then Bad(StringUnicodeSurrogateInvalid, escapeOffset)
    else if At(src, pos + 4) != '\\' as int || At(src, pos + 5) != 'u' as int then Bad(StringUnicodeSurrogateInvalid, escapeOffset)
    else
      var v := Hex4(src, pos + 6);
      if v < 0 then Bad(StringUnicodeEscapeInvalidHex, escapeOffset)
      else if v < 0xDC00 || v > 0xDFFF then Bad(StringUnicodeSurrogateInvalid, escapeOffset)
      else Read(Utf8.Encode((u - 0xD800) * 1024 + (v - 0xDC00) + 0x10000), pos + 10)
  }

  /** One character of a string other than the closing quote: the bytes it stands for, and where it ends. */
  function Unit(src: seq<int>, pos: nat, apostrophe: bool): (r: Scan<seq<int>>)
    ensures r.Read? ==> pos < r.end <= |src| && 1 <= |r.value| <= 4 && pos + |r.value| <= r.end
  {
    var c := At(src, pos);
    if c == '\\' as int then
      var e := At(src, pos + 1);
      if Escape(e) != 0 then Read([Escape(e)], pos + 2)
      else if apostrophe && e == '\'' as int then Read([e], pos + 2)
      else if e == 'u' as int then Unicode(src, pos + 2, pos)
      else Bad(StringEscapeInvalid, pos)
    else if c == 0 then Bad(StringMissQuotationMark, pos)
    else if 0 < c < 0x20 then Bad(StringInvalidEncoding, pos)
    else Read([c], pos + 1)
  }

  /** The bytes of a string from pos, within the quotes, and the position after the closing quote. */
  function Decoded(src: seq<int>, pos: nat, apostrophe: bool): (r: Scan<seq<int>>)
    requires pos <= |src|
    ensures r.Read? ==> pos < r.end <= |src| && |r.value| < r.end - pos
    decreases |src| - pos
  {
    if At(src, pos) == '"' as int then Read([], pos + 1)
    else
      match Unit(src, pos, apostrophe)
      case Bad(code, offset) => Bad(code, offset)
      case Read(bytes, next) =>
        match Decoded(src, next, apostrophe)
        case Bad(code, offset) => Bad(code, offset)
        case Read(rest, end) => Read(bytes + rest, end)
  }

  /** `ParseString` into a separate buffer, from the opening quote. */
  function ScanString(src: seq<int>, pos: nat, apostrophe: bool): (r: Scan<seq<int>>)
    requires pos < |src|
    ensures r.Read? ==> pos < r.end <= |src|
  {
    Decoded(src, pos + 1, apostrophe)
  }

  /** One round of the loop. */
  lemma DecodedStep(src: seq<int>, pos: nat, apostrophe: bool)
    requires pos <= |src|
    ensures At(src, pos) == '"' as int ==> Decoded(src, pos, apostrophe) == Read([], pos + 1)
    ensures var u := Unit(src, pos, apostrophe);
            At(src, pos) != '"' as int ==>
              Decoded(src, pos, apostrophe) ==
              if u.Bad? then Bad(u.code, u.offset) else Prepend(u.value, Decoded(src, u.end, apostrophe))
  {
    hide Unit;
  }

  /** r, after the bytes in front. */
  function Prepend(front: seq<int>, r: Scan<seq<int>>): Scan<seq<int>> {
    match r
    case Bad(_, _) => r
    case Read(s, end) => Read(front + s, end)
  }

  /** GenericInsituStringStream: a reading and a writing cursor over one buffer, which ends with a 0. */
  class InsituStringStream {
    const buffer: array<int>
    var src: nat
    var dst: nat

    constructor (buffer: array<int>)
      requires buffer.Length > 0 && buffer[buffer.Length - 1] == 0
      ensures this.buffer == buffer && src == 0 && dst == 0
    {
      this.buffer := buffer;
      src, dst := 0, 0;
    }

    ghost predicate Valid()
      reads this, buffer
    {
      dst <= src < buffer.Length && buffer[buffer.Length - 1] == 0
    }

    /** From the reading cursor on, the buffer still holds the text t. */
    ghost predicate Holds(t: seq<int>)
      reads this, buffer
    {
      Valid() && |t| == buffer.Length - 1 && forall i | src <= i < |t| :: buffer[i] == t[i]
    }

    function Peek(): int
      reads this, buffer
      requires Valid()
    {
      buffer[src]
    }

    /** Takes the wanted character, if it is next. */
    method Consume(wanted: int) returns (ok: bool)
      requires Valid() && wanted != 0
      modifies this`src
      ensures Valid() && ok == (old(Peek()) == wanted) && src == if ok then old(src) + 1 else old(src)
    {
      ok := Peek() == wanted;
      if ok {
        src := src + 1;
      }
    }

    method Put(c: int)
      requires Valid() && dst < src
      modifies this`dst, buffer
      ensures dst == old(dst) + 1 && Valid()
      ensures Wrote(old(buffer[..]), buffer[..], old(dst), [c])
    {
      buffer[dst] := c;
      dst := dst + 1;
    }

    /** Writes a run of bytes that fits before the reading cursor. */
    method PutAll(bytes: seq<int>)
      requires Valid() && dst + |bytes| <= src
      modifies this`dst, buffer
      ensures dst == old(dst) + |bytes| && Valid()
      ensures Wrote(old(buffer[..]), buffer[..], old(dst), bytes)
    {
      ghost var was, from := buffer[..], dst;
      var i := 0;
      while i < |bytes|
        invariant i <= |bytes| && dst == from + i && Valid()
        invariant Wrote(was, buffer[..], from, bytes[..i])
      {
        Put(bytes[i]);
        i := i + 1;
      }
      assert bytes[..i] == bytes;
    }

    /** Four hexadecimal digits. */
    method ParseHex4(ghost t: seq<int>) returns (ok: bool, codepoint: nat)
      requires Holds(t)
      modifies this`src
      ensures ok <==> Hex4(t, old(src)) >= 0
      ensures ok ==> codepoint == Hex4(t, old(src)) && src == old(src) + 4
      ensures Holds(t) && old(src) <= src
    {
      assert HexValue(0) == -1;
      hide HexValue;
      ok, codepoint := true, 0;
      var i := 0;
      while i < 4
        invariant i <= 4 && Holds(t) && src == old(src) + i
        invariant HexFrom(t, src, 4 - i, codepoint) == HexFrom(t, old(src), 4, 0)
      {
        var c := Peek();
        if HexValue(c) < 0 {
          return false, 0;
        }
        codepoint := codepoint * 16 + HexValue(c);
        src, i := src + 1, i + 1;
      }
    }

    /** After `\u`. */
    method ParseUnicode(escapeOffset: nat, ghost t: seq<int>) returns (r: Scan<seq<int>>)
      requires Holds(t)
      modifies this`src
      ensures r == Unicode(t, old(src), escapeOffset)
      ensures Holds(t) && old(src) <= src && (r.Read? ==> src == r.end)
    {
      hide Hex4, Utf8.Encode;
      var ok, codepoint := ParseHex4(t);
      if !ok {
        return Bad(StringUnicodeEscapeInvalidHex, escapeOffset);
      }
      if 0xD800 <= codepoint <= 0xDFFF {
        if codepoint > 0xDBFF {
          return Bad(StringUnicodeSurrogateInvalid, escapeOffset);
        }
        var next := Consume('\\' as int);
        if next {
          next := Consume('u' as int);
        }
        if !next {
          return Bad(StringUnicodeSurrogateInvalid, escapeOffset);
        }
        var codepoint2;
        ok, codepoint2 := ParseHex4(t);
        if !ok {
          return Bad(StringUnicodeEscapeInvalidHex, escapeOffset);
        }
        if codepoint2 < 0xDC00 || codepoint2 > 0xDFFF {
          return Bad(StringUnicodeSurrogateInvalid, escapeOffset);
        }
        codepoint := (codepoint - 0xD800) * 1024 + (codepoint2 - 0xDC00) + 0x10000;
      }
      r := Read(Utf8.Encode(codepoint), src);
    }

    /** One character other than the closing quote: what it stands for, read before anything is written. */
    method ParseUnit(apostrophe: bool, ghost t: seq<int>) returns (r: Scan<seq<int>>)
      requires Holds(t) && Peek() != '"' as int
      modifies this`src
      ensures r == Unit(t, old(src), apostrophe)
      ensures Holds(t) && old(src) <= src && (r.Read? ==> src == r.end)
    {
      hide Unicode;
      var c := Peek();
      if c == '\\' as int {
        var escapeOffset := src;
        src := src + 1;
        var e := Peek();
        if Escape(e) != 0 {
          src := src + 1;
          return Read([Escape(e)], src);
        } else if apostrophe && e == '\'' as int {
          src := src + 1;
          return Read([e], src);
        } else if e == 'u' as int {
          src := src + 1;
          r := ParseUnicode(escapeOffset, t);
          return;
        }
        return Bad(StringEscapeInvalid, escapeOffset);
      } else if 0 <= c < 0x20 {
        return Bad(if c == 0 then StringMissQuotationMark else StringInvalidEncoding, src);
      }
      src := src + 1;
      return Read([c], src);
    }

    /** IN-PLACE PARSING IS SAFE AND CORRECT. The writing cursor never passes the reading cursor, so that no byte is
        overwritten before it is read; what is left in the buffer is what parsing into a separate buffer yields, with
        a terminator; everything after the string, and before its first byte, is untouched. */
    method ParseStringToStream(apostrophe: bool, ghost t: seq<int>) returns (r: Scan<nat>, ghost written: seq<int>)
      requires Holds(t)
      modifies this, buffer
      ensures Holds(t) && old(src) <= src
      ensures Wrote(old(buffer[..]), buffer[..], old(dst), written)
      ensures var d := Decoded(t, old(src), apostrophe);
              if d.Bad? then r == Bad(d.code, d.offset)
              else
                && written == d.value + [0] && dst == old(dst) + |written|
                && r == Read(|d.value|, src) && src == d.end
    {
      hide Unit, Decoded, Wrote, Prepend;
      var begin := dst;
      ghost var was, start := buffer[..], src;
      ghost var done: seq<int> := [];
      PrependNone(Decoded(t, start, apostrophe));
      NothingWritten(was, begin);
      while true
        invariant Holds(t) && start <= src && begin + |done| == dst
        invariant Wrote(was, buffer[..], begin, done)
        invariant Decoded(t, start, apostrophe) == Prepend(done, Decoded(t, src, apostrophe))
        decreases buffer.Length - src
      {
        DecodedStep(t, src, apostrophe);
        if Peek() == '"' as int {
          src := src + 1;
          PutNext(was, begin, done, [0], t);
          PrependEnd(done, src);
          return Read(dst - 1 - begin, src), done + [0];
        }
        var unit := ParseUnit(apostrophe, t);
        if unit.Bad? {
          PrependBad(done, unit.code, unit.offset);
          return Bad(unit.code, unit.offset), done;
        }
        PutNext(was, begin, done, unit.value, t);
        PrependMore(done, unit.value, Decoded(t, src, apostrophe));
        done := done + unit.value;
      }
    }

    /** Writes more after what has been written since position begin. */
    method PutNext(ghost was: seq<int>, ghost begin: nat, ghost done: seq<int>, bytes: seq<int>, ghost t: seq<int>)
      requires Holds(t) && begin + |done| == dst && dst + |bytes| <= src && Wrote(was, buffer[..], begin, done)
      modifies this`dst, buffer
      ensures dst == old(dst) + |bytes| && Holds(t)
      ensures Wrote(was, buffer[..], begin, done + bytes)
    {
      ghost var now := buffer[..];
      PutAll(bytes);
      WroteMore(was, now, buffer[..], begin, done, bytes);
      assert forall i | src <= i < |t| :: buffer[..][i] == now[i];
    }

    /** Writing starts where reading has come to. */
    method PutBegin() returns (begin: nat)
      requires Valid()
      modifies this`dst
      ensures Valid() && begin == dst == src
    {
      dst := src;
      begin := dst;
    }

    method PutEnd(begin: nat) returns (count: nat)
      requires begin <= dst
      ensures begin + count == dst
    {
      count := dst - begin;
    }

    /** IN-SITU PARSING OF A STRING, from its opening quote: the buffer comes to hold, from head on, the bytes that
        parsing into a separate buffer yields, with a terminator, all of it between the quote and the reading cursor;
        every byte up to the quote and from the reading cursor on is what it was, so that the strings parsed before
        stay and the text after can be parsed. */
    method ParseString(apostrophe: bool, ghost t: seq<int>) returns (head: nat, r: Scan<nat>)
      requires Holds(t) && Peek() == '"' as int
      modifies this, buffer
      ensures Holds(t) && old(src) < src
      ensures var s := ScanString(t, old(src), apostrophe);
              if s.Bad? then r == Bad(s.code, s.offset)
              else
                && r == Read(|s.value|, src) && src == s.end && head == old(src) + 1 && head + |s.value| < src
                && buffer[head..head + |s.value|] == s.value && buffer[head + |s.value|] == 0
      ensures forall i | 0 <= i < buffer.Length && !(old(src) < i < src) :: buffer[i] == old(buffer[i])
    {
      hide Decoded;
      ghost var was, from := buffer[..], src;
      src := src + 1;
      head := PutBegin();
      ghost var written: seq<int>;
      r, written := ParseStringToStream(apostrophe, t);
      assert forall i | 0 <= i <= from :: buffer[i] == buffer[..head][i] == was[..head][i];
      if r.Read? {
        ghost var bytes := Decoded(t, from + 1, apostrophe).value;
        assert buffer[head..head + |bytes|] == buffer[..][head..head + |written|][..|bytes|] == bytes;
        assert buffer[head + |bytes|] == buffer[..][head..head + |written|][|bytes|];
        var count := PutEnd(head);
        r := Read(count - 1, r.end);
      }
    }
  }

  lemma PrependEnd(front: seq<int>, end: nat)
    ensures Prepend(front, Read([], end)) == Read(front, end)
  {
    assert front + [] == front;
  }

  lemma PrependBad(front: seq<int>, code: ErrorCode, offset: nat)
    ensures Prepend(front, Bad(code, offset)) == Bad(code, offset)
  {
  }

  lemma PrependNone(r: Scan<seq<int>>)
    ensures Prepend([], r) == r
  {
    if r.Read? {
      assert [] + r.value == r.value;
    }
  }

  lemma PrependMore(a: seq<int>, b: seq<int>, r: Scan<seq<int>>)
    ensures Prepend(a, Prepend(b, r)) == Prepend(a + b, r)
  {
    if r.Read? {
      assert a + (b + r.value) == (a + b) + r.value;
    }
  }
}
