/** writer.h: the text of a value, the machine of prefixes that separates values, and `Accept` of document.h driving
    the writer. */
module JsonWriter {
  import opened Buffers
  import opened Decimals
  import opened JsonEvents
  import opened JsonValues
  import Itoa
  import JsonNumbers

  /** ---- Text ---- */

  /** The table of `WriteString`: the letter after the backslash, `u` for other control characters, 0 for characters
      written as they are. */
  function EscapeLetter(c: int): int {
    if c == '"' as int || c == '\\' as int then c
    else if c == 0x08 then 'b' as int
    else if c == 0x09 then 't' as int
    else if c == 0x0A then 'n' as int
    else if c == 0x0C then 'f' as int
    else if c == 0x0D then 'r' as int
    else if 0 <= c < 0x20 then 'u' as int
    else 0
  }

  /** One byte within quotes. */
  function QuotedByte(c: int): (t: seq<int>)
    ensures t != []
  {
    var e := EscapeLetter(c);
    if e == 0 then [c]
    else if e == 'u' as int then ['\\' as int, e, '0' as int, '0' as int, HexDigit(c / 16), HexDigit(c % 16)]
    else ['\\' as int, e]
  }

  function QuotedBytes(s: seq<int>): seq<int> {
    if s == [] then [] else QuotedBytes(s[..|s| - 1]) + QuotedByte(s[|s| - 1])
  }

  function Quoted(s: seq<int>): seq<int> {
    ['"' as int] + QuotedBytes(s) + ['"' as int]
  }

  function Ascii(s: string): (t: seq<int>)
    ensures |t| == |s| && forall i | 0 <= i < |s| :: t[i] == s[i] as int
  {
    seq(|s|, i requires 0 <= i < |s| => s[i] as int)
  }

  /** A comma, except before the first of several. */
  function Comma(first: bool): seq<int> {
    if first then [] else [',' as int]
  }

  /** The text of a value. */
  function TextOf(v: GenericValue): (t: seq<int>)
    requires Valid(v)
    decreases v, 2
  {
    match v
    case NullValue => Ascii("null")
    case BoolValue(b) => Ascii(if b then "true" else "false")
    case NumberValue(n) => Itoa.Signed(IntegerOf(n))
    case StringValue(s) => Quoted(s)
    case ObjectValue(ms) => ['{' as int] + MembersText(v, |ms|) + ['}' as int]
    case ArrayValue(vs) => ['[' as int] + ElementsText(v, |vs|) + [']' as int]
  }

  function MemberText(m: Member): seq<int>
    requires m.name.StringValue? && Valid(m.value)
    decreases m.value, 3
  {
    Quoted(m.name.s) + [':' as int] + TextOf(m.value)
  }

  /** The first k members. */
  function MembersText(v: GenericValue, k: nat): seq<int>
    requires Valid(v) && v.ObjectValue? && k <= |v.members|
    decreases v, 1, k
  {
    if k == 0 then [] else MembersText(v, k - 1) + Comma(k == 1) + MemberText(v.members[k - 1])
  }

  function ElementsText(v: GenericValue, k: nat): seq<int>
    requires Valid(v) && v.ArrayValue? && k <= |v.elements|
    decreases v, 1, k
  {
    if k == 0 then [] else ElementsText(v, k - 1) + Comma(k == 1) + TextOf(v.elements[k - 1])
  }

  /** ---- The writer ---- */

  /** One open array or object: values so far, counting names in an object. */
  datatype Level = Level(valueCount: nat, inArray: bool)

  /** What `Prefix` puts before the next value. */
  function PrefixText(levels: seq<Level>): seq<int> {
    if levels == [] then []
    else
      var level := levels[|levels| - 1];
      if level.valueCount == 0 then []
      else if level.inArray || level.valueCount % 2 == 0 then [',' as int]
      else [':' as int]
  }

  /** The levels once the next value has been counted. */
  function Counted(levels: seq<Level>): (r: seq<Level>)
    ensures |r| == |levels|
  {
    if levels == [] then []
    else
      var n := |levels| - 1;
      levels[..n] + [Level(levels[n].valueCount + 1, levels[n].inArray)]
  }

  /** The assertions of `Prefix`: one root only, and a string where a name is due. */
  predicate MayFollow(levels: seq<Level>, hasRoot: bool, isString: bool) {
    if levels == [] then !hasRoot
    else
      var level := levels[|levels| - 1];
      level.inArray || level.valueCount % 2 == 1 || isString
  }

  class Writer {
    var os: seq<int>
    var levels: seq<Level>
    var hasRoot: bool

    constructor ()
      ensures os == [] && levels == [] && !hasRoot
    {
      os, levels, hasRoot := [], [], false;
    }

    method Prefix(isString: bool)
      requires MayFollow(levels, hasRoot, isString)
      modifies this
      ensures os == old(os + PrefixText(levels)) && levels == old(Counted(levels))
      ensures hasRoot == (old(hasRoot) || levels == [])
    {
      if levels != [] {
        var n := |levels| - 1;
        var level := levels[n];
        if level.valueCount > 0 {
          if level.inArray {
            os := os + [',' as int];
          } else {
            os := os + [if level.valueCount % 2 == 0 then ',' as int else ':' as int];
          }
        }
        levels := levels[..n] + [Level(level.valueCount + 1, level.inArray)];
      } else {
        hasRoot := true;
      }
    }

    /** The state after a whole value with the given text. */
    twostate predicate Wrote(text: seq<int>)
      reads this
    {
      && os == old(os + PrefixText(levels)) + text && levels == old(Counted(levels))
      && hasRoot == (old(hasRoot) || levels == [])
    }

    method Null()
      requires MayFollow(levels, hasRoot, false)
      modifies this
      ensures Wrote(Ascii("null"))
    {
      Prefix(false);
      os := os + Ascii("null");
    }

    method Bool(b: bool)
      requires MayFollow(levels, hasRoot, false)
      modifies this
      ensures Wrote(Ascii(if b then "true" else "false"))
    {
      Prefix(false);
      if b {
        os := os + Ascii("true");
      } else {
        os := os + Ascii("false");
      }
    }

    /** Copies the first n characters of a buffer. */
    method PutBuffer(buffer: array<int>, n: nat)
      requires n <= buffer.Length
      modifies this`os
      ensures os == old(os) + buffer[..n]
    {
      var i := 0;
      while i < n
        invariant i <= n && os == old(os) + buffer[..i]
      {
        os := os + [buffer[i]];
        i := i + 1;
      }
    }

    method Int(i: int)
      requires MayFollow(levels, hasRoot, false) && -JsonNumbers.TWO31 <= i < JsonNumbers.TWO31
      modifies this
      ensures Wrote(Itoa.Signed(i))
    {
      hide Decimal;
      Prefix(false);
      var buffer := new int[11];
      Itoa.LengthBound(if i < 0 then -i else i);
      var end := Itoa.I32ToA(i, buffer, 0);
      PutBuffer(buffer, end);
    }

    method Uint(u: int)
      requires MayFollow(levels, hasRoot, false) && 0 <= u < JsonNumbers.TWO32
      modifies this
      ensures Wrote(Itoa.Signed(u))
    {
      hide Decimal;
      Prefix(false);
      var buffer := new int[10];
      Itoa.LengthBound(u);
      var end := Itoa.U32ToA(u, buffer, 0);
      PutBuffer(buffer, end);
    }

    method Int64(i: int)
      requires MayFollow(levels, hasRoot, false) && -JsonNumbers.TWO63 <= i < JsonNumbers.TWO63
      modifies this
      ensures Wrote(Itoa.Signed(i))
    {
      hide Decimal;
      Prefix(false);
      var buffer := new int[21];
      Itoa.LengthBound(if i < 0 then -i else i);
      var end := Itoa.I64ToA(i, buffer, 0);
      PutBuffer(buffer, end);
    }

    method Uint64(u: int)
      requires MayFollow(levels, hasRoot, false) && 0 <= u < JsonNumbers.TWO64
      modifies this
      ensures Wrote(Itoa.Signed(u))
    {
      hide Decimal;
      Prefix(false);
      var buffer := new int[20];
      Itoa.LengthBound(u);
      var end := Itoa.U64ToA(u, buffer, 0);
      PutBuffer(buffer, end);
    }

    /** Strings and names. */
    method String(s: seq<int>)
      requires MayFollow(levels, hasRoot, true) && IsByteString(s)
      modifies this
      ensures Wrote(Quoted(s))
    {
      hide QuotedByte;
      Prefix(true);
      ghost var before := os;
      os := os + ['"' as int];
      var i := 0;
      while i < |s|
        invariant i <= |s| && os == before + (['"' as int] + QuotedBytes(s[..i]))
        invariant levels == old(Counted(levels)) && hasRoot == (old(hasRoot) || levels == [])
      {
        assert s[..i + 1][..i] == s[..i];
        PutQuoted(s[i]);
        i := i + 1;
      }
      assert s[..i] == s;
      os := os + ['"' as int];
    }

    /** One byte of a string. */
    method PutQuoted(c: int)
      requires 0 <= c < 256
      modifies this`os
      ensures os == old(os) + QuotedByte(c)
    {
      var letter := EscapeLetter(c);
      if letter != 0 {
        os := os + ['\\' as int];
        os := os + [letter];
        if letter == 'u' as int {
          os := os + ['0' as int];
          os := os + ['0' as int];
          os := os + [HexDigit(c / 16)];
          os := os + [HexDigit(c % 16)];
        }
      } else {
        os := os + [c];
      }
    }

    method StartObject()
      requires MayFollow(levels, hasRoot, false)
      modifies this
      ensures os == old(os + PrefixText(levels)) + ['{' as int] && levels == old(Counted(levels)) + [Level(0, false)]
      ensures hasRoot == (old(hasRoot) || old(levels) == [])
    {
      Prefix(false);
      levels := levels + [Level(0, false)];
      os := os + ['{' as int];
    }

    /** An object ends after as many values as names. */
    method EndObject()
      requires levels != [] && !levels[|levels| - 1].inArray && levels[|levels| - 1].valueCount % 2 == 0
      modifies this
      ensures os == old(os) + ['}' as int] && levels == old(levels[..|levels| - 1]) && hasRoot == old(hasRoot)
    {
      levels := levels[..|levels| - 1];
      os := os + ['}' as int];
    }

    method StartArray()
      requires MayFollow(levels, hasRoot, false)
      modifies this
      ensures os == old(os + PrefixText(levels)) + ['[' as int] && levels == old(Counted(levels)) + [Level(0, true)]
      ensures hasRoot == (old(hasRoot) || old(levels) == [])
    {
      Prefix(false);
      levels := levels + [Level(0, true)];
      os := os + ['[' as int];
    }

    method EndArray()
      requires levels != [] && levels[|levels| - 1].inArray
      modifies this
      ensures os == old(os) + [']' as int] && levels == old(levels[..|levels| - 1]) && hasRoot == old(hasRoot)
    {
      levels := levels[..|levels| - 1];
      os := os + [']' as int];
    }
  }

  /** `Accept` with a writer: wherever a value may follow, its text is written with the separator that is due, no
      assertion of the writer fails, and the writer is left as after any other value. */
  method Accept(v: GenericValue, writer: Writer)
    requires Valid(v) && MayFollow(writer.levels, writer.hasRoot, false)
    modifies writer
    ensures writer.Wrote(TextOf(v))
    decreases v, 2
  {
    hide Quoted, Itoa.Signed;
    match v
    case NullValue => writer.Null();
    case BoolValue(b) => writer.Bool(b);
    case NumberValue(n) => AcceptNumber(n, writer);
    case StringValue(s) => AcceptString(s, writer);
    case ObjectValue(ms) => AcceptObject(v, writer);
    case ArrayValue(vs) => AcceptArray(v, writer);
  }

  method AcceptString(s: seq<int>, writer: Writer)
    requires IsByteString(s) && MayFollow(writer.levels, writer.hasRoot, true)
    modifies writer
    ensures writer.Wrote(Quoted(s))
  {
    hide Quoted;
    writer.String(s);
  }

  /** The integer type is chosen by the flags; the text is that of the integer. */
  method AcceptNumber(n: NumberData, writer: Writer)
    requires ValidNumber(n) && MayFollow(writer.levels, writer.hasRoot, false)
    modifies writer
    ensures writer.Wrote(Itoa.Signed(IntegerOf(n)))
  {
    hide GetInt, GetInt64, Itoa.Signed;
    Getters(IntegerOf(n));
    if n.isInt {
      writer.Int(GetInt(n));
    } else if n.isUint {
      writer.Uint(n.bits % JsonNumbers.TWO32);
    } else if n.isInt64 {
      writer.Int64(GetInt64(n));
    } else {
      writer.Uint64(n.bits);
    }
  }

  lemma TextOfArray(os: seq<int>, v: GenericValue)
    requires Valid(v) && v.ArrayValue?
    ensures os + ['[' as int] + ElementsText(v, |v.elements|) + [']' as int] == os + TextOf(v)
  {
    hide ElementsText;
  }

  lemma NextElement(os: seq<int>, v: GenericValue, i: nat)
    requires Valid(v) && v.ArrayValue? && i < |v.elements|
    ensures ElementsText(v, 0) == []
    ensures os + ElementsText(v, i) + Comma(i == 0) + TextOf(v.elements[i]) == os + ElementsText(v, i + 1)
  {
    hide TextOf;
  }

  method AcceptArray(v: GenericValue, writer: Writer)
    requires Valid(v) && v.ArrayValue? && MayFollow(writer.levels, writer.hasRoot, false)
    modifies writer
    ensures writer.Wrote(TextOf(v))
    decreases v, 1
  {
    hide Counted, MayFollow, TextOf, ElementsText, PrefixText;
    ghost var os, levels := writer.os + PrefixText(writer.levels), Counted(writer.levels);
    writer.StartArray();
    AcceptElements(v, writer, levels);
    writer.EndArray();
    TextOfArray(os, v);
    assert writer.levels == levels;
  }

  method AcceptElements(v: GenericValue, writer: Writer, ghost levels: seq<Level>)
    requires Valid(v) && v.ArrayValue? && writer.levels == levels + [Level(0, true)]
    modifies writer
    ensures writer.os == old(writer.os) + ElementsText(v, |v.elements|)
    ensures writer.levels == levels + [Level(|v.elements|, true)] && writer.hasRoot == old(writer.hasRoot)
    decreases v, 0
  {
    hide TextOf, ElementsText;
    var vs := v.elements;
    var i := 0;
    assert ElementsText(v, 0) == [] by { NoElements(v); }
    while i < |vs|
      invariant i <= |vs| && writer.levels == levels + [Level(i, true)] && writer.hasRoot == old(writer.hasRoot)
      invariant writer.os == old(writer.os) + ElementsText(v, i)
    {
      NextElement(old(writer.os), v, i);
      Accept(vs[i], writer);
      i := i + 1;
    }
  }

  lemma NoElements(v: GenericValue)
    requires Valid(v)
    ensures v.ArrayValue? ==> ElementsText(v, 0) == []
    ensures v.ObjectValue? ==> MembersText(v, 0) == []
  {
  }

  lemma TextOfObject(os: seq<int>, v: GenericValue)
    requires Valid(v) && v.ObjectValue?
    ensures os + ['{' as int] + MembersText(v, |v.members|) + ['}' as int] == os + TextOf(v)
  {
    hide MembersText;
  }

  lemma NextMember(os: seq<int>, v: GenericValue, i: nat)
    requires Valid(v) && v.ObjectValue? && i < |v.members|
    ensures var m := v.members[i];
            os + MembersText(v, i) + Comma(i == 0) + Quoted(m.name.s) + [':' as int] + TextOf(m.value) == os + MembersText(v, i + 1)
  {
    hide TextOf, Quoted;
    var m := v.members[i];
    assert os + MembersText(v, i) + Comma(i == 0) + Quoted(m.name.s) + [':' as int] + TextOf(m.value)
        == os + (MembersText(v, i) + Comma(i == 0) + (Quoted(m.name.s) + [':' as int] + TextOf(m.value)));
  }

  method AcceptObject(v: GenericValue, writer: Writer)
    requires Valid(v) && v.ObjectValue? && MayFollow(writer.levels, writer.hasRoot, false)
    modifies writer
    ensures writer.Wrote(TextOf(v))
    decreases v, 1
  {
    hide Counted, MayFollow, TextOf, MembersText, PrefixText;
    ghost var os, levels := writer.os + PrefixText(writer.levels), Counted(writer.levels);
    writer.StartObject();
    AcceptMembers(v, writer, levels);
    writer.EndObject();
    TextOfObject(os, v);
    assert writer.levels == levels;
  }

  method AcceptMembers(v: GenericValue, writer: Writer, ghost levels: seq<Level>)
    requires Valid(v) && v.ObjectValue? && writer.levels == levels + [Level(0, false)]
    modifies writer
    ensures writer.os == old(writer.os) + MembersText(v, |v.members|)
    ensures writer.levels == levels + [Level(2 * |v.members|, false)] && writer.hasRoot == old(writer.hasRoot)
    decreases v, 0
  {
    hide TextOf, MembersText, Quoted;
    var ms := v.members;
    var i := 0;
    assert MembersText(v, 0) == [] by { NoElements(v); }
    while i < |ms|
      invariant i <= |ms| && writer.levels == levels + [Level(2 * i, false)] && writer.hasRoot == old(writer.hasRoot)
      invariant writer.os == old(writer.os) + MembersText(v, i)
    {
      NextMember(old(writer.os), v, i);
      AcceptString(ms[i].name.s, writer);
      assert writer.levels == levels + [Level(2 * i + 1, false)];
      Accept(ms[i].value, writer);
      assert writer.levels == levels + [Level(2 * i + 2, false)];
      i := i + 1;
    }
  }

  /** The text that a fresh writer makes of a value. */
  method Write(v: GenericValue) returns (text: seq<int>)
    requires Valid(v)
    ensures text == TextOf(v)
  {
    hide TextOf;
    var writer := new Writer();
    Accept(v, writer);
    text := writer.os;
  }
}
