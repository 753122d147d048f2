/** Writing a value and parsing the text back: the parser of reader.h on the text of writer.h, and the document that
    is built from its events. */
module JsonRoundTrip {
  import opened Decimals
  import opened JsonEvents
  import opened JsonGrammar
  import opened JsonNumbers
  import opened JsonStrings
  import opened JsonValues
  import opened JsonWriter
  import Itoa

  /** The scanners are those of the string parser and, on integers, of the number parser; the handler, like that of a
      document, accepts everything. Flags, and what becomes of other numbers, are arbitrary. */
  ghost predicate Standard(env: Env, apostrophe: bool) {
    && Forward(env)
    && (forall pos: nat | pos < |env.src| :: env.scanString(pos) == ScanString(env.src, pos, apostrophe))
    && (forall pos: nat | pos < |env.src| && IntegerAt(env.src, pos).Integral? ::
          env.scanNumber(pos) == Read(IntegerAt(env.src, pos).n, IntegerAt(env.src, pos).end))
    && (forall es :: env.accepts(es))
  }

  lemma Slice(s: seq<int>, from: nat, to: nat, i: nat, j: nat)
    requires from <= to <= |s| && i <= j <= to - from
    ensures s[from..to][i..j] == s[from + i..from + j]
  {
    var x, y := s[from..to][i..j], s[from + i..from + j];
    assert |x| == |y|;
    forall k | 0 <= k < j - i ensures x[k] == y[k] {
      assert x[k] == s[from..to][i + k] == s[from + i + k];
    }
    assert x == y;
  }

  lemma StandsBoth(src: seq<int>, pos: nat, a: seq<int>, b: seq<int>)
    requires Stands(src, pos, a + b)
    ensures Stands(src, pos, a) && Stands(src, pos + |a|, b)
  {
    var all, slice := a + b, src[pos..pos + |a + b|];
    assert slice == all;
    Slice(src, pos, pos + |all|, 0, |a|);
    Slice(src, pos, pos + |all|, |a|, |all|);
    assert all[0..|a|] == a && all[|a|..|all|] == b;
    assert src[pos..pos + |a|] == a;
    assert src[pos + |a|..pos + |a| + |b|] == b;
  }

  lemma StandsPart(src: seq<int>, pos: nat, a: seq<int>, t: seq<int>, b: seq<int>)
    requires Stands(src, pos, a + t + b)
    ensures Stands(src, pos, a) && Stands(src, pos + |a|, t) && Stands(src, pos + |a| + |t|, b)
  {
    hide Stands;
    StandsBoth(src, pos, a + t, b);
    StandsBoth(src, pos, a, t);
  }

  lemma StandsAt(src: seq<int>, pos: nat, t: seq<int>, i: nat)
    requires Stands(src, pos, t) && i < |t|
    ensures pos + i < |src| && src[pos + i] == t[i]
  {
    assert src[pos..pos + |t|][i] == src[pos + i];
  }

  /** ---- Strings ---- */

  lemma HexBack(d: nat)
    requires d < 16
    ensures HexValue(HexDigit(d)) == d
  {
  }

  lemma ReadHexOne(src: seq<int>, pos: nat, n: nat, v: nat, d: nat)
    requires n > 0 && d < 16 && pos < |src| && src[pos] == HexDigit(d)
    ensures HexFrom(src, pos, n, v) == HexFrom(src, pos + 1, n - 1, v * 16 + d)
  {
    HexBack(d);
  }

  /** A control character written as `\u00XX` is read back. */
  lemma ReadControl(src: seq<int>, pos: nat, c: nat)
    requires c < 0x20
    requires Stands(src, pos, ['0' as int, '0' as int, HexDigit(c / 16), HexDigit(c % 16)])
    ensures Hex4(src, pos) == c
  {
    hide HexFrom, HexDigit;
    var t := ['0' as int, '0' as int, HexDigit(c / 16), HexDigit(c % 16)];
    StandsAt(src, pos, t, 0);
    StandsAt(src, pos, t, 1);
    StandsAt(src, pos, t, 2);
    StandsAt(src, pos, t, 3);
    assert HexDigit(0) == '0' as int by { ZeroDigit(); }
    ReadHexOne(src, pos, 4, 0, 0);
    ReadHexOne(src, pos + 1, 3, 0, 0);
    ReadHexOne(src, pos + 2, 2, 0, c / 16);
    ReadHexOne(src, pos + 3, 1, c / 16, c % 16);
    HexNone(src, pos + 4, c);
  }

  lemma ZeroDigit()
    ensures HexDigit(0) == '0' as int
  {
  }

  lemma HexNone(src: seq<int>, pos: nat, v: nat)
    ensures HexFrom(src, pos, 0, v) == v
  {
  }

  /** Each byte of a string is read back from its quoted form. */
  lemma ReadByte(src: seq<int>, pos: nat, c: int, apostrophe: bool)
    requires 0 <= c < 256 && Stands(src, pos, QuotedByte(c))
    ensures src[pos] != '"' as int && Unit(src, pos, apostrophe) == Read([c], pos + |QuotedByte(c)|)
  {
    StandsAt(src, pos, QuotedByte(c), 0);
    if EscapeLetter(c) != 0 {
      StandsAt(src, pos, QuotedByte(c), 1);
      if EscapeLetter(c) == 'u' as int {
        StandsPart(src, pos, ['\\' as int, 'u' as int], QuotedByte(c)[2..], []);
        assert ['\\' as int, 'u' as int] + QuotedByte(c)[2..] + [] == QuotedByte(c);
        ReadControl(src, pos + 2, c);
      }
    }
  }

  /** The bytes from i on, and the closing quote. */
  lemma {:induction false} ReadBytes(src: seq<int>, pos: nat, s: seq<int>, i: nat, apostrophe: bool)
    requires IsByteString(s) && i <= |s| && Stands(src, pos, QuotedBytes(s))
    requires At(src, pos + |QuotedBytes(s)|) == '"' as int
    ensures pos + |QuotedBytes(s[..i])| <= |src|
    ensures Decoded(src, pos + |QuotedBytes(s[..i])|, apostrophe) == Read(s[i..], pos + |QuotedBytes(s)| + 1)
    decreases |s| - i
  {
    hide Decoded, Unit, QuotedBytes, QuotedByte;
    var q := pos + |QuotedBytes(s[..i])|;
    if i == |s| {
      assert s[..i] == s && s[i..] == [];
      DecodedStep(src, q, apostrophe);
    } else {
      QuotedPrefix(src, pos, s, i);
      ReadByte(src, q, s[i], apostrophe);
      ReadBytes(src, pos, s, i + 1, apostrophe);
      DecodedStep(src, q, apostrophe);
      assert [s[i]] + s[i + 1..] == s[i..];
    }
  }

  /** The quoted bytes of a prefix are a prefix, and the next byte follows them. */
  lemma {:induction false} QuotedPrefix(src: seq<int>, pos: nat, s: seq<int>, i: nat)
    requires i < |s| && Stands(src, pos, QuotedBytes(s))
    ensures |QuotedBytes(s[..i + 1])| == |QuotedBytes(s[..i])| + |QuotedByte(s[i])|
    ensures Stands(src, pos, QuotedBytes(s[..i + 1])) && Stands(src, pos + |QuotedBytes(s[..i])|, QuotedByte(s[i]))
    decreases |s| - i
  {
    hide QuotedByte;
    assert s[..i + 1][..i] == s[..i];
    if i + 1 == |s| {
      assert s[..i + 1] == s;
    } else {
      QuotedPrefix(src, pos, s, i + 1);
      assert s[..i + 2][..i + 1] == s[..i + 1];
      StandsPart(src, pos, QuotedBytes(s[..i + 1]), [], QuotedByte(s[i + 1]));
      assert QuotedBytes(s[..i + 1]) + [] + QuotedByte(s[i + 1]) == QuotedBytes(s[..i + 2]);
    }
    StandsPart(src, pos, QuotedBytes(s[..i]), QuotedByte(s[i]), []);
    assert QuotedBytes(s[..i]) + QuotedByte(s[i]) + [] == QuotedBytes(s[..i + 1]);
  }

  /** STRINGS ARE READ BACK, whatever bytes they hold. */
  lemma ReadQuoted(src: seq<int>, pos: nat, s: seq<int>, apostrophe: bool)
    requires IsByteString(s) && Stands(src, pos, Quoted(s))
    ensures pos < |src| && src[pos] == '"' as int
    ensures ScanString(src, pos, apostrophe) == Read(s, pos + |Quoted(s)|)
  {
    hide QuotedBytes, Decoded;
    StandsPart(src, pos, ['"' as int], QuotedBytes(s), ['"' as int]);
    StandsAt(src, pos, ['"' as int], 0);
    StandsAt(src, pos + 1 + |QuotedBytes(s)|, ['"' as int], 0);
    ReadBytes(src, pos + 1, s, 0, apostrophe);
    assert s[..0] == [] && s[0..] == s;
    assert QuotedBytes([]) == [] by { NoBytes(); }
  }

  lemma NoBytes()
    ensures QuotedBytes([]) == []
  {
  }

  /** ---- Values ---- */

  /** What may follow a value in written text. */
  predicate EndsValue(c: int) {
    c == 0 || c == ',' as int || c == ']' as int || c == '}' as int
  }

  /** How written values begin. */
  predicate StartsValue(c: int) {
    c == 'n' as int || c == 't' as int || c == 'f' as int || c == '"' as int || c == '{' as int || c == '[' as int
    || c == '-' as int || IsDigit(c)
  }

  lemma FirstCharacter(v: GenericValue)
    requires Valid(v)
    ensures TextOf(v) != [] && StartsValue(TextOf(v)[0])
  {
    hide MembersText, ElementsText, Decimal, QuotedBytes;
  }

  /** Written text has no blanks to skip. */
  lemma NoBlank(env: Env, c: Cursor)
    requires c.pos <= |env.src|
    requires var ch := At(env.src, c.pos); EndsValue(ch) || StartsValue(ch) || ch == ':' as int
    ensures Skip(env, c) == Done(c)
  {
  }

  /** ONE VALUE IS READ BACK: parsing its text, wherever it stands, ends where the text ends and tells the handler the
      events of the value. */
  lemma {:induction false} ReadValue(env: Env, c: Cursor, v: GenericValue, apostrophe: bool)
    requires Standard(env, apostrophe) && Valid(v)
    requires Stands(env.src, c.pos, TextOf(v)) && EndsValue(At(env.src, c.pos + |TextOf(v)|))
    ensures Value(env, c) == Done(Cursor(c.pos + |TextOf(v)|, c.events + EventsOf(v, true)))
    decreases v, 3
  {
    hide Value, TextOf, EventsOf;
    match v
    case ObjectValue(_) => ReadObject(env, c, v, apostrophe);
    case ArrayValue(_) => ReadArray(env, c, v, apostrophe);
    case _ => ReadScalar(env, c, v, apostrophe);
  }

  lemma ReadScalar(env: Env, c: Cursor, v: GenericValue, apostrophe: bool)
    requires Standard(env, apostrophe) && Valid(v) && !v.ObjectValue? && !v.ArrayValue?
    requires Stands(env.src, c.pos, TextOf(v)) && EndsValue(At(env.src, c.pos + |TextOf(v)|))
    ensures Value(env, c) == Done(Cursor(c.pos + |TextOf(v)|, c.events + EventsOf(v, true)))
  {
    hide *;
    ScalarText(v);
    match v
    case NumberValue(n) => ReadNumber(env, c, n, apostrophe);
    case StringValue(s) => ReadString(env, c, s, apostrophe);
    case NullValue => ReadWord(env, c, "null", Null, apostrophe);
    case BoolValue(b) => ReadWord(env, c, if b then "true" else "false", Bool(b), apostrophe);
  }

  lemma ScalarText(v: GenericValue)
    requires Valid(v) && !v.ObjectValue? && !v.ArrayValue?
    ensures v.NullValue? ==> TextOf(v) == Ascii("null") && EventsOf(v, true) == [Null]
    ensures v.BoolValue? ==> TextOf(v) == Ascii(if v.b then "true" else "false") && EventsOf(v, true) == [Bool(v.b)]
    ensures v.NumberValue? ==> ValidNumber(v.n)
    ensures v.NumberValue? ==> TextOf(v) == Itoa.Signed(IntegerOf(v.n)) && EventsOf(v, true) == [Num(Told(v.n, true))]
    ensures v.StringValue? ==> IsByteString(v.s) && TextOf(v) == Quoted(v.s) && EventsOf(v, true) == [String(v.s)]
  {
    hide Ascii, Quoted, Told, Itoa.Signed, IntegerOf;
  }

  lemma ReadString(env: Env, c: Cursor, s: seq<int>, apostrophe: bool)
    requires Standard(env, apostrophe) && IsByteString(s) && Stands(env.src, c.pos, Quoted(s))
    ensures Value(env, c) == Done(Cursor(c.pos + |Quoted(s)|, c.events + [String(s)]))
  {
    hide Quoted, ScanString;
    ReadQuoted(env.src, c.pos, s, apostrophe);
  }

  lemma ReadNumber(env: Env, c: Cursor, n: NumberData, apostrophe: bool)
    requires Standard(env, apostrophe) && ValidNumber(n)
    requires var t := Itoa.Signed(IntegerOf(n)); Stands(env.src, c.pos, t) && EndsValue(At(env.src, c.pos + |t|))
    ensures var t := Itoa.Signed(IntegerOf(n));
            Value(env, c) == Done(Cursor(c.pos + |t|, c.events + [Num(Told(n, true))]))
  {
    hide IntegerAt, Decimal, GetInt, GetInt64;
    var v := IntegerOf(n);
    ReadsBack(env.src, c.pos, v);
    StandsAt(env.src, c.pos, Itoa.Signed(v), 0);
  }

  lemma ReadWord(env: Env, c: Cursor, word: string, e: Event, apostrophe: bool)
    requires Standard(env, apostrophe) && Stands(env.src, c.pos, Ascii(word))
    requires (word == "null" && e == Null) || (word == "true" && e == Bool(true)) || (word == "false" && e == Bool(false))
    ensures Value(env, c) == Done(Cursor(c.pos + |Ascii(word)|, c.events + [e]))
  {
    StandsAt(env.src, c.pos, Ascii(word), 0);
    MatchedAll(env.src, c.pos, word, 1);
    hide Matched;
  }

  lemma {:induction false} MatchedAll(src: seq<int>, pos: nat, word: string, i: nat)
    requires i <= |word| && Stands(src, pos, Ascii(word))
    ensures Matched(src, pos + i, word[i..]) == |word| - i
    decreases |word| - i
  {
    if i < |word| {
      StandsAt(src, pos, Ascii(word), i);
      MatchedAll(src, pos, word, i + 1);
      assert word[i..][1..] == word[i + 1..];
    }
  }

  /** ---- Arrays ---- */

  /** Texts and events of the containers, one level at a time. */
  lemma Containers(v: GenericValue)
    requires Valid(v)
    ensures v.ArrayValue? ==> TextOf(v) == ['[' as int] + ElementsText(v, |v.elements|) + [']' as int]
    ensures v.ArrayValue? ==>
              EventsOf(v, true) == [StartArray] + ElementEvents(v, |v.elements|, true) + [EndArray(|v.elements|)]
    ensures v.ObjectValue? ==> TextOf(v) == ['{' as int] + MembersText(v, |v.members|) + ['}' as int]
    ensures v.ObjectValue? ==>
              EventsOf(v, true) == [StartObject] + MemberEvents(v, |v.members|, true) + [EndObject(|v.members|)]
  {
    hide ElementsText, ElementEvents, MembersText, MemberEvents;
  }

  /** An opening bracket, without blanks after it. */
  lemma OpenContainer(env: Env, c: Cursor)
    requires Forward(env) && c.pos < |env.src| && forall es :: env.accepts(es)
    ensures var c1 := Cursor(c.pos + 1, c.events + [StartArray]);
            Peek(env, c) == '[' as int && Skip(env, c1) == Done(c1) ==> Value(env, c) == ArrayBody(env, c1)
    ensures var c1 := Cursor(c.pos + 1, c.events + [StartObject]);
            Peek(env, c) == '{' as int && Skip(env, c1) == Done(c1) ==> Value(env, c) == ObjectBody(env, c1)
  {
    hide Skip, ArrayBody, ObjectBody;
    assert Peek(env, c) == '[' as int ==> Value(env, c) == Array(env, c);
    assert Peek(env, c) == '{' as int ==> Value(env, c) == Object(env, c);
  }

  /** The body of a container, empty or not. */
  lemma BodyOf(env: Env, c: Cursor)
    requires Forward(env) && c.pos < |env.src| && forall es :: env.accepts(es)
    ensures Peek(env, c) == ']' as int ==> ArrayBody(env, c) == Done(Cursor(c.pos + 1, c.events + [EndArray(0)]))
    ensures Peek(env, c) != ']' as int ==> ArrayBody(env, c) == Elements(env, c, 0)
    ensures Peek(env, c) == '}' as int ==> ObjectBody(env, c) == Done(Cursor(c.pos + 1, c.events + [EndObject(0)]))
    ensures Peek(env, c) != '}' as int ==> ObjectBody(env, c) == Members(env, c, 0)
  {
    hide Elements, JsonGrammar.Members;
  }

  lemma {:induction false} ReadArray(env: Env, c: Cursor, v: GenericValue, apostrophe: bool)
    requires Standard(env, apostrophe) && Valid(v) && v.ArrayValue? && Stands(env.src, c.pos, TextOf(v))
    ensures Value(env, c) == Done(Cursor(c.pos + |TextOf(v)|, c.events + EventsOf(v, true)))
    decreases v, 2
  {
    hide ElementsText, ElementEvents, Skip, Elements, TextOf, EventsOf, Value, ArrayBody, ObjectBody, Stands;
    var n := |v.elements|;
    Containers(v);
    StandsPart(env.src, c.pos, ['[' as int], ElementsText(v, n), [']' as int]);
    StandsAt(env.src, c.pos, ['[' as int], 0);
    StandsAt(env.src, c.pos + 1 + |ElementsText(v, n)|, [']' as int], 0);
    var c1 := Cursor(c.pos + 1, c.events + [StartArray]);
    NoParts(v);
    assert c1.events + [] == c1.events;
    if n > 0 {
      ElementPlace(env.src, c1.pos, v, 0);
      ReadElements(env, c1, v, 0, apostrophe);
      FirstCharacter(v.elements[0]);
      StandsAt(env.src, c1.pos, TextOf(v.elements[0]), 0);
    }
    NoBlank(env, c1);
    OpenContainer(env, c);
    BodyOf(env, c1);
    assert c1.events + ElementEvents(v, n, true) + [EndArray(n)] == c.events + EventsOf(v, true);
  }

  lemma NoParts(v: GenericValue)
    requires Valid(v)
    ensures v.ArrayValue? ==> ElementsText(v, 0) == [] && ElementEvents(v, 0, true) == []
    ensures v.ObjectValue? ==> MembersText(v, 0) == [] && MemberEvents(v, 0, true) == []
  {
  }

  /** Where element k stands, given where the elements start. */
  function ElementAt(v: GenericValue, k: nat): nat
    requires Valid(v) && v.ArrayValue? && k < |v.elements|
  {
    |ElementsText(v, k)| + |Comma(k == 0)|
  }

  lemma {:induction false} ElementPlace(src: seq<int>, base: nat, v: GenericValue, k: nat)
    requires Valid(v) && v.ArrayValue? && k < |v.elements| && Stands(src, base, ElementsText(v, |v.elements|))
    ensures Stands(src, base, ElementsText(v, k + 1))
    ensures Stands(src, base + ElementAt(v, k), TextOf(v.elements[k]))
    ensures |ElementsText(v, k + 1)| == ElementAt(v, k) + |TextOf(v.elements[k])|
    ensures k > 0 ==> At(src, base + |ElementsText(v, k)|) == ',' as int
    decreases |v.elements| - k
  {
    hide TextOf, ElementsText, Stands;
    ElementsGrow(v, k);
    if k + 1 < |v.elements| {
      ElementPlace(src, base, v, k + 1);
      ElementsGrow(v, k + 1);
      StandsPart(src, base, ElementsText(v, k + 1), Comma(false), TextOf(v.elements[k + 1]));
    }
    StandsPart(src, base, ElementsText(v, k), Comma(k == 0), TextOf(v.elements[k]));
    if k > 0 {
      StandsAt(src, base + |ElementsText(v, k)|, [',' as int], 0);
    }
  }

  lemma ElementsGrow(v: GenericValue, k: nat)
    requires Valid(v) && v.ArrayValue? && k < |v.elements|
    ensures ElementsText(v, k + 1) == ElementsText(v, k) + Comma(k == 0) + TextOf(v.elements[k])
    ensures ElementEvents(v, k + 1, true) == ElementEvents(v, k, true) + EventsOf(v.elements[k], true)
  {
    hide TextOf, EventsOf;
  }

  /** From element k on. */
  lemma {:induction false} ReadElements(env: Env, c: Cursor, v: GenericValue, k: nat, apostrophe: bool)
    requires Standard(env, apostrophe) && Valid(v) && v.ArrayValue? && k < |v.elements|
    requires Stands(env.src, c.pos, ElementsText(v, |v.elements|))
    requires At(env.src, c.pos + |ElementsText(v, |v.elements|)|) == ']' as int
    ensures var n := |v.elements|; var here := Cursor(c.pos + ElementAt(v, k), c.events + ElementEvents(v, k, true));
            && here.pos <= |env.src|
            && Elements(env, here, k)
               == Done(Cursor(c.pos + |ElementsText(v, n)| + 1, c.events + ElementEvents(v, n, true) + [EndArray(n)]))
    decreases v, 1, |v.elements| - k
  {
    hide ElementsText, ElementEvents, Elements, Value, Skip, TextOf, EventsOf, Stands, AfterElement;
    var n := |v.elements|;
    var here := Cursor(c.pos + ElementAt(v, k), c.events + ElementEvents(v, k, true));
    ElementPlace(env.src, c.pos, v, k);
    ElementsGrow(v, k);
    var after := Cursor(c.pos + |ElementsText(v, k + 1)|, c.events + ElementEvents(v, k + 1, true));
    assert after.events == here.events + EventsOf(v.elements[k], true);
    if k + 1 < n {
      ElementPlace(env.src, c.pos, v, k + 1);
    }
    ReadValue(env, here, v.elements[k], apostrophe);
    NoBlank(env, after);
    ElementsOne(env, here, after, k);
    if k + 1 < n {
      ReadElements(env, c, v, k + 1, apostrophe);
      FirstCharacter(v.elements[k + 1]);
      StandsAt(env.src, c.pos + ElementAt(v, k + 1), TextOf(v.elements[k + 1]), 0);
      NoBlank(env, Cursor(after.pos + 1, after.events));
      AfterComma(env, after, k + 1);
    } else {
      AfterLast(env, after, k + 1);
    }
  }

  lemma ElementsOne(env: Env, here: Cursor, after: Cursor, k: nat)
    requires Forward(env) && here.pos <= |env.src| && Value(env, here) == Done(after) && Skip(env, after) == Done(after)
    ensures Elements(env, here, k) == AfterElement(env, after, k + 1)
  {
    hide Value, Skip, AfterElement;
  }

  lemma AfterComma(env: Env, c: Cursor, n: nat)
    requires Forward(env) && c.pos < |env.src| && Peek(env, c) == ',' as int
    requires var c1 := Cursor(c.pos + 1, c.events); Skip(env, c1) == Done(c1) && StartsValue(Peek(env, c1))
    ensures AfterElement(env, c, n) == Elements(env, Cursor(c.pos + 1, c.events), n)
  {
    hide Skip, Elements;
    assert AfterElement(env, c, n) == ElementsOrEnd(env, Cursor(c.pos + 1, c.events), n);
  }

  lemma AfterLast(env: Env, c: Cursor, n: nat)
    requires Forward(env) && c.pos < |env.src| && Peek(env, c) == ']' as int && forall es :: env.accepts(es)
    ensures AfterElement(env, c, n) == Done(Cursor(c.pos + 1, c.events + [EndArray(n)]))
  {
    hide Skip, Elements, ElementsOrEnd;
  }

  /** ---- Objects ---- */

  /** Where member k stands, given where the members start. */
  function MemberAt(v: GenericValue, k: nat): nat
    requires Valid(v) && v.ObjectValue? && k < |v.members|
  {
    |MembersText(v, k)| + |Comma(k == 0)|
  }

  lemma MembersGrow(v: GenericValue, k: nat)
    requires Valid(v) && v.ObjectValue? && k < |v.members|
    ensures MembersText(v, k + 1) == MembersText(v, k) + Comma(k == 0) + MemberText(v.members[k])
    ensures var m := v.members[k];
            MemberEvents(v, k + 1, true) == MemberEvents(v, k, true) + ([Key(m.name.s)] + EventsOf(m.value, true))
  {
    hide MemberText, EventsOf;
  }

  lemma {:induction false} MemberPlace(src: seq<int>, base: nat, v: GenericValue, k: nat)
    requires Valid(v) && v.ObjectValue? && k < |v.members| && Stands(src, base, MembersText(v, |v.members|))
    ensures Stands(src, base, MembersText(v, k + 1))
    ensures Stands(src, base + MemberAt(v, k), MemberText(v.members[k]))
    ensures |MembersText(v, k + 1)| == MemberAt(v, k) + |MemberText(v.members[k])|
    ensures k > 0 ==> At(src, base + |MembersText(v, k)|) == ',' as int
    decreases |v.members| - k
  {
    hide MemberText, MembersText, Stands;
    MembersGrow(v, k);
    if k + 1 < |v.members| {
      MemberPlace(src, base, v, k + 1);
      MembersGrow(v, k + 1);
      StandsPart(src, base, MembersText(v, k + 1), Comma(false), MemberText(v.members[k + 1]));
    }
    hide Valid;
    StandsPart(src, base, MembersText(v, k), Comma(k == 0), MemberText(v.members[k]));
    if k > 0 {
      StandsAt(src, base + |MembersText(v, k)|, [',' as int], 0);
    }
  }

  /** A name, the colon, and the value. */
  lemma {:induction false} ReadMember(env: Env, c: Cursor, m: Member, n: nat, apostrophe: bool)
    requires Standard(env, apostrophe) && m.name.StringValue? && Valid(m.name) && Valid(m.value)
    requires Stands(env.src, c.pos, MemberText(m)) && EndsValue(At(env.src, c.pos + |MemberText(m)|))
    ensures var after := Cursor(c.pos + |MemberText(m)|, c.events + ([Key(m.name.s)] + EventsOf(m.value, true)));
            Members(env, c, n) == AfterMember(env, after, n + 1)
    decreases m.value, 4
  {
    hide TextOf, EventsOf, Quoted, ScanString, Value, Members, AfterMember, AfterColon, Skip, Stands, Forward;
    var name, t := Quoted(m.name.s), TextOf(m.value);
    StandsPart(env.src, c.pos, name, [':' as int], t);
    ReadQuoted(env.src, c.pos, m.name.s, apostrophe);
    StandsAt(env.src, c.pos + |name|, [':' as int], 0);
    FirstCharacter(m.value);
    StandsAt(env.src, c.pos + |name| + 1, t, 0);
    var c1 := Cursor(c.pos + |name|, c.events + [Key(m.name.s)]);
    var c2 := Cursor(c1.pos + 1, c1.events);
    NoBlank(env, c1);
    NoBlank(env, c2);
    ReadValue(env, c2, m.value, apostrophe);
    var after := Cursor(c.pos + |MemberText(m)|, c.events + ([Key(m.name.s)] + EventsOf(m.value, true)));
    assert c2.events + EventsOf(m.value, true) == after.events;
    NoBlank(env, after);
    MembersOne(env, c, c1, c2, after, n);
  }

  lemma MembersOne(env: Env, c: Cursor, c1: Cursor, c2: Cursor, after: Cursor, n: nat)
    requires Forward(env) && c.pos < |env.src| && Peek(env, c) == '"' as int && Text(env, c, true) == Done(c1)
    requires Skip(env, c1) == Done(c1) && Peek(env, c1) == ':' as int && c2 == Cursor(c1.pos + 1, c1.events)
    requires c2.pos <= |env.src| && Skip(env, c2) == Done(c2) && Value(env, c2) == Done(after) && Skip(env, after) == Done(after)
    ensures after.pos <= |env.src| && Members(env, c, n) == AfterMember(env, after, n + 1)
  {
    hide Text, Value, Skip, AfterMember;
    assert Members(env, c, n) == AfterKey(env, c1, n);
    assert AfterKey(env, c1, n) == AfterColon(env, c2, n);
  }

  lemma {:induction false} ReadObject(env: Env, c: Cursor, v: GenericValue, apostrophe: bool)
    requires Standard(env, apostrophe) && Valid(v) && v.ObjectValue? && Stands(env.src, c.pos, TextOf(v))
    ensures Value(env, c) == Done(Cursor(c.pos + |TextOf(v)|, c.events + EventsOf(v, true)))
    decreases v, 2
  {
    hide MembersText, MemberEvents, Skip, Members, TextOf, EventsOf, Value, ArrayBody, ObjectBody, Stands, Quoted;
    var n := |v.members|;
    Containers(v);
    StandsPart(env.src, c.pos, ['{' as int], MembersText(v, n), ['}' as int]);
    StandsAt(env.src, c.pos, ['{' as int], 0);
    StandsAt(env.src, c.pos + 1 + |MembersText(v, n)|, ['}' as int], 0);
    var c1 := Cursor(c.pos + 1, c.events + [StartObject]);
    NoParts(v);
    assert c1.events + [] == c1.events;
    if n > 0 {
      MemberPlace(env.src, c1.pos, v, 0);
      ReadMembers(env, c1, v, 0, apostrophe);
      QuoteFirst(v.members[0]);
      StandsAt(env.src, c1.pos, MemberText(v.members[0]), 0);
    }
    NoBlank(env, c1);
    OpenContainer(env, c);
    BodyOf(env, c1);
    assert c1.events + MemberEvents(v, n, true) + [EndObject(n)] == c.events + EventsOf(v, true);
  }

  lemma QuoteFirst(m: Member)
    requires m.name.StringValue? && Valid(m.value)
    ensures MemberText(m) != [] && MemberText(m)[0] == '"' as int
  {
    hide QuotedBytes, TextOf;
  }

  /** From member k on. */
  lemma {:induction false} ReadMembers(env: Env, c: Cursor, v: GenericValue, k: nat, apostrophe: bool)
    requires Standard(env, apostrophe) && Valid(v) && v.ObjectValue? && k < |v.members|
    requires Stands(env.src, c.pos, MembersText(v, |v.members|))
    requires At(env.src, c.pos + |MembersText(v, |v.members|)|) == '}' as int
    ensures var n := |v.members|; var here := Cursor(c.pos + MemberAt(v, k), c.events + MemberEvents(v, k, true));
            && here.pos <= |env.src|
            && Members(env, here, k)
               == Done(Cursor(c.pos + |MembersText(v, n)| + 1, c.events + MemberEvents(v, n, true) + [EndObject(n)]))
    decreases v, 1, |v.members| - k
  {
    hide MembersText, MemberEvents, Members, Skip, MemberText, EventsOf, Stands, AfterMember, Standard;
    var n, m := |v.members|, v.members[k];
    var here := Cursor(c.pos + MemberAt(v, k), c.events + MemberEvents(v, k, true));
    MemberPlace(env.src, c.pos, v, k);
    MembersGrow(v, k);
    var after := Cursor(c.pos + |MembersText(v, k + 1)|, c.events + MemberEvents(v, k + 1, true));
    assert after.events == here.events + ([Key(m.name.s)] + EventsOf(m.value, true));
    if k + 1 < n {
      MemberPlace(env.src, c.pos, v, k + 1);
    }
    ReadMember(env, here, m, k, apostrophe);
    if k + 1 < n {
      ReadMembers(env, c, v, k + 1, apostrophe);
      QuoteFirst(v.members[k + 1]);
      StandsAt(env.src, c.pos + MemberAt(v, k + 1), MemberText(v.members[k + 1]), 0);
      NoBlank(env, Cursor(after.pos + 1, after.events));
      CommaThenMember(env, after, k + 1, apostrophe);
    } else {
      LastMember(env, after, k + 1, apostrophe);
    }
  }

  lemma CommaThenMember(env: Env, c: Cursor, n: nat, apostrophe: bool)
    requires Standard(env, apostrophe) && c.pos < |env.src| && Peek(env, c) == ',' as int
    requires var c1 := Cursor(c.pos + 1, c.events); Skip(env, c1) == Done(c1) && Peek(env, c1) == '"' as int
    ensures AfterMember(env, c, n) == Members(env, Cursor(c.pos + 1, c.events), n)
  {
    hide Skip, Members;
    assert AfterMember(env, c, n) == MembersOrEnd(env, Cursor(c.pos + 1, c.events), n);
  }

  lemma LastMember(env: Env, c: Cursor, n: nat, apostrophe: bool)
    requires Standard(env, apostrophe) && c.pos < |env.src| && Peek(env, c) == '}' as int
    ensures AfterMember(env, c, n) == Done(Cursor(c.pos + 1, c.events + [EndObject(n)]))
  {
    hide Skip, Members, MembersOrEnd;
  }

  /** ---- Documents ---- */

  /** WRITING AND PARSING UNDO EACH OTHER. Whatever the flags, parsing the text of a value, recursively or with the
      table, succeeds at its end with the events of the value, and they build the value, alone on the stack. */
  lemma RoundTrip(env: Env, v: GenericValue, apostrophe: bool)
    requires Standard(env, apostrophe) && Valid(v) && env.src == TextOf(v)
    ensures Document(env) == Done(Cursor(|env.src|, EventsOf(v, true)))
    ensures HandleAll([], EventsOf(v, true)) == Stack([v])
  {
    hide TextOf, EventsOf, Value, Skip, HandleAll;
    var c, end := Cursor(0, []), Cursor(|env.src|, EventsOf(v, true));
    assert env.src[0..|env.src|] == env.src;
    FirstCharacter(v);
    NoBlank(env, c);
    ReadValue(env, c, v, apostrophe);
    assert [] + EventsOf(v, true) == EventsOf(v, true);
    NoBlank(env, end);
    EventsBuild([], v, true);
    assert [] + [v] == [v];
  }
}
