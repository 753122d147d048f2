/** JSON texts as requests: which texts of the writer the session handler hands over whole. */
module SessionJson {
  import opened Decimals
  import opened JsonValues
  import opened JsonWriter
  import opened Sessions
  import opened Wrappers
  import Itoa

  /** ---- Braces of a text ---- */

  /** Opening braces less closing ones, and the least that this is for any prefix. */
  datatype Braces = Braces(change: int, low: int)

  const NO_BRACES := Braces(0, 0)

  /** A text after another. */
  function Then(a: Braces, b: Braces): Braces {
    Braces(a.change + b.change, if a.change + b.low < a.low then a.change + b.low else a.low)
  }

  function BraceOf(c: int): Braces {
    Braces(Change(c), if Change(c) < 0 then Change(c) else 0)
  }

  function BracesOf(s: seq<int>): (b: Braces)
    ensures b.low <= 0 && b.low <= b.change
  {
    if s == [] then NO_BRACES else Then(BracesOf(s[..|s| - 1]), BraceOf(s[|s| - 1]))
  }

  /** The two numbers are what the handler's depths come to. */
  lemma {:induction false} BracesMean(s: seq<int>)
    ensures BracesOf(s).change == Depth(s) && (BracesOf(s).low >= 0 <==> Nested(s))
    decreases |s|
  {
    if s != [] {
      BracesMean(s[..|s| - 1]);
      NestedDepth(s[..|s| - 1]);
    }
  }

  lemma NestedDepth(s: seq<int>)
    ensures Nested(s) ==> Depth(s) >= 0
  {
  }

  lemma {:induction false} BracesAdd(a: seq<int>, b: seq<int>)
    ensures BracesOf(a + b) == Then(BracesOf(a), BracesOf(b))
    decreases |b|
  {
    if b == [] {
      assert a + b == a;
    } else {
      var c := b[..|b| - 1];
      BracesAdd(a, c);
      assert (a + b)[..|a + b| - 1] == a + c;
    }
  }

  lemma BracesOne(c: int)
    ensures BracesOf([c]) == BraceOf(c)
  {
    assert [c][..0] == [];
  }

  lemma {:induction false} Braceless(s: seq<int>)
    requires OPEN !in s && CLOSE !in s
    ensures BracesOf(s) == NO_BRACES
  {
    if s != [] {
      Braceless(s[..|s| - 1]);
    }
  }

  /** ---- Braces of a value ---- */

  /** The braces of a value: those of its names and strings, and a pair around the members of every object. */
  function ValueBraces(v: GenericValue): (b: Braces)
    requires Valid(v)
    ensures b.low <= 0 && b.low <= b.change
    decreases v, 1
  {
    match v
    case NullValue => NO_BRACES
    case BoolValue(_) => NO_BRACES
    case NumberValue(_) => NO_BRACES
    case StringValue(s) => BracesOf(s)
    case ObjectValue(ms) => Then(Then(BraceOf(OPEN), MembersBraces(v, |ms|)), BraceOf(CLOSE))
    case ArrayValue(vs) => ElementsBraces(v, |vs|)
  }

  /** The first k members, without the pair around them. */
  function MembersBraces(v: GenericValue, k: nat): (b: Braces)
    requires Valid(v) && v.ObjectValue? && k <= |v.members|
    ensures b.low <= 0 && b.low <= b.change
    decreases v, 0, k
  {
    if k == 0 then NO_BRACES
    else Then(Then(MembersBraces(v, k - 1), BracesOf(v.members[k - 1].name.s)), ValueBraces(v.members[k - 1].value))
  }

  function ElementsBraces(v: GenericValue, k: nat): (b: Braces)
    requires Valid(v) && v.ArrayValue? && k <= |v.elements|
    ensures b.low <= 0 && b.low <= b.change
    decreases v, 0, k
  {
    if k == 0 then NO_BRACES else Then(ElementsBraces(v, k - 1), ValueBraces(v.elements[k - 1]))
  }

  /** A brace is written as it is, and nothing else becomes one. */
  lemma QuotedByteBraces(c: int)
    ensures BracesOf(QuotedByte(c)) == BraceOf(c)
  {
    hide BracesOf;
    if EscapeLetter(c) == 0 {
      BracesOne(c);
    } else {
      Braceless(QuotedByte(c));
    }
  }

  lemma {:induction false} QuotedBytesBraces(s: seq<int>)
    ensures BracesOf(QuotedBytes(s)) == BracesOf(s)
  {
    if s != [] {
      hide QuotedByte, BraceOf;
      var n := |s| - 1;
      QuotedBytesBraces(s[..n]);
      QuotedByteBraces(s[n]);
      BracesAdd(QuotedBytes(s[..n]), QuotedByte(s[n]));
    }
  }

  lemma QuotedBraces(s: seq<int>)
    ensures BracesOf(Quoted(s)) == BracesOf(s)
  {
    hide BracesOf, QuotedBytes;
    var q := ['"' as int];
    QuotedBytesBraces(s);
    Braceless(q);
    BracesAdd(q, QuotedBytes(s));
    BracesAdd(q + QuotedBytes(s), q);
  }

  lemma SignedBraces(n: int)
    ensures BracesOf(Itoa.Signed(n)) == NO_BRACES
  {
    hide BracesOf, Decimal;
    Braceless(Itoa.Signed(n));
  }

  lemma CommaBraces(first: bool)
    ensures BracesOf(Comma(first)) == NO_BRACES
  {
    hide BracesOf;
    Braceless(Comma(first));
  }

  /** The text of a value has the braces of the value. */
  lemma {:induction false} TextBraces(v: GenericValue)
    requires Valid(v)
    ensures BracesOf(TextOf(v)) == ValueBraces(v)
    decreases v, 1
  {
    hide BracesOf, Quoted, Itoa.Signed, BraceOf, MembersText, ElementsText, MembersBraces, ElementsBraces, Then;
    match v {
      case NullValue => Braceless(Ascii("null"));
      case BoolValue(b) => Braceless(Ascii(if b then "true" else "false"));
      case NumberValue(n) => SignedBraces(IntegerOf(n));
      case StringValue(s) => QuotedBraces(s);
      case ObjectValue(ms) =>
        MembersTextBraces(v, |ms|);
        BracesOne(OPEN);
        BracesOne(CLOSE);
        BracesAdd(['{' as int], MembersText(v, |ms|));
        BracesAdd(['{' as int] + MembersText(v, |ms|), ['}' as int]);
      case ArrayValue(vs) =>
        ElementsTextBraces(v, |vs|);
        Bracketed(ElementsText(v, |vs|));
    }
  }

  lemma Bracketed(t: seq<int>)
    ensures BracesOf(['[' as int] + t + [']' as int]) == BracesOf(t)
  {
    hide BracesOf;
    Braceless(['[' as int]);
    Braceless([']' as int]);
    BracesAdd(['[' as int], t);
    BracesAdd(['[' as int] + t, [']' as int]);
  }

  lemma {:induction false} MembersTextBraces(v: GenericValue, k: nat)
    requires Valid(v) && v.ObjectValue? && k <= |v.members|
    ensures BracesOf(MembersText(v, k)) == MembersBraces(v, k)
    decreases v, 0, k
  {
    hide *;
    if k == 0 {
      NoMembersBraces(v);
      NoMembersText(v);
    } else {
      ValidMember(v, k - 1);
      MembersTextBraces(v, k - 1);
      TextBraces(v.members[k - 1].value);
      MembersTextStep(v, k);
    }
  }

  lemma NoMembersText(v: GenericValue)
    requires Valid(v) && v.ObjectValue?
    ensures BracesOf(MembersText(v, 0)) == NO_BRACES
  {
  }

  lemma ValidMember(v: GenericValue, i: nat)
    requires Valid(v) && v.ObjectValue? && i < |v.members|
    ensures v.members[i].name.StringValue? && Valid(v.members[i].value)
  {
  }

  lemma MembersTextStep(v: GenericValue, k: nat)
    requires Valid(v) && v.ObjectValue? && 0 < k <= |v.members| && Valid(v.members[k - 1].value)
    requires BracesOf(MembersText(v, k - 1)) == MembersBraces(v, k - 1)
    requires BracesOf(TextOf(v.members[k - 1].value)) == ValueBraces(v.members[k - 1].value)
    ensures BracesOf(MembersText(v, k)) == MembersBraces(v, k)
  {
    hide BracesOf, TextOf, MemberText, Comma, Then, ValueBraces;
    MemberTextBraces(MembersText(v, k - 1), k == 1, v.members[k - 1]);
  }

  lemma MemberTextBraces(before: seq<int>, first: bool, m: Member)
    requires m.name.StringValue? && Valid(m.value)
    ensures BracesOf(before + Comma(first) + MemberText(m)) == Then(Then(BracesOf(before), BracesOf(m.name.s)), BracesOf(TextOf(m.value)))
  {
    hide BracesOf, Quoted, TextOf, Comma;
    var name, colon, text := Quoted(m.name.s), [':' as int], TextOf(m.value);
    CommaBraces(first);
    QuotedBraces(m.name.s);
    Braceless(colon);
    BracesAdd(before, Comma(first));
    BracesAdd(name, colon);
    BracesAdd(name + colon, text);
    BracesAdd(before + Comma(first), MemberText(m));
  }

  lemma {:induction false} ElementsTextBraces(v: GenericValue, k: nat)
    requires Valid(v) && v.ArrayValue? && k <= |v.elements|
    ensures BracesOf(ElementsText(v, k)) == ElementsBraces(v, k)
    decreases v, 0, k
  {
    hide *;
    if k == 0 {
      NoElementsBraces(v);
    } else {
      ValidElement(v, k - 1);
      ElementsTextBraces(v, k - 1);
      TextBraces(v.elements[k - 1]);
      ElementsTextStep(v, k);
    }
  }

  lemma NoElementsBraces(v: GenericValue)
    requires Valid(v) && v.ArrayValue?
    ensures BracesOf(ElementsText(v, 0)) == NO_BRACES == ElementsBraces(v, 0)
  {
  }

  lemma ValidElement(v: GenericValue, i: nat)
    requires Valid(v) && v.ArrayValue? && i < |v.elements|
    ensures Valid(v.elements[i])
  {
  }

  lemma ElementsTextStep(v: GenericValue, k: nat)
    requires Valid(v) && v.ArrayValue? && 0 < k <= |v.elements| && Valid(v.elements[k - 1])
    requires BracesOf(ElementsText(v, k - 1)) == ElementsBraces(v, k - 1)
    requires BracesOf(TextOf(v.elements[k - 1])) == ValueBraces(v.elements[k - 1])
    ensures BracesOf(ElementsText(v, k)) == ElementsBraces(v, k)
  {
    hide BracesOf, TextOf, Comma, ValueBraces, Valid;
    var before, text := ElementsText(v, k - 1), TextOf(v.elements[k - 1]);
    CommaBraces(k == 1);
    BracesAdd(before, Comma(k == 1));
    BracesAdd(before + Comma(k == 1), text);
  }

  /** ---- Texts that are requests ---- */

  /** Where nesting fails first, one closing brace is in excess. */
  lemma {:induction false} FirstExcess(s: seq<int>) returns (k: nat)
    requires !Nested(s)
    ensures k <= |s| && Depth(s[..k]) == -1
    decreases |s|
  {
    var n := |s| - 1;
    if Nested(s[..n]) {
      k := |s|;
      assert s[..k] == s;
      NestedDepth(s[..n]);
    } else {
      k := FirstExcess(s[..n]);
      assert s[..n][..k] == s[..k];
    }
  }

  /** What starts with an opening brace has been deeper than nothing. */
  lemma {:induction false} Opened(s: seq<int>)
    ensures Depth([OPEN] + s) == 1 + Depth(s) && MaxDepth([OPEN] + s) > 0
    ensures Nested(s) ==> Nested([OPEN] + s)
    decreases |s|
  {
    if s == [] {
      assert [OPEN] + s == [] + [OPEN];
      NoDepth();
      Push([], OPEN);
      NothingPending();
    } else {
      var n := |s| - 1;
      Opened(s[..n]);
      Push([OPEN] + s[..n], s[n]);
      assert [OPEN] + s == [OPEN] + s[..n] + [s[n]];
      NestedDepth(s);
    }
  }

  lemma Closed(s: seq<int>)
    ensures Depth(s + [CLOSE]) == Depth(s) - 1 && (Nested(s + [CLOSE]) <==> Nested(s) && Depth(s) >= 1)
    ensures MaxDepth(s) > 0 ==> MaxDepth(s + [CLOSE]) > 0
  {
    hide Depth, MaxDepth, Nested;
    Push(s, CLOSE);
  }

  lemma EarlyEnd(body: seq<int>)
    requires !Nested(body)
    ensures var r := [OPEN] + body + [CLOSE]; exists k | 0 <= k < |r| :: Complete(r[..k])
  {
    hide Depth, MaxDepth, Nested;
    var r := [OPEN] + body + [CLOSE];
    var k := FirstExcess(body);
    Opened(body[..k]);
    assert r[..k + 1] == [OPEN] + body[..k];
    assert Complete(r[..k + 1]);
  }

  /** A text in braces is a request exactly when what is within them is nested and balanced. */
  lemma EnclosedIff(body: seq<int>)
    ensures IsRequest([OPEN] + body + [CLOSE]) <==> Nested(body) && Depth(body) == 0
  {
    hide Depth, MaxDepth, Nested;
    var r := [OPEN] + body + [CLOSE];
    Opened(body);
    Closed([OPEN] + body);
    if !Nested(body) {
      EarlyEnd(body);
    }
    if Nested(body) && Depth(body) == 0 {
      forall k | 0 <= k < |r| ensures !Complete(r[..k]) {
        if k == 0 {
          NoDepth();
        } else {
          assert r[..k] == [OPEN] + body[..k - 1];
          assert body == body[..k - 1] + body[k - 1..];
          NestedPrefix(body[..k - 1], body[k - 1..]);
          Opened(body[..k - 1]);
          NestedDepth(body[..k - 1]);
        }
      }
    }
  }

  /** THE TEXT OF AN OBJECT IS A REQUEST, to be handed over whole however it is cut, EXACTLY WHEN THE BRACES OF ITS
      MEMBERS AMOUNT TO NONE: in order, never more closing than opening ones, and as many of both. */
  lemma RequestIff(v: GenericValue)
    requires Valid(v) && v.ObjectValue?
    ensures IsRequest(TextOf(v)) <==> MembersBraces(v, |v.members|) == NO_BRACES
  {
    hide IsRequest, BracesOf, MembersBraces, MembersText;
    var body := MembersText(v, |v.members|);
    MembersTextBraces(v, |v.members|);
    BracesMean(body);
    EnclosedIff(body);
  }

  /** In one chunk it is handed over exactly when its own braces amount to none; it ends the session when more is
      closed than was opened, and otherwise is kept waiting for more. */
  lemma OneChunkIff(v: GenericValue, room: nat, reply: Reply)
    requires Valid(v) && v.ObjectValue? && |TextOf(v)| <= room
    ensures OnChunk([], room, TextOf(v), reply).called == Some(TextOf(v)) <==> ValueBraces(v) == NO_BRACES
    ensures ValueBraces(v).low < 0 ==> OnChunk([], room, TextOf(v), reply) == Outcome([], Abort, None, [])
    ensures ValueBraces(v).low == 0 < ValueBraces(v).change ==>
              OnChunk([], room, TextOf(v), reply) == Outcome(TextOf(v), Continue, None, [])
  {
    hide Depth, MaxDepth, Nested, BracesOf, MembersText, ValueBraces;
    var t, rest := TextOf(v), MembersText(v, |v.members|) + [CLOSE];
    TextBraces(v);
    BracesMean(t);
    assert [] + t == t;
    assert t == [OPEN] + rest;
    Opened(rest);
  }

  /** ---- Strings that are balanced on their own ---- */

  predicate BalancedString(s: seq<int>) {
    Nested(s) && Depth(s) == 0
  }

  /** Every name and every string is balanced on its own. */
  predicate BalancedStrings(v: GenericValue)
    requires Valid(v)
  {
    match v
    case StringValue(s) => BalancedString(s)
    case ObjectValue(ms) => forall i | 0 <= i < |ms| :: BalancedString(ms[i].name.s) && BalancedStrings(ms[i].value)
    case ArrayValue(vs) => forall i | 0 <= i < |vs| :: BalancedStrings(vs[i])
    case _ => true
  }

  /** No name and no string holds a brace. */
  predicate NoBraceInStrings(v: GenericValue)
    requires Valid(v)
  {
    match v
    case StringValue(s) => OPEN !in s && CLOSE !in s
    case ObjectValue(ms) => forall i | 0 <= i < |ms| :: OPEN !in ms[i].name.s && CLOSE !in ms[i].name.s && NoBraceInStrings(ms[i].value)
    case ArrayValue(vs) => forall i | 0 <= i < |vs| :: NoBraceInStrings(vs[i])
    case _ => true
  }

  lemma BalancedMeans(s: seq<int>)
    ensures BalancedString(s) <==> BracesOf(s) == NO_BRACES
  {
    hide BracesOf, Depth, Nested;
    BracesMean(s);
  }

  lemma {:induction false} BalancedNone(v: GenericValue)
    requires Valid(v) && BalancedStrings(v)
    ensures ValueBraces(v) == NO_BRACES
    ensures v.ObjectValue? ==> MembersBraces(v, |v.members|) == NO_BRACES
    decreases v, 1
  {
    hide BracesOf, BalancedString, MembersBraces, ElementsBraces;
    match v {
      case StringValue(s) => BalancedMeans(s);
      case ObjectValue(ms) => BalancedMembers(v, |ms|);
      case ArrayValue(vs) => BalancedElements(v, |vs|);
      case _ =>
    }
  }

  lemma {:induction false} BalancedMembers(v: GenericValue, k: nat)
    requires Valid(v) && v.ObjectValue? && k <= |v.members| && BalancedStrings(v)
    ensures MembersBraces(v, k) == NO_BRACES
    decreases v, 0, k
  {
    hide *;
    if k == 0 {
      NoMembersBraces(v);
    } else {
      BalancedMember(v, k - 1);
      BalancedNone(v.members[k - 1].value);
      BalancedMembers(v, k - 1);
      BalancedMeans(v.members[k - 1].name.s);
      BalancedMembersStep(v, k);
    }
  }

  lemma NoMembersBraces(v: GenericValue)
    requires Valid(v) && v.ObjectValue?
    ensures MembersBraces(v, 0) == NO_BRACES
  {
  }

  lemma BalancedMember(v: GenericValue, i: nat)
    requires Valid(v) && v.ObjectValue? && i < |v.members| && BalancedStrings(v)
    ensures v.members[i].name.StringValue? && Valid(v.members[i].value)
    ensures BalancedString(v.members[i].name.s) && BalancedStrings(v.members[i].value)
  {
    hide BalancedString;
  }

  lemma BalancedMembersStep(v: GenericValue, k: nat)
    requires Valid(v) && v.ObjectValue? && 0 < k <= |v.members| && v.members[k - 1].name.StringValue? && Valid(v.members[k - 1].value)
    requires MembersBraces(v, k - 1) == NO_BRACES == BracesOf(v.members[k - 1].name.s) == ValueBraces(v.members[k - 1].value)
    ensures MembersBraces(v, k) == NO_BRACES
  {
    hide BracesOf, ValueBraces, Valid;
  }

  lemma {:induction false} BalancedElements(v: GenericValue, k: nat)
    requires Valid(v) && v.ArrayValue? && k <= |v.elements| && BalancedStrings(v)
    ensures ElementsBraces(v, k) == NO_BRACES
    decreases v, 0, k
  {
    if k > 0 {
      BalancedElements(v, k - 1);
      BalancedNone(v.elements[k - 1]);
    }
  }

  lemma {:induction false} NoBraceBalanced(v: GenericValue)
    requires Valid(v) && NoBraceInStrings(v)
    ensures BalancedStrings(v)
  {
    hide BalancedString, BracesOf;
    match v {
      case StringValue(s) => NoBraceString(s);
      case ObjectValue(ms) =>
        forall i | 0 <= i < |ms| ensures BalancedString(ms[i].name.s) && BalancedStrings(ms[i].value) {
          NoBraceString(ms[i].name.s);
          NoBraceBalanced(ms[i].value);
        }
      case ArrayValue(vs) =>
        forall i | 0 <= i < |vs| ensures BalancedStrings(vs[i]) {
          NoBraceBalanced(vs[i]);
        }
      case _ =>
    }
  }

  lemma NoBraceString(s: seq<int>)
    requires OPEN !in s && CLOSE !in s
    ensures BalancedString(s)
  {
    hide BracesOf, BalancedString;
    Braceless(s);
    BalancedMeans(s);
  }

  /** Every object whose names and strings hold no brace, or only balanced ones, is written as a request. */
  lemma BalancedRequest(v: GenericValue)
    requires Valid(v) && v.ObjectValue? && (NoBraceInStrings(v) || BalancedStrings(v))
    ensures IsRequest(TextOf(v))
  {
    hide IsRequest, NoBraceInStrings, BalancedStrings, TextOf, MembersBraces;
    if NoBraceInStrings(v) {
      NoBraceBalanced(v);
    }
    BalancedNone(v);
    RequestIff(v);
  }

  /** ---- Streams of objects ---- */

  function Texts(vs: seq<GenericValue>): (ts: seq<seq<int>>)
    requires forall v | v in vs :: Valid(v)
    ensures |ts| == |vs| && forall i | 0 <= i < |vs| :: ts[i] == TextOf(vs[i])
  {
    if vs == [] then [] else [TextOf(vs[0])] + Texts(vs[1..])
  }

  /** FROM VALUES TO CALLS: objects whose braces amount to none, written one after the other and sent in any chunks, are
      handed to the processor one by one exactly when each text ends where a chunk ends. */
  lemma ObjectsKeptApart(vs: seq<GenericValue>, chunks: seq<seq<int>>, room: nat, answer: seq<int> -> Reply)
    requires forall v | v in vs :: Valid(v) && v.ObjectValue? && MembersBraces(v, |v.members|) == NO_BRACES
    requires forall v | v in vs :: |TextOf(v)| <= room && answer(TextOf(v)).Response?
    requires Join(chunks) == Join(Texts(vs))
    ensures Feed([], room, chunks, answer).calls == Texts(vs) <==> EndAtChunks(Texts(vs), chunks)
    ensures EndAtChunks(Texts(vs), chunks) ==>
              Feed([], room, chunks, answer).responses == seq(|vs|, i requires 0 <= i < |vs| => answer(TextOf(vs[i])).text)
  {
    hide IsRequest, MembersBraces, TextOf, Texts, Feed, EndAtChunks;
    forall i | 0 <= i < |vs| ensures IsRequest(Texts(vs)[i]) {
      RequestIff(vs[i]);
    }
    KeptApartIff(Texts(vs), chunks, room, answer);
  }

  /** The member of {"}":1}. */
  function BraceMember(): Member {
    Member(StringValue([CLOSE]), NumberValue(Canonical(1)))
  }

  lemma BraceMemberText()
    ensures MemberText(BraceMember()) == Ascii("\"}\":1")
  {
    hide Quoted, Itoa.Signed, Canonical;
    BraceQuoted();
    OneText();
    assert TextOf(NumberValue(Canonical(1))) == ['1' as int];
  }

  lemma BraceQuoted()
    ensures Quoted([CLOSE]) == ['"' as int, CLOSE, '"' as int]
  {
    assert QuotedBytes([]) == [];
    assert [CLOSE][..0] == [];
    assert QuotedBytes([CLOSE]) == [CLOSE];
  }

  lemma OneText()
    ensures ValidNumber(Canonical(1)) && Itoa.Signed(IntegerOf(Canonical(1))) == ['1' as int]
  {
    IntegerOfCanonical(1);
    assert Itoa.Signed(1) == ['1' as int];
  }

  /** A brace in a name: the whole text {"}":1}, in one chunk, is not handed over but ends the session. */
  lemma BraceInName(room: nat, reply: Reply)
    ensures var v := ObjectValue([BraceMember()]);
            && Valid(v) && TextOf(v) == Ascii("{\"}\":1}")
            && OnChunk([], room, TextOf(v), reply) == Outcome([], Abort, None, [])
  {
    IntegerOfCanonical(1);
    var v := ObjectValue([BraceMember()]);
    BraceMemberText();
    TextOfOne(v);
    hide Depth, MaxDepth, Nested, BracesOf, MembersText, TextOf;
    BracesOne(CLOSE);
    BraceMemberBraces(v);
    TextBraces(v);
    BracesMean(TextOf(v));
    assert [] + TextOf(v) == TextOf(v);
  }

  lemma TextOfOne(v: GenericValue)
    requires Valid(v) && v.ObjectValue? && |v.members| == 1
    ensures TextOf(v) == ['{' as int] + MemberText(v.members[0]) + ['}' as int]
  {
    hide MemberText;
    assert MembersText(v, 0) == [];
    assert [] + Comma(true) + MemberText(v.members[0]) == MemberText(v.members[0]);
  }

  lemma BraceMemberBraces(v: GenericValue)
    requires v == ObjectValue([BraceMember()]) && Valid(v)
    ensures ValueBraces(v).low < 0
  {
    hide BracesOf;
    BracesOne(CLOSE);
    assert MembersBraces(v, 0) == NO_BRACES;
  }
}
