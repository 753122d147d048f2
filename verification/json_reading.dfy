/** Every JSON text of RFC 8259, however it is blanked and spelt, is read as the value it stands for. */
module JsonReading {
  import opened Decimals
  import opened JsonBuilding
  import opened JsonEvents
  import opened JsonGrammar
  import opened JsonNumbers
  import opened JsonSpelling
  import opened JsonStrings
  import opened JsonSyntax
  import opened JsonValues
  import opened Wrappers
  import JsonRoundTrip
  import Utf8

  /** A parse under the flags of a dialect, with the parser's own scanners. */
  ghost predicate Parses(env: Env, d: Dialect) {
    && JsonRoundTrip.Standard(env, d.apostrophe) && IsByteString(env.src)
    && env.comments == d.comments && env.trailingCommas == d.trailingCommas
  }

  /** ---- Blanks ---- */

  /** Nothing to skip starts with c. */
  predicate StopsBlanks(c: int) {
    c != 0x20 && c != 0x09 && c != 0x0A && c != 0x0D && c != '/' as int
  }

  lemma SpaceSkipped(src: seq<int>, comments: bool, pos: nat, c: int)
    requires pos < |src| && src[pos] == c && (c == 0x20 || c == 0x09 || c == 0x0A || c == 0x0D)
    ensures SkipFrom(src, comments, pos) == SkipFrom(src, comments, pos + 1)
  {
  }

  lemma {:induction false} BlockEnds(src: seq<int>, pos: nat, body: seq<int>, i: nat)
    requires i <= |body| && 0 !in body && ClosesOnce(body) && Stands(src, pos, body + ['*' as int, '/' as int])
    ensures pos + |body| + 2 <= |src| && BlockComment(src, pos + i) == Read((), pos + |body| + 2)
    decreases |body| - i
  {
    var t := body + ['*' as int, '/' as int];
    JsonRoundTrip.StandsAt(src, pos, t, i);
    JsonRoundTrip.StandsAt(src, pos, t, i + 1);
    if i < |body| {
      assert t[i] == body[i];
      BlockEnds(src, pos, body, i + 1);
    }
  }

  lemma {:induction false} LineEnds(src: seq<int>, pos: nat, body: seq<int>, i: nat)
    requires i <= |body| && 0 !in body && 0x0A !in body && Stands(src, pos, body)
    ensures LineComment(src, pos + i) == LineComment(src, pos + |body|)
    decreases |body| - i
  {
    if i < |body| {
      JsonRoundTrip.StandsAt(src, pos, body, i);
      assert src[pos + i] in body;
      LineEnds(src, pos, body, i + 1);
    }
  }

  lemma BlockStep(src: seq<int>, pos: nat, end: nat)
    requires pos + 2 <= |src| && src[pos] == '/' as int && src[pos + 1] == '*' as int
    requires BlockComment(src, pos + 2).Read? && BlockComment(src, pos + 2).end == end
    ensures end <= |src| && SkipFrom(src, true, pos) == SkipFrom(src, true, end)
  {
    hide BlockComment;
  }

  lemma LineStep(src: seq<int>, pos: nat)
    requires pos + 2 <= |src| && src[pos] == '/' as int && src[pos + 1] == '/' as int
    ensures SkipFrom(src, true, pos) == SkipFrom(src, true, LineComment(src, pos + 2))
  {
    hide LineComment;
  }

  lemma BlockSkipped(src: seq<int>, pos: nat, body: seq<int>)
    requires 0 !in body && ClosesOnce(body) && Stands(src, pos, BlankText(Block(body)))
    ensures SkipFrom(src, true, pos) == SkipFrom(src, true, pos + |BlankText(Block(body))|)
  {
    hide ClosesOnce, Stands, SkipFrom, BlockComment;
    var open, close := ['/' as int, '*' as int], ['*' as int, '/' as int];
    JsonRoundTrip.StandsPart(src, pos, open, body, close);
    StandsJoin(src, pos + 2, body, close);
    JsonRoundTrip.StandsAt(src, pos, open, 0);
    JsonRoundTrip.StandsAt(src, pos, open, 1);
    BlockEnds(src, pos + 2, body, 0);
    BlockStep(src, pos, pos + 2 + |body| + 2);
  }

  lemma LineSkipped(src: seq<int>, pos: nat, body: seq<int>)
    requires 0 !in body && 0x0A !in body && Stands(src, pos, BlankText(Line(body)))
    ensures SkipFrom(src, true, pos) == SkipFrom(src, true, pos + |BlankText(Line(body))|)
  {
    hide Stands, SkipFrom;
    var open := ['/' as int, '/' as int];
    JsonRoundTrip.StandsPart(src, pos, open, body, [0x0A]);
    JsonRoundTrip.StandsAt(src, pos, open, 0);
    JsonRoundTrip.StandsAt(src, pos, open, 1);
    JsonRoundTrip.StandsAt(src, pos + 2 + |body|, [0x0A], 0);
    LineEnds(src, pos + 2, body, 0);
    LineStep(src, pos);
  }

  /** One blank more or less does not matter. */
  lemma BlankSkipped(src: seq<int>, pos: nat, b: Blank, d: Dialect)
    requires OkBlank(b, d) && Stands(src, pos, BlankText(b))
    ensures pos + |BlankText(b)| <= |src| && SkipFrom(src, d.comments, pos) == SkipFrom(src, d.comments, pos + |BlankText(b)|)
  {
    hide SkipFrom, ClosesOnce;
    match b
    case Space(c) =>
      JsonRoundTrip.StandsAt(src, pos, [c], 0);
      SpaceSkipped(src, d.comments, pos, c);
    case Block(body) => BlockSkipped(src, pos, body);
    case Line(body) => LineSkipped(src, pos, body);
  }

  lemma {:induction false} BlanksSkipped(src: seq<int>, pos: nat, bs: seq<Blank>, d: Dialect)
    requires OkBlanks(bs, d) && Stands(src, pos, BlanksText(bs))
    ensures pos + |BlanksText(bs)| <= |src| && SkipFrom(src, d.comments, pos) == SkipFrom(src, d.comments, pos + |BlanksText(bs)|)
    decreases |bs|
  {
    hide SkipFrom, OkBlank, BlankText;
    if bs != [] {
      JsonRoundTrip.StandsBoth(src, pos, BlankText(bs[0]), BlanksText(bs[1..]));
      BlankSkipped(src, pos, bs[0], d);
      BlanksSkipped(src, pos + |BlankText(bs[0])|, bs[1..], d);
    }
  }

  lemma NothingSkipped(src: seq<int>, comments: bool, pos: nat)
    requires pos <= |src| && StopsBlanks(At(src, pos))
    ensures SkipFrom(src, comments, pos) == Read((), pos)
  {
  }

  /** Any blanks are skipped, up to what stops them. */
  lemma SkipsBlanks(env: Env, c: Cursor, bs: seq<Blank>, d: Dialect)
    requires env.comments == d.comments && OkBlanks(bs, d) && Stands(env.src, c.pos, BlanksText(bs))
    requires StopsBlanks(At(env.src, c.pos + |BlanksText(bs)|))
    ensures c.pos <= |env.src| && Skip(env, c) == Done(Cursor(c.pos + |BlanksText(bs)|, c.events))
  {
    hide SkipFrom;
    BlanksSkipped(env.src, c.pos, bs, d);
    NothingSkipped(env.src, d.comments, c.pos + |BlanksText(bs)|);
  }

  /** What may come right after a value. */
  predicate Separates(c: int) {
    c == 0 || c == 0x20 || c == 0x09 || c == 0x0A || c == 0x0D || c == '/' as int || c == ',' as int || c == ']' as int || c == '}' as int
  }

  lemma BlanksSeparate(src: seq<int>, pos: nat, bs: seq<Blank>, d: Dialect)
    requires OkBlanks(bs, d) && Stands(src, pos, BlanksText(bs)) && Separates(At(src, pos + |BlanksText(bs)|))
    ensures Separates(At(src, pos))
  {
    if bs != [] {
      hide ClosesOnce, Stands, BlanksText;
      assert BlanksText(bs) == BlankText(bs[0]) + BlanksText(bs[1..]) by { BlanksFirst(bs); }
      JsonRoundTrip.StandsAt(src, pos, BlanksText(bs), 0);
    }
  }

  lemma BlanksFirst(bs: seq<Blank>)
    requires bs != []
    ensures BlanksText(bs) == BlankText(bs[0]) + BlanksText(bs[1..])
  {
  }

  /** ---- Events ---- */

  function TokenEvent(minus: bool, digits: Digits): Number {
    var e := IntegerEvent(minus, ValueOf(digits), 0);
    if e.Integral? then e.n else Int(0)
  }

  /** What the handler is told of a tree. */
  function TreeEvents(t: Tree, d: Dialect): seq<Event> {
    match t
    case NullTree => [Null]
    case TrueTree => [Bool(true)]
    case FalseTree => [Bool(false)]
    case NumberTree(minus, digits) => [Num(TokenEvent(minus, digits))]
    case StringTree(ps) => [String(PiecesBytes(ps, d))]
    case EmptyArray(_) => [StartArray] + [] + [EndArray(0)]
    case ArrayTree(es) => [StartArray] + ElementEvents(es, d) + [EndArray(ElementCount(es))]
    case EmptyObject(_) => [StartObject] + [] + [EndObject(0)]
    case ObjectTree(ms) => [StartObject] + MemberEvents(ms, d) + [EndObject(MemberCount(ms))]
  }

  function ElementEvents(es: ElementList, d: Dialect): seq<Event> {
    TreeEvents(es.value, d) + match es.more case NoElements(_) => [] case NextElements(rest) => ElementEvents(rest, d)
  }

  function ElementCount(es: ElementList): nat {
    1 + match es.more case NoElements(_) => 0 case NextElements(rest) => ElementCount(rest)
  }

  function MemberEvents(ms: MemberList, d: Dialect): seq<Event> {
    [Key(PiecesBytes(ms.name, d))] + TreeEvents(ms.value, d)
    + match ms.more case NoMembers(_) => [] case NextMembers(rest) => MemberEvents(rest, d)
  }

  function MemberCount(ms: MemberList): nat {
    1 + match ms.more case NoMembers(_) => 0 case NextMembers(rest) => MemberCount(rest)
  }

  /** They build its value. */
  lemma {:induction false} TreeMakes(t: Tree, d: Dialect)
    requires OkTree(t, d)
    ensures Makes(TreeEvents(t, d), [Meaning(t, d)])
    decreases t
  {
    hide Makes, HandleAll, Canonical, OkNumber, EventData;
    match t
    case NullTree => MakesOne(Null, NullValue);
    case TrueTree => MakesOne(Bool(true), BoolValue(true));
    case FalseTree => MakesOne(Bool(false), BoolValue(false));
    case NumberTree(minus, digits) => NumberMakes(minus, digits);
    case StringTree(ps) => MakesOne(String(PiecesBytes(ps, d)), StringValue(PiecesBytes(ps, d)));
    case EmptyArray(_) =>
      MakesNothing();
      MakesArray([], []);
    case ArrayTree(es) =>
      ElementsMake(es, d);
      MakesArray(ElementEvents(es, d), ElementValues(es, d));
    case EmptyObject(_) =>
      MakesNothing();
      MakesObject([], [], 0);
      assert Paired([]) == [];
    case ObjectTree(ms) =>
      var vs := MembersMake(ms, d);
      MakesObject(MemberEvents(ms, d), vs, MemberCount(ms));
  }

  lemma NumberMakes(minus: bool, digits: Digits)
    requires OkNumber(minus, digits)
    ensures Makes([Num(TokenEvent(minus, digits))], [NumberValue(Canonical(NumberOf(minus, digits)))])
  {
    var n := TokenEvent(minus, digits);
    TokenEventIs(minus, digits);
    ConstructorsAgree(NumberOf(minus, digits));
    hide Makes, HandleAll, Canonical, OfInt, OfUint, OfInt64, OfUint64, TokenEvent;
    MakesOne(Num(n), NumberValue(Canonical(NumberOf(minus, digits))));
  }

  lemma TokenEventIs(minus: bool, digits: Digits)
    requires OkNumber(minus, digits)
    ensures IsInteger(TokenEvent(minus, digits)) && EventInteger(TokenEvent(minus, digits)) == NumberOf(minus, digits)
  {
    hide ValueOf;
  }

  lemma {:induction false} ElementsMake(es: ElementList, d: Dialect)
    requires OkElements(es, d)
    ensures Makes(ElementEvents(es, d), ElementValues(es, d)) && |ElementValues(es, d)| == ElementCount(es)
    decreases es
  {
    hide Makes, TreeEvents, Meaning;
    TreeMakes(es.value, d);
    match es.more
    case NoElements(_) =>
      assert TreeEvents(es.value, d) + [] == TreeEvents(es.value, d);
      assert [Meaning(es.value, d)] + [] == [Meaning(es.value, d)];
    case NextElements(rest) =>
      ElementsMake(rest, d);
      MakesJoin(TreeEvents(es.value, d), [Meaning(es.value, d)], ElementEvents(rest, d), ElementValues(rest, d));
  }

  lemma {:induction false} MembersMake(ms: MemberList, d: Dialect) returns (vs: seq<GenericValue>)
    requires OkMembers(ms, d)
    ensures Makes(MemberEvents(ms, d), vs) && |vs| == 2 * MemberCount(ms) && Paired(vs) == MemberValues(ms, d)
    decreases ms
  {
    hide Makes, TreeEvents, Meaning;
    var name, v := PiecesBytes(ms.name, d), Meaning(ms.value, d);
    TreeMakes(ms.value, d);
    KeyMakes(name);
    MakesJoin([Key(name)], [StringValue(name)], TreeEvents(ms.value, d), [v]);
    var es := [Key(name)] + TreeEvents(ms.value, d);
    match ms.more
    case NoMembers(_) =>
      assert es + [] == es;
      vs := [StringValue(name)] + [v];
    case NextMembers(rest) =>
      var more := MembersMake(rest, d);
      vs := [StringValue(name)] + [v] + more;
      MakesJoin(es, [StringValue(name)] + [v], MemberEvents(rest, d), more);
      PairedFirst(StringValue(name), v, more);
  }

  lemma KeyMakes(name: seq<int>)
    ensures Makes([Key(name)], [StringValue(name)])
  {
    hide Makes, HandleAll;
    MakesOne(Key(name), StringValue(name));
  }

  lemma PairedFirst(a: GenericValue, b: GenericValue, more: seq<GenericValue>)
    requires |more| % 2 == 0
    ensures Paired([a] + [b] + more) == [Member(a, b)] + Paired(more)
  {
  }

  /** And its value is one. */
  lemma {:induction false} MeaningValid(t: Tree, d: Dialect)
    requires OkTree(t, d)
    ensures Valid(Meaning(t, d))
    decreases t
  {
    hide OkNumber, OkPieces, Canonical, PiecesBytes;
    match t
    case NumberTree(minus, digits) =>
      NumberInRange(minus, digits);
      IntegerOfCanonical(NumberOf(minus, digits));
    case StringTree(ps) => PiecesAreBytes(ps, d);
    case ArrayTree(es) => ElementsValid(es, d);
    case ObjectTree(ms) => MembersValid(ms, d);
    case _ =>
  }

  lemma NumberInRange(minus: bool, digits: Digits)
    requires OkNumber(minus, digits)
    ensures -TWO63 <= NumberOf(minus, digits) < TWO64
  {
    hide ValueOf;
  }

  lemma {:induction false} PiecesAreBytes(ps: seq<Piece>, d: Dialect)
    requires OkPieces(ps, d)
    ensures IsByteString(PiecesBytes(ps, d))
    decreases |ps|
  {
    hide OkPiece, PieceBytes;
    if ps != [] {
      PieceIsBytes(ps[0], d);
      PiecesAreBytes(ps[1..], d);
    }
  }

  lemma PieceIsBytes(p: Piece, d: Dialect)
    requires OkPiece(p, d)
    ensures IsByteString(PieceBytes(p, d))
  {
    hide Utf8.Encodes, CodeUnit, FourDigits;
    match p
    case Code(hex, bytes) => Utf8.EncodeIs(bytes, CodeUnit(hex));
    case Pair(high, low, bytes) => Utf8.EncodeIs(bytes, 0x10000 + (CodeUnit(high) - 0xD800) * 0x400 + (CodeUnit(low) - 0xDC00));
    case _ =>
  }

  lemma {:induction false} ElementsValid(es: ElementList, d: Dialect)
    requires OkElements(es, d)
    ensures forall i | 0 <= i < |ElementValues(es, d)| :: Valid(ElementValues(es, d)[i])
    decreases es
  {
    hide Meaning, Valid;
    MeaningValid(es.value, d);
    if es.more.NextElements? {
      ElementsValid(es.more.rest, d);
    }
  }

  predicate ValidMember(m: Member) {
    m.name.StringValue? && Valid(m.name) && Valid(m.value)
  }

  lemma {:induction false} MembersValid(ms: MemberList, d: Dialect)
    requires OkMembers(ms, d)
    ensures forall i | 0 <= i < |MemberValues(ms, d)| :: ValidMember(MemberValues(ms, d)[i])
    decreases ms
  {
    hide Meaning, PiecesBytes, OkPieces;
    MeaningValid(ms.value, d);
    PiecesAreBytes(ms.name, d);
    if ms.more.NextMembers? {
      MembersValid(ms.more.rest, d);
    }
  }

  /** ---- Scalars ---- */

  lemma WordMatches(src: seq<int>, pos: nat, t: seq<int>, word: string)
    requires |t| == |word| + 1 && Stands(src, pos, t) && forall i | 0 <= i < |word| :: t[i + 1] == word[i] as int
    ensures Matched(src, pos + 1, word) == |word|
  {
    forall i | 0 <= i < |t| ensures pos + i < |src| && src[pos + i] == t[i] {
      JsonRoundTrip.StandsAt(src, pos, t, i);
    }
    WordMatchesFrom(src, pos + 1, word);
  }

  lemma {:induction false} WordMatchesFrom(src: seq<int>, pos: nat, word: string)
    requires pos + |word| <= |src| && forall i | 0 <= i < |word| :: src[pos + i] == word[i] as int
    ensures Matched(src, pos, word) == |word|
    decreases |word|
  {
    if word != "" {
      forall i | 0 <= i < |word[1..]| ensures src[pos + 1 + i] == word[1..][i] as int {
        assert src[pos + (i + 1)] == word[i + 1] as int;
      }
      WordMatchesFrom(src, pos + 1, word[1..]);
    }
  }

  lemma ReadWord(env: Env, c: Cursor, t: Tree, d: Dialect)
    requires Parses(env, d) && (t.NullTree? || t.TrueTree? || t.FalseTree?) && Stands(env.src, c.pos, TreeText(t))
    ensures Value(env, c) == Done(Cursor(c.pos + |TreeText(t)|, c.events + TreeEvents(t, d)))
  {
    hide Matched, Stands, Value, Parses;
    ParsesForward(env, d);
    JsonRoundTrip.StandsAt(env.src, c.pos, TreeText(t), 0);
    match t
    case NullTree =>
      WordMatches(env.src, c.pos, NULL_TEXT, "ull");
      WordRead(env, c, 'n' as int, "ull", Null);
    case TrueTree =>
      WordMatches(env.src, c.pos, TRUE_TEXT, "rue");
      WordRead(env, c, 't' as int, "rue", Bool(true));
    case FalseTree =>
      WordMatches(env.src, c.pos, FALSE_TEXT, "alse");
      WordRead(env, c, 'f' as int, "alse", Bool(false));
  }

  lemma WordRead(env: Env, c: Cursor, first: int, rest: string, e: Event)
    requires Forward(env) && (forall es :: env.accepts(es)) && c.pos < |env.src| && env.src[c.pos] == first
    requires (first == 'n' as int && rest == "ull" && e == Null) || (first == 't' as int && rest == "rue" && e == Bool(true))
             || (first == 'f' as int && rest == "alse" && e == Bool(false))
    requires Matched(env.src, c.pos + 1, rest) == |rest|
    ensures Value(env, c) == Done(Cursor(c.pos + 1 + |rest|, c.events + [e]))
  {
    hide Matched, Value, Forward;
    WordKind(env, c);
    assert Literal(env, c, rest, e) == Done(Cursor(c.pos + 1 + |rest|, c.events + [e]));
  }

  lemma WordKind(env: Env, c: Cursor)
    requires Forward(env) && c.pos < |env.src|
    ensures env.src[c.pos] == 'n' as int ==> Value(env, c) == Literal(env, c, "ull", Null)
    ensures env.src[c.pos] == 't' as int ==> Value(env, c) == Literal(env, c, "rue", Bool(true))
    ensures env.src[c.pos] == 'f' as int ==> Value(env, c) == Literal(env, c, "alse", Bool(false))
  {
    hide Literal, Object, Array, JsonGrammar.Text, Numeral, Forward;
  }

  lemma ReadString(env: Env, c: Cursor, ps: seq<Piece>, d: Dialect)
    requires Parses(env, d) && OkPieces(ps, d) && Stands(env.src, c.pos, StringText(ps))
    ensures c.pos < |env.src| && env.src[c.pos] == '"' as int
    ensures env.scanString(c.pos) == Read(PiecesBytes(ps, d), c.pos + |StringText(ps)|)
  {
    hide Stands, OkPieces, PiecesText, PiecesBytes, Decoded;
    var quote := ['"' as int];
    JsonRoundTrip.StandsPart(env.src, c.pos, quote, PiecesText(ps), quote);
    JsonRoundTrip.StandsAt(env.src, c.pos, quote, 0);
    JsonRoundTrip.StandsAt(env.src, c.pos + 1 + |PiecesText(ps)|, quote, 0);
    ReadPieces(env.src, c.pos + 1, ps, d);
  }

  lemma ReadNumber(env: Env, c: Cursor, minus: bool, digits: Digits, d: Dialect)
    requires Parses(env, d) && OkNumber(minus, digits) && Stands(env.src, c.pos, NumberText(minus, digits))
    requires Separates(At(env.src, c.pos + |NumberText(minus, digits)|))
    ensures Value(env, c) == Done(Cursor(c.pos + |NumberText(minus, digits)|, c.events + [Num(TokenEvent(minus, digits))]))
  {
    hide IntegerAt, ValueOf, Stands, Separates, EndsNumber, Value, NumberText, TokenEvent;
    NumberFirst(env.src, c.pos, minus, digits);
    SeparatesEnds(At(env.src, c.pos + |NumberText(minus, digits)|));
    ReadInteger(env.src, c.pos, minus, digits);
    EventAt(minus, digits, c.pos + |NumberText(minus, digits)|);
    ScannedNumber(env, c, TokenEvent(minus, digits), c.pos + |NumberText(minus, digits)|, d);
  }

  lemma SeparatesEnds(c: int)
    requires Separates(c)
    ensures EndsNumber(c)
  {
  }

  lemma EventAt(minus: bool, digits: Digits, end: nat)
    requires OkNumber(minus, digits)
    ensures IntegerEvent(minus, ValueOf(digits), end) == Integral(TokenEvent(minus, digits), end)
  {
    hide ValueOf;
  }

  lemma ScannedNumber(env: Env, c: Cursor, n: Number, end: nat, d: Dialect)
    requires Parses(env, d) && c.pos < |env.src| && (env.src[c.pos] == '-' as int || IsDigit(env.src[c.pos]))
    requires IntegerAt(env.src, c.pos) == Integral(n, end)
    ensures Value(env, c) == Done(Cursor(end, c.events + [Num(n)]))
  {
    hide IntegerAt;
  }

  lemma NumberFirst(src: seq<int>, pos: nat, minus: bool, digits: Digits)
    requires digits != [] && Stands(src, pos, NumberText(minus, digits))
    ensures pos < |src| && (minus ==> src[pos] == '-' as int) && (!minus ==> IsDigit(src[pos]) && src[pos] == digits[0])
    ensures Stands(src, if minus then pos + 1 else pos, digits)
  {
    JsonRoundTrip.StandsAt(src, pos, NumberText(minus, digits), 0);
    hide Stands;
    JsonRoundTrip.StandsBoth(src, pos, if minus then ['-' as int] else [], digits);
  }

  /** What does not go on a number. */
  predicate EndsNumber(c: int) {
    !(0x30 <= c <= 0x39) && c != '.' as int && c != 'e' as int && c != 'E' as int
  }

  lemma ReadInteger(src: seq<int>, pos: nat, minus: bool, digits: Digits)
    requires OkNumber(minus, digits) && Stands(src, pos, NumberText(minus, digits))
    requires EndsNumber(At(src, pos + |NumberText(minus, digits)|))
    ensures pos <= |src| && IntegerAt(src, pos) == IntegerEvent(minus, ValueOf(digits), pos + |NumberText(minus, digits)|)
  {
    hide ValueOf, DigitsEnd;
    NumberFirst(src, pos, minus, digits);
    var p, end := if minus then pos + 1 else pos, pos + |NumberText(minus, digits)|;
    assert src[p..end] == digits;
    assert src[p] == digits[0];
    RunOf(src, p, end);
    if digits[0] == '0' as int {
      assert digits == ['0' as int];
      ZeroValue();
    }
  }

  lemma ZeroValue()
    ensures AllDigits(['0' as int]) && ValueOf(['0' as int]) == 0
  {
    assert ['0' as int][..0] == [];
  }

  /** ---- Arrays and objects ---- */

  /** How values begin: with nothing that is skipped, and not with the end of a container. */
  predicate StartsTree(c: int) {
    StopsBlanks(c) && c != ']' as int && c != '}' as int && c != 0
  }

  lemma FirstOfTree(t: Tree, d: Dialect)
    requires OkTree(t, d)
    ensures TreeText(t) != [] && StartsTree(TreeText(t)[0])
  {
    hide ElementsText, MembersText, BlanksText, PiecesText, ValueOf;
    if t.NumberTree? {
      assert IsDigit(t.digits[0]);
    }
  }

  /** ONE VALUE IS READ, wherever its text stands. */
  lemma {:induction false} ReadTree(env: Env, c: Cursor, t: Tree, d: Dialect)
    requires Parses(env, d) && OkTree(t, d) && Stands(env.src, c.pos, TreeText(t)) && Separates(At(env.src, c.pos + |TreeText(t)|))
    ensures Value(env, c) == Done(Cursor(c.pos + |TreeText(t)|, c.events + TreeEvents(t, d)))
    decreases t, 5
  {
    hide Value, Parses, Stands, Separates, OkNumber, OkPieces, OkElements, OkMembers, NumberText, StringText, BlanksText, ElementsText, MembersText, ElementEvents, MemberEvents, TokenEvent;
    match t
    case NumberTree(minus, digits) => ReadNumber(env, c, minus, digits, d);
    case StringTree(ps) => ReadStringValue(env, c, ps, d);
    case EmptyArray(bs) => ReadEmpty(env, c, bs, d);
    case ArrayTree(es) => ReadArray(env, c, es, d);
    case EmptyObject(bs) => ReadEmpty(env, c, bs, d);
    case ObjectTree(ms) => ReadObject(env, c, ms, d);
    case _ => ReadWord(env, c, t, d);
  }

  lemma ReadStringValue(env: Env, c: Cursor, ps: seq<Piece>, d: Dialect)
    requires Parses(env, d) && OkPieces(ps, d) && Stands(env.src, c.pos, StringText(ps))
    ensures Value(env, c) == Done(Cursor(c.pos + |StringText(ps)|, c.events + [String(PiecesBytes(ps, d))]))
  {
    hide *;
    ReadString(env, c, ps, d);
    ParsesForward(env, d);
    ScannedString(env, c, PiecesBytes(ps, d), c.pos + |StringText(ps)|);
  }

  lemma ScannedString(env: Env, c: Cursor, s: seq<int>, end: nat)
    requires Forward(env) && (forall es :: env.accepts(es)) && c.pos < |env.src| && env.src[c.pos] == '"' as int
    requires env.scanString(c.pos) == Read(s, end)
    ensures Value(env, c) == Done(Cursor(end, c.events + [String(s)]))
  {
    hide Object, Array, Literal, Numeral, Forward;
  }

  /** An opening bracket, and the blanks after it. */
  lemma Opens(env: Env, c: Cursor, bs: seq<Blank>, d: Dialect)
    requires Parses(env, d) && OkBlanks(bs, d) && c.pos < |env.src| && Stands(env.src, c.pos + 1, BlanksText(bs))
    requires StopsBlanks(At(env.src, c.pos + 1 + |BlanksText(bs)|))
    ensures Forward(env) && c.pos + 1 + |BlanksText(bs)| <= |env.src|
    ensures env.src[c.pos] == '[' as int ==> Value(env, c) == ArrayBody(env, Cursor(c.pos + 1 + |BlanksText(bs)|, c.events + [StartArray]))
    ensures env.src[c.pos] == '{' as int ==> Value(env, c) == ObjectBody(env, Cursor(c.pos + 1 + |BlanksText(bs)|, c.events + [StartObject]))
  {
    hide *;
    var q := c.pos + 1 + |BlanksText(bs)|;
    ParsesDialect(env, d);
    ParsesForward(env, d);
    SkipsBlanks(env, Cursor(c.pos + 1, c.events + [StartArray]), bs, d);
    SkipsBlanks(env, Cursor(c.pos + 1, c.events + [StartObject]), bs, d);
    OpensArray(env, c, Cursor(q, c.events + [StartArray]));
    OpensObject(env, c, Cursor(q, c.events + [StartObject]));
  }

  /** Brackets choose what a value is. */
  lemma ValueKind(env: Env, c: Cursor)
    requires Forward(env) && c.pos < |env.src|
    ensures env.src[c.pos] == '[' as int ==> Value(env, c) == Array(env, c)
    ensures env.src[c.pos] == '{' as int ==> Value(env, c) == Object(env, c)
  {
    hide Array, Object, Scalar, Forward;
  }

  lemma OpensArray(env: Env, c: Cursor, c2: Cursor)
    requires Forward(env) && (forall es :: env.accepts(es)) && c.pos < |env.src| && c2.pos <= |env.src|
    requires Skip(env, Cursor(c.pos + 1, c.events + [StartArray])) == Done(c2)
    ensures env.src[c.pos] == '[' as int ==> Value(env, c) == ArrayBody(env, c2)
  {
    hide Skip, ArrayBody, Value, Forward;
    ValueKind(env, c);
    assert Emit(env, Take(env, c), StartArray, c.pos + 1) == Done(Cursor(c.pos + 1, c.events + [StartArray]));
  }

  lemma OpensObject(env: Env, c: Cursor, c2: Cursor)
    requires Forward(env) && (forall es :: env.accepts(es)) && c.pos < |env.src| && c2.pos <= |env.src|
    requires Skip(env, Cursor(c.pos + 1, c.events + [StartObject])) == Done(c2)
    ensures env.src[c.pos] == '{' as int ==> Value(env, c) == ObjectBody(env, c2)
  {
    hide Skip, ObjectBody, Value, Forward;
    ValueKind(env, c);
    assert Emit(env, Take(env, c), StartObject, c.pos + 1) == Done(Cursor(c.pos + 1, c.events + [StartObject]));
  }

  lemma ReadEmpty(env: Env, c: Cursor, bs: seq<Blank>, d: Dialect)
    requires Parses(env, d) && OkBlanks(bs, d)
    ensures Stands(env.src, c.pos, ['[' as int] + BlanksText(bs) + [']' as int]) ==>
              Value(env, c) == Done(Cursor(c.pos + 2 + |BlanksText(bs)|, c.events + ([StartArray] + [] + [EndArray(0)])))
    ensures Stands(env.src, c.pos, ['{' as int] + BlanksText(bs) + ['}' as int]) ==>
              Value(env, c) == Done(Cursor(c.pos + 2 + |BlanksText(bs)|, c.events + ([StartObject] + [] + [EndObject(0)])))
  {
    hide Stands, BlanksText, OkBlanks, Value, ArrayBody, ObjectBody;
    if Stands(env.src, c.pos, ['[' as int] + BlanksText(bs) + [']' as int]) {
      Enclosed(env.src, c.pos, '[' as int, BlanksText(bs), ']' as int);
      Opens(env, c, bs, d);
      var c1 := Cursor(c.pos + 1 + |BlanksText(bs)|, c.events + [StartArray]);
      JsonRoundTrip.BodyOf(env, c1);
      assert c1.events + [EndArray(0)] == c.events + ([StartArray] + [] + [EndArray(0)]);
    }
    if Stands(env.src, c.pos, ['{' as int] + BlanksText(bs) + ['}' as int]) {
      Enclosed(env.src, c.pos, '{' as int, BlanksText(bs), '}' as int);
      Opens(env, c, bs, d);
      var c1 := Cursor(c.pos + 1 + |BlanksText(bs)|, c.events + [StartObject]);
      JsonRoundTrip.BodyOf(env, c1);
      assert c1.events + [EndObject(0)] == c.events + ([StartObject] + [] + [EndObject(0)]);
    }
  }

  lemma Enclosed(src: seq<int>, pos: nat, open: int, t: seq<int>, close: int)
    requires Stands(src, pos, [open] + t + [close])
    ensures pos + 1 + |t| < |src| && src[pos] == open && Stands(src, pos + 1, t) && src[pos + 1 + |t|] == close
  {
    hide Stands;
    JsonRoundTrip.StandsPart(src, pos, [open], t, [close]);
    JsonRoundTrip.StandsAt(src, pos, [open], 0);
    JsonRoundTrip.StandsAt(src, pos + 1 + |t|, [close], 0);
  }

  lemma {:induction false} ReadArray(env: Env, c: Cursor, es: ElementList, d: Dialect)
    requires Parses(env, d) && OkElements(es, d) && Stands(env.src, c.pos, TreeText(ArrayTree(es)))
    ensures Value(env, c) == Done(Cursor(c.pos + |TreeText(ArrayTree(es))|, c.events + TreeEvents(ArrayTree(es), d)))
    decreases es, 4
  {
    hide Stands, BlanksText, OkBlanks, Value, ArrayBody, ObjectBody, Elements, ElementText, ElementEvents, Parses;
    var text := ElementsText(es);
    Enclosed(env.src, c.pos, '[' as int, text, ']' as int);
    ElementsParts(env.src, c.pos + 1, es, d);
    Opens(env, c, es.before, d);
    var c1 := Cursor(c.pos + 1 + |BlanksText(es.before)|, c.events + [StartArray]);
    ParsesForward(env, d);
    JsonRoundTrip.BodyOf(env, c1);
    ReadElements(env, c1, es, 0, d);
    assert c1.events + ElementEvents(es, d) + [EndArray(ElementCount(es))] == c.events + TreeEvents(ArrayTree(es), d);
  }

  lemma ParsesForward(env: Env, d: Dialect)
    requires Parses(env, d)
    ensures Forward(env) && forall es :: env.accepts(es)
  {
  }

  /** Blanks, and then the first element. */
  lemma ElementsParts(src: seq<int>, pos: nat, es: ElementList, d: Dialect)
    requires OkElements(es, d) && Stands(src, pos, ElementsText(es))
    ensures OkBlanks(es.before, d) && Stands(src, pos, BlanksText(es.before))
    ensures Stands(src, pos + |BlanksText(es.before)|, ElementText(es))
    ensures pos + |BlanksText(es.before)| < |src| && StartsTree(src[pos + |BlanksText(es.before)|])
  {
    hide Stands, BlanksText, OkBlanks, ElementText, StartsTree, OkTree, OkComma;
    JsonRoundTrip.StandsBoth(src, pos, BlanksText(es.before), ElementText(es));
    ElementParts(src, pos + |BlanksText(es.before)|, es, d);
    FirstOfTree(es.value, d);
    JsonRoundTrip.StandsAt(src, pos + |BlanksText(es.before)|, TreeText(es.value), 0);
  }

  lemma ElementParts(src: seq<int>, pos: nat, es: ElementList, d: Dialect)
    requires OkElements(es, d) && Stands(src, pos, ElementText(es))
    ensures var p := pos + |TreeText(es.value)|; var q := p + |BlanksText(es.after)|;
            && OkTree(es.value, d) && OkBlanks(es.after, d)
            && Stands(src, pos, TreeText(es.value)) && Stands(src, p, BlanksText(es.after)) && Stands(src, q, MoreElementsText(es.more))
  {
    hide Stands, BlanksText, OkBlanks, TreeText, MoreElementsText;
    JsonRoundTrip.StandsPart(src, pos, TreeText(es.value), BlanksText(es.after), MoreElementsText(es.more));
  }

  /** From an element on, with n before it. */
  lemma {:induction false} ReadElements(env: Env, c: Cursor, es: ElementList, n: nat, d: Dialect)
    requires Parses(env, d) && OkElements(es, d) && Stands(env.src, c.pos, ElementText(es))
    requires At(env.src, c.pos + |ElementText(es)|) == ']' as int
    ensures c.pos <= |env.src| && Forward(env)
    ensures Elements(env, c, n)
         == Done(Cursor(c.pos + |ElementText(es)| + 1, c.events + ElementEvents(es, d) + [EndArray(n + ElementCount(es))]))
    decreases es, 3
  {
    hide Stands, BlanksText, OkBlanks, TreeText, MoreElementsText, Elements, AfterElement, Value, Skip, TreeEvents, ElementEvents, ElementText, ElementCount, Parses, OkElements;
    var c1 := Cursor(c.pos + |TreeText(es.value)|, c.events + TreeEvents(es.value, d));
    var c2 := Cursor(c1.pos + |BlanksText(es.after)|, c1.events);
    ElementParts(env.src, c.pos, es, d);
    ElementLength(es);
    MoreSeparates(env.src, c2.pos, es.more, d);
    BlanksSeparate(env.src, c1.pos, es.after, d);
    ReadTree(env, c, es.value, d);
    ParsesDialect(env, d);
    SkipsBlanks(env, c1, es.after, d);
    ElementsStep(env, c, c1, c2, n);
    ReadMoreElements(env, c2, es, n + 1, d);
    EventsStep(c, es, n, d);
  }

  lemma ElementLength(es: ElementList)
    ensures |ElementText(es)| == |TreeText(es.value)| + |BlanksText(es.after)| + |MoreElementsText(es.more)|
  {
    hide TreeText, BlanksText, MoreElementsText;
  }

  lemma ParsesDialect(env: Env, d: Dialect)
    requires Parses(env, d)
    ensures Forward(env) && env.comments == d.comments && env.trailingCommas == d.trailingCommas
  {
  }

  function MoreEvents(more: MoreElements, d: Dialect): seq<Event> {
    match more case NoElements(_) => [] case NextElements(rest) => ElementEvents(rest, d)
  }

  function MoreCount(more: MoreElements): nat {
    match more case NoElements(_) => 0 case NextElements(rest) => ElementCount(rest)
  }

  lemma EventsStep(c: Cursor, es: ElementList, n: nat, d: Dialect)
    ensures n + 1 + MoreCount(es.more) == n + ElementCount(es)
    ensures c.events + TreeEvents(es.value, d) + MoreEvents(es.more, d) == c.events + ElementEvents(es, d)
  {
    hide TreeEvents;
    assert c.events + TreeEvents(es.value, d) + MoreEvents(es.more, d) == c.events + (TreeEvents(es.value, d) + MoreEvents(es.more, d));
  }

  lemma MoreSeparates(src: seq<int>, pos: nat, more: MoreElements, d: Dialect)
    requires Stands(src, pos, MoreElementsText(more)) && At(src, pos + |MoreElementsText(more)|) == ']' as int
    ensures Separates(At(src, pos)) && StopsBlanks(At(src, pos))
    ensures At(src, pos) == if more.NoElements? && more.comma.None? then ']' as int else ',' as int
  {
    if !(more.NoElements? && more.comma.None?) {
      JsonRoundTrip.StandsAt(src, pos, MoreElementsText(more), 0);
    }
  }

  lemma ElementsStep(env: Env, c: Cursor, c1: Cursor, c2: Cursor, n: nat)
    requires Forward(env) && c.pos <= |env.src| && Value(env, c) == Done(c1) && c1.pos <= |env.src| && Skip(env, c1) == Done(c2)
    ensures c2.pos <= |env.src| && Elements(env, c, n) == AfterElement(env, c2, n + 1)
  {
    hide Value, Skip, AfterElement;
  }

  /** After an element: the end, a comma and the end, or a comma and more. */
  lemma {:induction false} ReadMoreElements(env: Env, c: Cursor, es: ElementList, n: nat, d: Dialect)
    requires Parses(env, d) && c.pos <= |env.src| && OkElements(es, d)
    requires Stands(env.src, c.pos, MoreElementsText(es.more)) && At(env.src, c.pos + |MoreElementsText(es.more)|) == ']' as int
    ensures Forward(env)
    ensures AfterElement(env, c, n)
         == Done(Cursor(c.pos + |MoreElementsText(es.more)| + 1, c.events + MoreEvents(es.more, d) + [EndArray(n + MoreCount(es.more))]))
    decreases es, 2
  {
    hide Stands, BlanksText, OkBlanks, TreeText, Elements, Value, Skip, TreeEvents, ElementEvents, ElementCount, ElementsText, Parses;
    ParsesForward(env, d);
    ParsesDialect(env, d);
    MoreSeparates(env.src, c.pos, es.more, d);
    match es.more
    case NoElements(comma) =>
      ReadLastElement(env, c, comma, n, d);
      assert c.events + [] == c.events;
    case NextElements(rest) =>
      JsonRoundTrip.StandsBoth(env.src, c.pos, [',' as int], ElementsText(rest));
      ElementsParts(env.src, c.pos + 1, rest, d);
      var c1 := Cursor(c.pos + 1, c.events);
      SkipsBlanks(env, c1, rest.before, d);
      var c2 := Cursor(c1.pos + |BlanksText(rest.before)|, c.events);
      ElementsLength(rest);
      ArrayGoesOn(env, c, c2, n);
      ReadElements(env, c2, rest, n, d);
  }

  lemma ReadLastElement(env: Env, c: Cursor, comma: Maybe<seq<Blank>>, n: nat, d: Dialect)
    requires Parses(env, d) && c.pos < |env.src| && OkComma(comma, d)
    requires Stands(env.src, c.pos, CommaText(comma)) && At(env.src, c.pos + |CommaText(comma)|) == ']' as int
    ensures Forward(env)
    ensures AfterElement(env, c, n) == Done(Cursor(c.pos + |CommaText(comma)| + 1, c.events + [EndArray(n)]))
  {
    hide Stands, BlanksText, OkBlanks, Skip, AfterElement, Parses;
    ParsesForward(env, d);
    ParsesDialect(env, d);
    if comma.None? {
      ArrayEnds(env, c, n);
    } else {
      JsonRoundTrip.StandsBoth(env.src, c.pos, [',' as int], BlanksText(comma.value));
      JsonRoundTrip.StandsAt(env.src, c.pos, [',' as int], 0);
      var c1 := Cursor(c.pos + 1, c.events);
      SkipsBlanks(env, c1, comma.value, d);
      ArrayCommaEnds(env, c, Cursor(c1.pos + |BlanksText(comma.value)|, c.events), n);
    }
  }

  lemma ElementsLength(es: ElementList)
    ensures |ElementsText(es)| == |BlanksText(es.before)| + |ElementText(es)|
  {
    hide BlanksText, ElementText;
  }

  lemma ArrayEnds(env: Env, c: Cursor, n: nat)
    requires Forward(env) && (forall es :: env.accepts(es)) && c.pos < |env.src| && Peek(env, c) == ']' as int
    ensures AfterElement(env, c, n) == Done(Cursor(c.pos + 1, c.events + [EndArray(n)]))
  {
    hide ElementsOrEnd, Skip;
  }

  lemma ArrayCommaEnds(env: Env, c: Cursor, c2: Cursor, n: nat)
    requires Forward(env) && (forall es :: env.accepts(es)) && c.pos < |env.src| && Peek(env, c) == ',' as int && env.trailingCommas
    requires Skip(env, Cursor(c.pos + 1, c.events)) == Done(c2) && c2.pos < |env.src| && Peek(env, c2) == ']' as int
    ensures AfterElement(env, c, n) == Done(Cursor(c2.pos + 1, c2.events + [EndArray(n)]))
  {
    hide Elements, Skip;
    assert AfterElement(env, c, n) == ElementsOrEnd(env, c2, n);
  }

  lemma ArrayGoesOn(env: Env, c: Cursor, c2: Cursor, n: nat)
    requires Forward(env) && c.pos < |env.src| && Peek(env, c) == ',' as int
    requires Skip(env, Cursor(c.pos + 1, c.events)) == Done(c2) && c2.pos < |env.src| && Peek(env, c2) != ']' as int
    ensures AfterElement(env, c, n) == Elements(env, c2, n)
  {
    hide Elements, Skip;
    assert AfterElement(env, c, n) == ElementsOrEnd(env, c2, n);
  }

  /** ---- Objects ---- */

  lemma {:induction false} ReadObject(env: Env, c: Cursor, ms: MemberList, d: Dialect)
    requires Parses(env, d) && OkMembers(ms, d) && Stands(env.src, c.pos, TreeText(ObjectTree(ms)))
    ensures Value(env, c) == Done(Cursor(c.pos + |TreeText(ObjectTree(ms))|, c.events + TreeEvents(ObjectTree(ms), d)))
    decreases ms, 4
  {
    hide Stands, BlanksText, OkBlanks, Value, ArrayBody, ObjectBody, Members, MemberText, MemberEvents, Parses, OkPieces;
    var text := MembersText(ms);
    Enclosed(env.src, c.pos, '{' as int, text, '}' as int);
    MembersParts(env.src, c.pos + 1, ms, d);
    Opens(env, c, ms.before, d);
    var c1 := Cursor(c.pos + 1 + |BlanksText(ms.before)|, c.events + [StartObject]);
    ParsesForward(env, d);
    JsonRoundTrip.BodyOf(env, c1);
    ReadMembers(env, c1, ms, 0, d);
    assert c1.events + MemberEvents(ms, d) + [EndObject(MemberCount(ms))] == c.events + TreeEvents(ObjectTree(ms), d);
  }

  /** Blanks, and then the first name. */
  lemma MembersParts(src: seq<int>, pos: nat, ms: MemberList, d: Dialect)
    requires OkMembers(ms, d) && Stands(src, pos, MembersText(ms))
    ensures OkBlanks(ms.before, d) && Stands(src, pos, BlanksText(ms.before))
    ensures Stands(src, pos + |BlanksText(ms.before)|, MemberText(ms))
    ensures pos + |BlanksText(ms.before)| < |src| && src[pos + |BlanksText(ms.before)|] == '"' as int
  {
    hide Stands, BlanksText, OkBlanks, MemberValueText, OkTree, OkComma, PiecesText, OkPieces;
    JsonRoundTrip.StandsBoth(src, pos, BlanksText(ms.before), MemberText(ms));
    JsonRoundTrip.StandsAt(src, pos + |BlanksText(ms.before)|, MemberText(ms), 0);
  }

  /** A name, the colon, and the value on. */
  lemma NameParts(src: seq<int>, pos: nat, ms: MemberList, d: Dialect)
    requires OkMembers(ms, d) && Stands(src, pos, MemberText(ms))
    ensures var p := pos + |StringText(ms.name)|; var q := p + |BlanksText(ms.afterName)|;
            && OkPieces(ms.name, d) && OkBlanks(ms.afterName, d) && OkBlanks(ms.beforeValue, d) && OkTree(ms.value, d)
            && Stands(src, pos, StringText(ms.name)) && Stands(src, p, BlanksText(ms.afterName))
            && q < |src| && src[q] == ':' as int && Stands(src, q + 1, BlanksText(ms.beforeValue))
            && Stands(src, q + 1 + |BlanksText(ms.beforeValue)|, MemberValueText(ms))
  {
    hide Stands, BlanksText, OkBlanks, MemberValueText, OkTree, OkComma, StringText, OkPieces;
    var tail := [':' as int] + BlanksText(ms.beforeValue) + MemberValueText(ms);
    var q := pos + |StringText(ms.name)| + |BlanksText(ms.afterName)|;
    JsonRoundTrip.StandsPart(src, pos, StringText(ms.name), BlanksText(ms.afterName), tail);
    JsonRoundTrip.StandsPart(src, q, [':' as int], BlanksText(ms.beforeValue), MemberValueText(ms));
    JsonRoundTrip.StandsAt(src, q, [':' as int], 0);
  }

  lemma ValueParts(src: seq<int>, pos: nat, ms: MemberList, d: Dialect)
    requires OkMembers(ms, d) && Stands(src, pos, MemberValueText(ms))
    ensures var p := pos + |TreeText(ms.value)|; var q := p + |BlanksText(ms.after)|;
            && OkTree(ms.value, d) && OkBlanks(ms.after, d)
            && Stands(src, pos, TreeText(ms.value)) && Stands(src, p, BlanksText(ms.after)) && Stands(src, q, MoreMembersText(ms.more))
    ensures pos < |src| && StartsTree(src[pos])
  {
    hide Stands, BlanksText, OkBlanks, TreeText, MoreMembersText, StartsTree, OkTree;
    JsonRoundTrip.StandsPart(src, pos, TreeText(ms.value), BlanksText(ms.after), MoreMembersText(ms.more));
    FirstOfTree(ms.value, d);
    JsonRoundTrip.StandsAt(src, pos, TreeText(ms.value), 0);
  }

  lemma MemberLength(ms: MemberList)
    ensures |MemberText(ms)| == |StringText(ms.name)| + |BlanksText(ms.afterName)| + 1 + |BlanksText(ms.beforeValue)| + |MemberValueText(ms)|
    ensures |MemberValueText(ms)| == |TreeText(ms.value)| + |BlanksText(ms.after)| + |MoreMembersText(ms.more)|
    ensures |MembersText(ms)| == |BlanksText(ms.before)| + |MemberText(ms)|
  {
    hide StringText, BlanksText, TreeText, MoreMembersText;
  }

  function NameEvents(ms: MemberList, d: Dialect): seq<Event> {
    [Key(PiecesBytes(ms.name, d))]
  }

  /** From a name on, with n members before it. */
  lemma {:induction false} ReadMembers(env: Env, c: Cursor, ms: MemberList, n: nat, d: Dialect)
    requires Parses(env, d) && OkMembers(ms, d) && Stands(env.src, c.pos, MemberText(ms))
    requires At(env.src, c.pos + |MemberText(ms)|) == '}' as int
    ensures c.pos <= |env.src| && Forward(env)
    ensures Members(env, c, n)
         == Done(Cursor(c.pos + |MemberText(ms)| + 1, c.events + MemberEvents(ms, d) + [EndObject(n + MemberCount(ms))]))
    decreases ms, 3
  {
    hide Stands, BlanksText, OkBlanks, Members, AfterColon, Skip, MemberEvents, MemberText, MemberCount, MemberValueText, StringText, OkMembers, OkPieces, Parses, PiecesBytes, OkTree, NameEvents;
    var c1 := Cursor(c.pos + |StringText(ms.name)|, c.events + NameEvents(ms, d));
    var c2 := Cursor(c1.pos + |BlanksText(ms.afterName)|, c1.events);
    var c3 := Cursor(c2.pos + 1 + |BlanksText(ms.beforeValue)|, c1.events);
    NameParts(env.src, c.pos, ms, d);
    MemberLength(ms);
    ValueParts(env.src, c3.pos, ms, d);
    ReadName(env, c, ms, d);
    ParsesDialect(env, d);
    SkipsBlanks(env, c1, ms.afterName, d);
    SkipsBlanks(env, Cursor(c2.pos + 1, c1.events), ms.beforeValue, d);
    NameStep(env, c, c1, c2, c3, n);
    ReadMemberValue(env, c3, ms, n, d);
    MemberEventsStep(c, ms, d);
  }

  lemma ReadName(env: Env, c: Cursor, ms: MemberList, d: Dialect)
    requires Parses(env, d) && OkPieces(ms.name, d) && Stands(env.src, c.pos, StringText(ms.name))
    ensures Forward(env) && c.pos < |env.src| && Peek(env, c) == '"' as int
    ensures JsonGrammar.Text(env, c, true) == Done(Cursor(c.pos + |StringText(ms.name)|, c.events + NameEvents(ms, d)))
  {
    ReadString(env, c, ms.name, d);
    hide Stands, OkPieces, PiecesText, PiecesBytes, ScanString, StringText;
  }

  lemma NameStep(env: Env, c: Cursor, c1: Cursor, c2: Cursor, c3: Cursor, n: nat)
    requires Forward(env) && c.pos < |env.src| && Peek(env, c) == '"' as int && JsonGrammar.Text(env, c, true) == Done(c1)
    requires c1.pos <= |env.src| && Skip(env, c1) == Done(c2) && c2.pos < |env.src| && Peek(env, c2) == ':' as int
    requires Skip(env, Cursor(c2.pos + 1, c2.events)) == Done(c3)
    ensures c3.pos <= |env.src| && Members(env, c, n) == AfterColon(env, c3, n)
  {
    hide JsonGrammar.Text, Skip, AfterColon;
    assert Members(env, c, n) == AfterKey(env, c2, n);
  }

  lemma {:induction false} ReadMemberValue(env: Env, c: Cursor, ms: MemberList, n: nat, d: Dialect)
    requires Parses(env, d) && OkMembers(ms, d) && Stands(env.src, c.pos, MemberValueText(ms))
    requires At(env.src, c.pos + |MemberValueText(ms)|) == '}' as int
    ensures c.pos <= |env.src| && Forward(env)
    ensures AfterColon(env, c, n)
         == Done(Cursor(c.pos + |MemberValueText(ms)| + 1, c.events + ValueEvents(ms, d) + [EndObject(n + MemberCount(ms))]))
    decreases ms, 2
  {
    hide Stands, BlanksText, OkBlanks, TreeText, MoreMembersText, AfterColon, AfterMember, Value, Skip, TreeEvents, MemberEvents, MemberValueText, MemberText, MemberCount, Parses, OkMembers, MoreMemberEvents, MoreMemberCount, ValueEvents;
    var c1 := Cursor(c.pos + |TreeText(ms.value)|, c.events + TreeEvents(ms.value, d));
    var c2 := Cursor(c1.pos + |BlanksText(ms.after)|, c1.events);
    ValueParts(env.src, c.pos, ms, d);
    MemberLength(ms);
    MoreMembersSeparate(env.src, c2.pos, ms.more, d);
    BlanksSeparate(env.src, c1.pos, ms.after, d);
    ReadTree(env, c, ms.value, d);
    ParsesDialect(env, d);
    SkipsBlanks(env, c1, ms.after, d);
    ColonStep(env, c, c1, c2, n);
    ReadMoreMembers(env, c2, ms, n + 1, d);
    ValueEventsStep(c, ms, n, d);
  }

  function MoreMemberEvents(more: MoreMembers, d: Dialect): seq<Event> {
    match more case NoMembers(_) => [] case NextMembers(rest) => MemberEvents(rest, d)
  }

  function MoreMemberCount(more: MoreMembers): nat {
    match more case NoMembers(_) => 0 case NextMembers(rest) => MemberCount(rest)
  }

  /** The events of a member and those after it, without its name. */
  function ValueEvents(ms: MemberList, d: Dialect): seq<Event> {
    TreeEvents(ms.value, d) + MoreMemberEvents(ms.more, d)
  }

  lemma MemberEventsStep(c: Cursor, ms: MemberList, d: Dialect)
    ensures c.events + NameEvents(ms, d) + ValueEvents(ms, d) == c.events + MemberEvents(ms, d)
  {
    hide TreeEvents, PiecesBytes;
    var key := NameEvents(ms, d);
    assert c.events + key + (TreeEvents(ms.value, d) + MoreMemberEvents(ms.more, d)) == c.events + (key + TreeEvents(ms.value, d) + MoreMemberEvents(ms.more, d));
  }

  lemma ValueEventsStep(c: Cursor, ms: MemberList, n: nat, d: Dialect)
    ensures n + 1 + MoreMemberCount(ms.more) == n + MemberCount(ms)
    ensures c.events + TreeEvents(ms.value, d) + MoreMemberEvents(ms.more, d) == c.events + ValueEvents(ms, d)
  {
    hide TreeEvents;
  }

  lemma MoreMembersSeparate(src: seq<int>, pos: nat, more: MoreMembers, d: Dialect)
    requires Stands(src, pos, MoreMembersText(more)) && At(src, pos + |MoreMembersText(more)|) == '}' as int
    ensures Separates(At(src, pos)) && StopsBlanks(At(src, pos))
    ensures At(src, pos) == if more.NoMembers? && more.comma.None? then '}' as int else ',' as int
  {
    if !(more.NoMembers? && more.comma.None?) {
      JsonRoundTrip.StandsAt(src, pos, MoreMembersText(more), 0);
    }
  }

  lemma ColonStep(env: Env, c: Cursor, c1: Cursor, c2: Cursor, n: nat)
    requires Forward(env) && c.pos <= |env.src| && Value(env, c) == Done(c1) && c1.pos <= |env.src| && Skip(env, c1) == Done(c2)
    ensures c2.pos <= |env.src| && AfterColon(env, c, n) == AfterMember(env, c2, n + 1)
  {
    hide Value, Skip, AfterMember;
  }

  /** After a member: the end, a comma and the end, or a comma and more. */
  lemma {:induction false} ReadMoreMembers(env: Env, c: Cursor, ms: MemberList, n: nat, d: Dialect)
    requires Parses(env, d) && c.pos <= |env.src| && OkMembers(ms, d)
    requires Stands(env.src, c.pos, MoreMembersText(ms.more)) && At(env.src, c.pos + |MoreMembersText(ms.more)|) == '}' as int
    ensures Forward(env)
    ensures AfterMember(env, c, n)
         == Done(Cursor(c.pos + |MoreMembersText(ms.more)| + 1, c.events + MoreMemberEvents(ms.more, d) + [EndObject(n + MoreMemberCount(ms.more))]))
    decreases ms, 1
  {
    hide Stands, BlanksText, OkBlanks, Members, Skip, MemberEvents, MemberCount, MembersText, Parses, OkPieces, OkTree;
    ParsesForward(env, d);
    ParsesDialect(env, d);
    MoreMembersSeparate(env.src, c.pos, ms.more, d);
    match ms.more
    case NoMembers(comma) =>
      ReadLastMember(env, c, comma, n, d);
      assert c.events + [] == c.events;
    case NextMembers(rest) =>
      JsonRoundTrip.StandsBoth(env.src, c.pos, [',' as int], MembersText(rest));
      MembersParts(env.src, c.pos + 1, rest, d);
      var c1 := Cursor(c.pos + 1, c.events);
      SkipsBlanks(env, c1, rest.before, d);
      var c2 := Cursor(c1.pos + |BlanksText(rest.before)|, c.events);
      MemberLength(rest);
      ObjectGoesOn(env, c, c2, n);
      ReadMembers(env, c2, rest, n, d);
  }

  lemma ReadLastMember(env: Env, c: Cursor, comma: Maybe<seq<Blank>>, n: nat, d: Dialect)
    requires Parses(env, d) && c.pos < |env.src| && OkComma(comma, d)
    requires Stands(env.src, c.pos, CommaText(comma)) && At(env.src, c.pos + |CommaText(comma)|) == '}' as int
    ensures Forward(env)
    ensures AfterMember(env, c, n) == Done(Cursor(c.pos + |CommaText(comma)| + 1, c.events + [EndObject(n)]))
  {
    hide Stands, BlanksText, OkBlanks, Skip, AfterMember, Parses;
    ParsesForward(env, d);
    ParsesDialect(env, d);
    if comma.None? {
      ObjectEnds(env, c, n);
    } else {
      JsonRoundTrip.StandsBoth(env.src, c.pos, [',' as int], BlanksText(comma.value));
      JsonRoundTrip.StandsAt(env.src, c.pos, [',' as int], 0);
      var c1 := Cursor(c.pos + 1, c.events);
      SkipsBlanks(env, c1, comma.value, d);
      ObjectCommaEnds(env, c, Cursor(c1.pos + |BlanksText(comma.value)|, c.events), n);
    }
  }

  lemma ObjectEnds(env: Env, c: Cursor, n: nat)
    requires Forward(env) && (forall es :: env.accepts(es)) && c.pos < |env.src| && Peek(env, c) == '}' as int
    ensures AfterMember(env, c, n) == Done(Cursor(c.pos + 1, c.events + [EndObject(n)]))
  {
    hide MembersOrEnd, Skip;
  }

  lemma ObjectCommaEnds(env: Env, c: Cursor, c2: Cursor, n: nat)
    requires Forward(env) && (forall es :: env.accepts(es)) && c.pos < |env.src| && Peek(env, c) == ',' as int && env.trailingCommas
    requires Skip(env, Cursor(c.pos + 1, c.events)) == Done(c2) && c2.pos < |env.src| && Peek(env, c2) == '}' as int
    ensures AfterMember(env, c, n) == Done(Cursor(c2.pos + 1, c2.events + [EndObject(n)]))
  {
    hide Members, Skip;
    assert AfterMember(env, c, n) == MembersOrEnd(env, c2, n);
  }

  lemma ObjectGoesOn(env: Env, c: Cursor, c2: Cursor, n: nat)
    requires Forward(env) && c.pos < |env.src| && Peek(env, c) == ',' as int
    requires Skip(env, Cursor(c.pos + 1, c.events)) == Done(c2) && c2.pos < |env.src| && Peek(env, c2) != '}' as int
    ensures AfterMember(env, c, n) == Members(env, c2, n)
  {
    hide Members, Skip;
    assert AfterMember(env, c, n) == MembersOrEnd(env, c2, n);
  }

  /** ---- Documents ---- */

  /** A line comment that the end of the text cuts off. */
  lemma OpenSkipped(src: seq<int>, pos: nat, open: Maybe<seq<int>>, d: Dialect)
    requires open.Some? ==> d.comments && 0 !in open.value && 0x0A !in open.value
    requires Stands(src, pos, OpenText(open)) && At(src, pos + |OpenText(open)|) == 0
    ensures Separates(At(src, pos)) && pos + |OpenText(open)| <= |src|
    ensures SkipFrom(src, d.comments, pos) == Read((), pos + |OpenText(open)|)
  {
    hide SkipFrom;
    if open.None? {
      NothingSkipped(src, d.comments, pos);
    } else {
      var slashes, body := ['/' as int, '/' as int], open.value;
      JsonRoundTrip.StandsBoth(src, pos, slashes, body);
      JsonRoundTrip.StandsAt(src, pos, slashes, 0);
      JsonRoundTrip.StandsAt(src, pos, slashes, 1);
      LineEnds(src, pos + 2, body, 0);
      LineStep(src, pos);
      NothingSkipped(src, true, pos + 2 + |body|);
    }
  }

  /** Where a parse of a text ends. */
  function EndOf(x: JsonText, stopWhenDone: bool): nat {
    if stopWhenDone then |BlanksText(x.before)| + |TreeText(x.root)| else |WholeText(x)|
  }

  lemma TextParts(src: seq<int>, x: JsonText)
    requires Stands(src, 0, WholeText(x))
    ensures var p := |BlanksText(x.before)|; var q := p + |TreeText(x.root)|; var r := q + |BlanksText(x.after)|;
            && Stands(src, 0, BlanksText(x.before)) && Stands(src, p, TreeText(x.root)) && Stands(src, q, BlanksText(x.after))
            && Stands(src, r, OpenText(x.open)) && |WholeText(x)| == r + |OpenText(x.open)|
  {
    hide Stands, BlanksText, TreeText, OpenText;
    JsonRoundTrip.StandsBoth(src, 0, BlanksText(x.before) + TreeText(x.root) + BlanksText(x.after), OpenText(x.open));
    JsonRoundTrip.StandsPart(src, 0, BlanksText(x.before), TreeText(x.root), BlanksText(x.after));
  }

  /** EVERY JSON TEXT IS ACCEPTED, at the start of the input and ended by its end or a zero, with the events of its tree. */
  lemma ReadText(env: Env, x: JsonText, d: Dialect)
    requires Parses(env, d) && OkJsonText(x, d) && Stands(env.src, 0, WholeText(x)) && At(env.src, |WholeText(x)|) == 0
    ensures Forward(env)
    ensures Document(env) == Done(Cursor(EndOf(x, env.stopWhenDone), TreeEvents(x.root, d)))
  {
    hide Stands, BlanksText, TreeText, OpenText, WholeText, OkBlanks, OkTree, Value, Skip, SkipFrom, TreeEvents, Separates, Parses, Document;
    var p := |BlanksText(x.before)|;
    var q := p + |TreeText(x.root)|;
    var r := q + |BlanksText(x.after)|;
    TextParts(env.src, x);
    ParsesForward(env, d);
    ParsesDialect(env, d);
    FirstOfTree(x.root, d);
    JsonRoundTrip.StandsAt(env.src, p, TreeText(x.root), 0);
    SkipsBlanks(env, Cursor(0, []), x.before, d);
    OpenSkipped(env.src, r, x.open, d);
    BlanksSeparate(env.src, q, x.after, d);
    ReadTree(env, Cursor(p, []), x.root, d);
    assert [] + TreeEvents(x.root, d) == TreeEvents(x.root, d);
    BlanksSkipped(env.src, q, x.after, d);
    DocumentSteps(env, p, Cursor(q, TreeEvents(x.root, d)), r + |OpenText(x.open)|);
  }

  lemma DocumentSteps(env: Env, p: nat, c: Cursor, end: nat)
    requires Forward(env) && Skip(env, Cursor(0, [])) == Done(Cursor(p, [])) && p < |env.src| && env.src[p] != 0
    requires Value(env, Cursor(p, [])) == Done(c) && c.pos <= |env.src|
    requires SkipFrom(env.src, env.comments, c.pos) == Read((), end) && At(env.src, end) == 0
    ensures Document(env) == Done(Cursor(if env.stopWhenDone then c.pos else end, c.events))
  {
    hide Value, SkipFrom;
  }
}
