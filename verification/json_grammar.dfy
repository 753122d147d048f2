/** The recursive-descent parser of reader.h as functions from cursor to cursor. */
module JsonGrammar {
  import opened JsonEvents

  /** ---- Characters ---- */

  predicate IsSpace(c: int) {
    c == ' ' as int || c == '\n' as int || c == '\r' as int || c == '\t' as int
  }

  function SkipSpace(src: seq<int>, pos: nat): (r: nat)
    requires pos <= |src|
    ensures pos <= r <= |src|
    ensures r < |src| ==> !IsSpace(src[r])
    decreases |src| - pos
  {
    if pos < |src| && IsSpace(src[pos]) then SkipSpace(src, pos + 1) else pos
  }

  /** After the opening of a block comment: the position after its end, or that of the end of the input. */
  function BlockComment(src: seq<int>, pos: nat): (r: Scan<()>)
    requires pos <= |src|
    ensures r.Read? ==> pos < r.end <= |src|
    decreases |src| - pos
  {
    if At(src, pos) == 0 then Bad(UnspecificSyntaxError, pos)
    else if src[pos] == '*' as int && At(src, pos + 1) == '/' as int then Read((), pos + 2)
    else BlockComment(src, pos + 1)
  }

  /** After `//`: the position after the end of the line, or that of the end of the input. */
  function LineComment(src: seq<int>, pos: nat): (r: nat)
    requires pos <= |src|
    ensures pos <= r <= |src|
    decreases |src| - pos
  {
    if At(src, pos) == 0 then pos
    else if src[pos] == '\n' as int then pos + 1
    else LineComment(src, pos + 1)
  }

  /** `SkipWhitespaceAndComments`, as a position. */
  function SkipFrom(src: seq<int>, comments: bool, pos: nat): (r: Scan<()>)
    requires pos <= |src|
    ensures r.Read? ==> pos <= r.end <= |src|
    decreases |src| - pos
  {
    var p := SkipSpace(src, pos);
    if comments && At(src, p) == '/' as int then
      if At(src, p + 1) == '*' as int then
        match BlockComment(src, p + 2)
        case Read(_, q) => SkipFrom(src, comments, q)
        case Bad(code, offset) => Bad(code, offset)
      else if At(src, p + 1) == '/' as int then SkipFrom(src, comments, LineComment(src, p + 2))
      else Bad(UnspecificSyntaxError, p + 1)
    else Read((), p)
  }

  function Skip(env: Env, c: Cursor): (r: Step)
    requires c.pos <= |env.src|
    ensures r.Done? ==> c.pos <= r.at.pos <= |env.src| && r.at.events == c.events
  {
    match SkipFrom(env.src, env.comments, c.pos)
    case Read(_, p) => Done(c.(pos := p))
    case Bad(code, offset) => Fail(code, offset, c.events)
  }

  /** Calls the handler; when it returns false the parse ends with the given offset. */
  function Emit(env: Env, c: Cursor, e: Event, offset: nat): (r: Step)
    ensures r.Done? ==> r.at.pos == c.pos
  {
    if env.accepts(c.events + [e]) then Done(c.(events := c.events + [e])) else Fail(Termination, offset, c.events + [e])
  }

  function Take(env: Env, c: Cursor): (r: Cursor)
    requires c.pos < |env.src|
    ensures r.pos == c.pos + 1 && r.events == c.events
  {
    c.(pos := c.pos + 1)
  }

  /** How far `text` is matched from pos on. */
  function Matched(src: seq<int>, pos: nat, text: string): (n: nat)
    ensures n <= |text| && (pos <= |src| ==> pos + n <= |src|)
    decreases |text|
  {
    if text == "" || At(src, pos) != text[0] as int || pos >= |src| then 0 else 1 + Matched(src, pos + 1, text[1..])
  }

  /** `ParseNull`, `ParseTrue` and `ParseFalse`, on the characters after the first. */
  function Literal(env: Env, c: Cursor, rest: string, e: Event): (r: Step)
    requires c.pos < |env.src|
    ensures r.Done? ==> c.pos < r.at.pos <= |env.src|
  {
    var n := Matched(env.src, c.pos + 1, rest);
    if n == |rest| then Emit(env, c.(pos := c.pos + 1 + n), e, c.pos + 1 + n)
    else Fail(ValueInvalid, c.pos + 1 + n, c.events)
  }

  /** `ParseString` */
  function Text(env: Env, c: Cursor, isKey: bool): (r: Step)
    requires Forward(env) && c.pos < |env.src|
    ensures r.Done? ==> c.pos < r.at.pos <= |env.src|
  {
    match env.scanString(c.pos)
    case Read(s, end) => Emit(env, c.(pos := end), if isKey then Key(s) else String(s), end)
    case Bad(code, offset) => Fail(code, offset, c.events)
  }

  /** What a number may start with; `I` and `N` only under kParseNanAndInfFlag, which is the scanner's business. */
  predicate StartsNumber(c: int) {
    c == '-' as int || '0' as int <= c <= '9' as int || c == 'I' as int || c == 'N' as int
  }

  /** `ParseNumber` */
  function Numeral(env: Env, c: Cursor): (r: Step)
    requires Forward(env) && c.pos <= |env.src|
    ensures r.Done? ==> c.pos < r.at.pos <= |env.src|
  {
    if !StartsNumber(Peek(env, c)) then Fail(ValueInvalid, c.pos, c.events)
    else match env.scanNumber(c.pos)
      case Read(n, end) => Emit(env, c.(pos := end), Num(n), c.pos)
      case Bad(code, offset) => Fail(code, offset, c.events)
  }

  /** ---- Values ---- */

  /** `ParseValue`, for values that are neither objects nor arrays. */
  function Scalar(env: Env, c: Cursor): (r: Step)
    requires Forward(env) && c.pos <= |env.src|
    ensures r.Done? ==> c.pos < r.at.pos <= |env.src|
  {
    var ch := Peek(env, c);
    if ch == 'n' as int then Literal(env, c, "ull", Null)
    else if ch == 't' as int then Literal(env, c, "rue", Bool(true))
    else if ch == 'f' as int then Literal(env, c, "alse", Bool(false))
    else if ch == '"' as int then Text(env, c, false)
    else Numeral(env, c)
  }

  /** `ParseValue` */
  function Value(env: Env, c: Cursor): (r: Step)
    requires Forward(env) && c.pos <= |env.src|
    ensures r.Done? ==> c.pos < r.at.pos <= |env.src|
    decreases |env.src| - c.pos, 2
  {
    if Peek(env, c) == '{' as int then Object(env, c)
    else if Peek(env, c) == '[' as int then Array(env, c)
    else Scalar(env, c)
  }

  /** `ParseObject` */
  function Object(env: Env, c: Cursor): (r: Step)
    requires Forward(env) && c.pos < |env.src|
    ensures r.Done? ==> c.pos < r.at.pos <= |env.src|
    decreases |env.src| - c.pos, 1
  {
    var c1 :- Emit(env, Take(env, c), StartObject, c.pos + 1);
    var c2 :- Skip(env, c1);
    ObjectBody(env, c2)
  }

  /** After the opening bracket. */
  function ObjectBody(env: Env, c: Cursor): (r: Step)
    requires Forward(env) && c.pos <= |env.src|
    ensures r.Done? ==> c.pos < r.at.pos <= |env.src|
    decreases |env.src| - c.pos, 4
  {
    if Peek(env, c) == '}' as int then Emit(env, Take(env, c), EndObject(0), c.pos + 1)
    else Members(env, c, 0)
  }

  /** The loop of `ParseObject`, after n members. */
  function Members(env: Env, c: Cursor, n: nat): (r: Step)
    requires Forward(env) && c.pos <= |env.src|
    ensures r.Done? ==> c.pos < r.at.pos <= |env.src|
    decreases |env.src| - c.pos, 3
  {
    if Peek(env, c) != '"' as int then Fail(ObjectMissName, c.pos, c.events)
    else
      var c1 :- Text(env, c, true);
      var c2 :- Skip(env, c1);
      AfterKey(env, c2, n)
  }

  function AfterKey(env: Env, c: Cursor, n: nat): (r: Step)
    requires Forward(env) && c.pos <= |env.src|
    ensures r.Done? ==> c.pos < r.at.pos <= |env.src|
    decreases |env.src| - c.pos, 3
  {
    if Peek(env, c) != ':' as int then Fail(ObjectMissColon, c.pos, c.events)
    else
      var c1 :- Skip(env, Take(env, c));
      AfterColon(env, c1, n)
  }

  function AfterColon(env: Env, c: Cursor, n: nat): (r: Step)
    requires Forward(env) && c.pos <= |env.src|
    ensures r.Done? ==> c.pos < r.at.pos <= |env.src|
    decreases |env.src| - c.pos, 3
  {
    var c1 :- Value(env, c);
    var c2 :- Skip(env, c1);
    AfterMember(env, c2, n + 1)
  }

  function AfterMember(env: Env, c: Cursor, n: nat): (r: Step)
    requires Forward(env) && c.pos <= |env.src|
    ensures r.Done? ==> c.pos < r.at.pos <= |env.src|
    decreases |env.src| - c.pos, 3
  {
    if Peek(env, c) == ',' as int then
      var c1 :- Skip(env, Take(env, c));
      MembersOrEnd(env, c1, n)
    else if Peek(env, c) == '}' as int then Emit(env, Take(env, c), EndObject(n), c.pos + 1)
    else Fail(ObjectMissCommaOrCurlyBracket, c.pos, c.events)
  }

  /** After a comma: with trailing commas, the object may end. */
  function MembersOrEnd(env: Env, c: Cursor, n: nat): (r: Step)
    requires Forward(env) && c.pos <= |env.src|
    ensures r.Done? ==> c.pos < r.at.pos <= |env.src|
    decreases |env.src| - c.pos, 4
  {
    if env.trailingCommas && Peek(env, c) == '}' as int then Emit(env, Take(env, c), EndObject(n), c.pos)
    else Members(env, c, n)
  }

  /** `ParseArray` */
  function Array(env: Env, c: Cursor): (r: Step)
    requires Forward(env) && c.pos < |env.src|
    ensures r.Done? ==> c.pos < r.at.pos <= |env.src|
    decreases |env.src| - c.pos, 1
  {
    var c1 :- Emit(env, Take(env, c), StartArray, c.pos + 1);
    var c2 :- Skip(env, c1);
    ArrayBody(env, c2)
  }

  function ArrayBody(env: Env, c: Cursor): (r: Step)
    requires Forward(env) && c.pos <= |env.src|
    ensures r.Done? ==> c.pos < r.at.pos <= |env.src|
    decreases |env.src| - c.pos, 4
  {
    if Peek(env, c) == ']' as int then Emit(env, Take(env, c), EndArray(0), c.pos + 1)
    else Elements(env, c, 0)
  }

  /** The loop of `ParseArray`, after n elements. */
  function Elements(env: Env, c: Cursor, n: nat): (r: Step)
    requires Forward(env) && c.pos <= |env.src|
    ensures r.Done? ==> c.pos < r.at.pos <= |env.src|
    decreases |env.src| - c.pos, 3
  {
    var c1 :- Value(env, c);
    var c2 :- Skip(env, c1);
    AfterElement(env, c2, n + 1)
  }

  function AfterElement(env: Env, c: Cursor, n: nat): (r: Step)
    requires Forward(env) && c.pos <= |env.src|
    ensures r.Done? ==> c.pos < r.at.pos <= |env.src|
    decreases |env.src| - c.pos, 3
  {
    if Peek(env, c) == ',' as int then
      var c1 :- Skip(env, Take(env, c));
      ElementsOrEnd(env, c1, n)
    else if Peek(env, c) == ']' as int then Emit(env, Take(env, c), EndArray(n), c.pos + 1)
    else Fail(ArrayMissCommaOrSquareBracket, c.pos, c.events)
  }

  function ElementsOrEnd(env: Env, c: Cursor, n: nat): (r: Step)
    requires Forward(env) && c.pos <= |env.src|
    ensures r.Done? ==> c.pos < r.at.pos <= |env.src|
    decreases |env.src| - c.pos, 4
  {
    if env.trailingCommas && Peek(env, c) == ']' as int then Emit(env, Take(env, c), EndArray(n), c.pos)
    else Elements(env, c, n)
  }

  /** ---- Documents ---- */

  /** `Parse`, after the leading blanks. */
  function Root(env: Env, c: Cursor): (r: Step)
    requires Forward(env) && c.pos <= |env.src|
  {
    if Peek(env, c) == 0 then Fail(DocumentEmpty, c.pos, c.events)
    else
      var c1 :- Value(env, c);
      AfterRoot(env, c1)
  }

  /** Nothing but blanks may follow the root, unless parsing stops there. */
  function AfterRoot(env: Env, c: Cursor): (r: Step)
    requires c.pos <= |env.src|
  {
    if env.stopWhenDone then Done(c)
    else
      var c1 :- Skip(env, c);
      if Peek(env, c1) != 0 then Fail(DocumentRootNotSingular, c1.pos, c1.events) else Done(c1)
  }

  /** The whole parse. */
  function Document(env: Env): (r: Step)
    requires Forward(env)
  {
    var c :- Skip(env, Cursor(0, []));
    Root(env, c)
  }
}
