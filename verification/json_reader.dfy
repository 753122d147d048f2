/** The two parsers of reader.h as they are written: recursive descent, and a loop over a table with an explicit stack. */
module JsonReader {
  import opened JsonEvents
  import opened JsonGrammar
  import opened JsonMachine

  datatype Error = NoError | Error(code: ErrorCode, offset: nat)

  /** A character that can start neither a value nor blanks, where the root is expected. */
  predicate BadRoot(env: Env)
    requires Forward(env)
  {
    var r := Skip(env, Cursor(0, []));
    r.Done? && Peek(env, r.at) != 0 && PredictValue(Tokenize(Peek(env, r.at)), ValueState) == ErrorState
  }

  /** An event that opens or closes a container. */
  predicate IsStructural(e: Event) {
    e.StartObject? || e.EndObject? || e.StartArray? || e.EndArray?
  }

  /** The iterative outcome, given the recursive one: the same cursor and events on success; on failure the same
      events, and the same error at the same offset, but for a bad root, and for the offset of a refused opening or
      closing event, which the recursive parser may report one character later. */
  predicate Corresponds(iterative: Step, recursive: Step, badRoot: bool) {
    if recursive.Done? then iterative == recursive
    else
      && iterative.Fail? && iterative.events == recursive.events
      && (if badRoot then recursive.code == ValueInvalid && iterative.code == DocumentEmpty && iterative.offset == recursive.offset
          else
            && iterative.code == recursive.code
            && (iterative.offset == recursive.offset
                || (recursive.code == Termination && recursive.events != []
                    && IsStructural(recursive.events[|recursive.events| - 1])
                    && iterative.offset + 1 == recursive.offset)))
  }

  class GenericReader {
    const env: Env
    var pos: nat
    /** The events the handler has received. */
    var events: seq<Event>
    var parseResult: Error
    var stack: seq<Frame>

    constructor (env: Env)
      ensures this.env == env && pos == 0 && events == [] && !HasParseError() && stack == []
    {
      this.env := env;
      pos, events, parseResult, stack := 0, [], NoError, [];
    }

    predicate HasParseError()
      reads this
    {
      parseResult.Error?
    }

    function Here(): Cursor
      reads this
    {
      Cursor(pos, events)
    }

    /** Ready to go on parsing. */
    ghost predicate Clear()
      reads this
    {
      Forward(env) && pos <= |env.src| && !HasParseError()
    }

    /** The reader is where the step leaves it. */
    ghost predicate Became(r: Step)
      reads this
    {
      if r.Done? then !HasParseError() && Here() == r.at else parseResult == Error(r.code, r.offset) && events == r.events
    }

    function Current(): int
      reads this
    {
      if pos < |env.src| then env.src[pos] else 0
    }

    /** Calls the handler. */
    method Handle(e: Event) returns (ok: bool)
      modifies this`events
      ensures events == old(events) + [e] && ok == env.accepts(events)
    {
      events := events + [e];
      ok := env.accepts(events);
    }

    method Consume(wanted: int) returns (ok: bool)
      requires pos <= |env.src| && wanted != 0
      modifies this`pos
      ensures ok <==> old(Current()) == wanted
      ensures pos == if ok then old(pos) + 1 else old(pos)
      ensures pos <= |env.src|
    {
      ok := Current() == wanted;
      if ok {
        pos := pos + 1;
      }
    }

    method SkipWhitespace()
      requires pos <= |env.src|
      modifies this`pos
      ensures pos == SkipSpace(env.src, old(pos))
    {
      while pos < |env.src| && IsSpace(env.src[pos])
        invariant pos <= |env.src| && SkipSpace(env.src, pos) == SkipSpace(env.src, old(pos))
        decreases |env.src| - pos
      {
        pos := pos + 1;
      }
    }

    method SkipWhitespaceAndComments()
      requires Clear()
      modifies this`pos, this`parseResult
      ensures Became(Skip(env, old(Here())))
    {
      hide SkipSpace, BlockComment, LineComment, SkipFrom, Forward;
      if !env.comments {
        SkipWhitespace();
        PlainSkip(env.src, old(pos));
        return;
      }
      SkipAgain(env.src, pos);
      SkipWhitespace();
      while Current() == '/' as int
        invariant Clear() && SkipSpace(env.src, pos) == pos && old(pos) <= pos
        invariant SkipFrom(env.src, true, pos) == SkipFrom(env.src, true, old(pos))
        decreases |env.src| - pos
      {
        SkipUnfold(env.src, pos);
        pos := pos + 1;
        var block := Consume('*' as int);
        if block {
          SkipBlock();
          if HasParseError() {
            return;
          }
        } else {
          var line := Consume('/' as int);
          if !line {
            parseResult := Error(UnspecificSyntaxError, pos);
            return;
          }
          SkipLine();
        }
        SkipAgain(env.src, pos);
        SkipWhitespace();
      }
      SkipUnfold(env.src, pos);
    }

    /** The rest of a block comment. */
    method SkipBlock()
      requires Clear()
      modifies this`pos, this`parseResult
      ensures match BlockComment(env.src, old(pos))
              case Read(_, end) => !HasParseError() && pos == end
              case Bad(code, offset) => parseResult == Error(code, offset)
    {
      while true
        invariant Clear() && BlockComment(env.src, pos) == BlockComment(env.src, old(pos))
        decreases |env.src| - pos
      {
        if Current() == 0 {
          parseResult := Error(UnspecificSyntaxError, pos);
          return;
        }
        var star := Consume('*' as int);
        if star {
          var slash := Consume('/' as int);
          if slash {
            return;
          }
        } else {
          pos := pos + 1;
        }
      }
    }

    /** The rest of a line comment. */
    method SkipLine()
      requires Clear()
      modifies this`pos
      ensures pos == LineComment(env.src, old(pos))
    {
      while Current() != 0
        invariant Clear() && LineComment(env.src, pos) == LineComment(env.src, old(pos))
        decreases |env.src| - pos
      {
        var c := Current();
        pos := pos + 1;
        if c == '\n' as int {
          return;
        }
      }
    }

    /** ---- Recursive descent ---- */

    /** `ParseNull`, `ParseTrue` and `ParseFalse`. */
    method ParseLiteral(rest: string, e: Event)
      requires Clear() && pos < |env.src| && forall i | 0 <= i < |rest| :: rest[i] != '\0'
      modifies this`pos, this`events, this`parseResult
      ensures Became(Literal(env, old(Here()), rest, e))
    {
      pos := pos + 1;
      var i := 0;
      while i < |rest|
        invariant i <= |rest| && pos == old(pos) + 1 + i <= |env.src| && Clear() && events == old(events)
        invariant Matched(env.src, old(pos) + 1, rest) == i + Matched(env.src, pos, rest[i..])
      {
        var ok := Consume(rest[i] as int);
        if !ok {
          parseResult := Error(ValueInvalid, pos);
          return;
        }
        assert rest[i..][1..] == rest[i + 1..];
        i := i + 1;
      }
      var cont := Handle(e);
      if !cont {
        parseResult := Error(Termination, pos);
      }
    }

    method ParseString(isKey: bool)
      requires Clear() && pos < |env.src|
      modifies this`pos, this`events, this`parseResult
      ensures Became(Text(env, old(Here()), isKey))
    {
      match env.scanString(pos)
      case Bad(code, offset) => parseResult := Error(code, offset);
      case Read(s, end) =>
        pos := end;
        var success := Handle(if isKey then Key(s) else String(s));
        if !success {
          parseResult := Error(Termination, pos);
        }
    }

    method ParseNumber()
      requires Clear()
      modifies this`pos, this`events, this`parseResult
      ensures Became(Numeral(env, old(Here())))
    {
      var startOffset := pos;
      if !StartsNumber(Current()) {
        parseResult := Error(ValueInvalid, pos);
        return;
      }
      match env.scanNumber(pos)
      case Bad(code, offset) => parseResult := Error(code, offset);
      case Read(n, end) =>
        pos := end;
        var cont := Handle(Num(n));
        if !cont {
          parseResult := Error(Termination, startOffset);
        }
    }

    method ParseScalar()
      requires Clear()
      modifies this`pos, this`events, this`parseResult
      ensures Became(Scalar(env, old(Here())))
    {
      hide Literal, Text, Numeral;
      if Current() == 'n' as int {
        ParseLiteral("ull", Null);
      } else if Current() == 't' as int {
        ParseLiteral("rue", Bool(true));
      } else if Current() == 'f' as int {
        ParseLiteral("alse", Bool(false));
      } else if Current() == '"' as int {
        ParseString(false);
      } else {
        ParseNumber();
      }
    }

    /** Recursive descent computes `Value`. */
    method ParseValue()
      requires Clear()
      modifies this`pos, this`events, this`parseResult
      ensures Became(Value(env, old(Here())))
      decreases |env.src| - pos, 2
    {
      hide Scalar, Object, Array;
      if Current() == '{' as int {
        ParseObject();
      } else if Current() == '[' as int {
        ParseArray();
      } else {
        ParseScalar();
      }
    }

    /** The opening bracket, its event, and the blanks after it. */
    method Open(e: Event)
      requires Clear() && pos < |env.src|
      modifies this`pos, this`events, this`parseResult
      ensures Became(Opened(env, old(Here()), e))
    {
      hide Skip;
      pos := pos + 1;
      var started := Handle(e);
      if !started {
        parseResult := Error(Termination, pos);
        return;
      }
      SkipWhitespaceAndComments();
    }

    /** The event of a closing bracket that has been read. */
    method Close(e: Event)
      requires Clear()
      modifies this`events, this`parseResult
      ensures Became(Emit(env, old(Here()), e, pos))
    {
      var ended := Handle(e);
      if !ended {
        parseResult := Error(Termination, pos);
      }
    }

    method ParseObject()
      requires Clear() && Current() == '{' as int
      modifies this`pos, this`events, this`parseResult
      ensures Became(Object(env, old(Here())))
      decreases |env.src| - pos, 1
    {
      hide Skip, Text, Value, Members, Emit, AfterMember, Opened, Member;
      OpenedBody(env, Here());
      Open(StartObject);
      if HasParseError() {
        return;
      }
      var empty := Consume('}' as int);
      if empty {
        Close(EndObject(0));
        return;
      }
      var memberCount := 0;
      while true
        invariant Clear() && pos > old(pos) && Members(env, Here(), memberCount) == Object(env, old(Here()))
        decreases |env.src| - pos
      {
        ghost var start := Here();
        MembersMember(env, start, memberCount);
        ParseMember();
        if HasParseError() {
          return;
        }
        memberCount := memberCount + 1;
        var more := EndMember(memberCount);
        if !more {
          return;
        }
      }
    }

    /** The part of the loop of `ParseObject` after a member. */
    method EndMember(memberCount: nat) returns (more: bool)
      requires Clear()
      modifies this`pos, this`events, this`parseResult
      ensures !more ==> Became(AfterMember(env, old(Here()), memberCount))
      ensures more ==> Clear() && pos > old(pos) && AfterMember(env, old(Here()), memberCount) == Members(env, Here(), memberCount)
    {
      hide Skip, Members, Emit;
      more := false;
      ghost var start := Here();
      if Current() == ',' as int {
        pos := pos + 1;
        SkipWhitespaceAndComments();
        if HasParseError() {
          return;
        }
        assert AfterMember(env, start, memberCount) == MembersOrEnd(env, Here(), memberCount);
      } else if Current() == '}' as int {
        pos := pos + 1;
        Close(EndObject(memberCount));
        return;
      } else {
        parseResult := Error(ObjectMissCommaOrCurlyBracket, pos);
        return;
      }
      if env.trailingCommas && Current() == '}' as int {
        CloseTrailing(EndObject(memberCount));
        return;
      }
      more := true;
    }

    /** The event of a closing bracket after a trailing comma comes before the bracket is taken. */
    method CloseTrailing(e: Event)
      requires Clear() && pos < |env.src|
      modifies this`pos, this`events, this`parseResult
      ensures Became(Emit(env, Take(env, old(Here())), e, old(pos)))
    {
      var ended := Handle(e);
      if !ended {
        parseResult := Error(Termination, pos);
      } else {
        pos := pos + 1;
      }
    }

    /** The part of the loop of `ParseObject` up to the end of a member. */
    method ParseMember()
      requires Clear()
      modifies this`pos, this`events, this`parseResult
      ensures Became(Member(env, old(Here())))
      decreases |env.src| - pos, 3
    {
      hide Skip, Text, Value;
      if Current() != '"' as int {
        parseResult := Error(ObjectMissName, pos);
        return;
      }
      ParseString(true);
      if HasParseError() {
        return;
      }
      SkipWhitespaceAndComments();
      if HasParseError() {
        return;
      }
      var colon := Consume(':' as int);
      if !colon {
        parseResult := Error(ObjectMissColon, pos);
        return;
      }
      SkipWhitespaceAndComments();
      if HasParseError() {
        return;
      }
      ParseValue();
      if HasParseError() {
        return;
      }
      SkipWhitespaceAndComments();
    }

    method ParseArray()
      requires Clear() && Current() == '[' as int
      modifies this`pos, this`events, this`parseResult
      ensures Became(Array(env, old(Here())))
      decreases |env.src| - pos, 1
    {
      hide Skip, Value, Elements, Emit, AfterElement, Opened;
      OpenedBody(env, Here());
      Open(StartArray);
      if HasParseError() {
        return;
      }
      var empty := Consume(']' as int);
      if empty {
        Close(EndArray(0));
        return;
      }
      var elementCount := 0;
      while true
        invariant Clear() && pos > old(pos) && Elements(env, Here(), elementCount) == Array(env, old(Here()))
        decreases |env.src| - pos
      {
        ghost var start := Here();
        ElementsElement(env, start, elementCount);
        ParseValue();
        if HasParseError() {
          return;
        }
        elementCount := elementCount + 1;
        SkipWhitespaceAndComments();
        if HasParseError() {
          return;
        }
        var more := EndElement(elementCount);
        if !more {
          return;
        }
      }
    }

    /** The part of the loop of `ParseArray` after an element. */
    method EndElement(elementCount: nat) returns (more: bool)
      requires Clear()
      modifies this`pos, this`events, this`parseResult
      ensures !more ==> Became(AfterElement(env, old(Here()), elementCount))
      ensures more ==> Clear() && pos > old(pos) && AfterElement(env, old(Here()), elementCount) == Elements(env, Here(), elementCount)
    {
      hide Skip, Elements, Emit;
      more := false;
      ghost var start := Here();
      var comma := Consume(',' as int);
      if comma {
        SkipWhitespaceAndComments();
        if HasParseError() {
          return;
        }
        assert AfterElement(env, start, elementCount) == ElementsOrEnd(env, Here(), elementCount);
      } else {
        var close := Consume(']' as int);
        if close {
          Close(EndArray(elementCount));
        } else {
          parseResult := Error(ArrayMissCommaOrSquareBracket, pos);
        }
        return;
      }
      if env.trailingCommas && Current() == ']' as int {
        CloseTrailing(EndArray(elementCount));
        return;
      }
      more := true;
    }

    /** `Parse` without kParseIterativeFlag. */
    method RecursiveParse()
      requires Clear() && pos == 0 && events == []
      modifies this`pos, this`events, this`parseResult
      ensures Became(Document(env))
    {
      hide Skip, Value;
      SkipWhitespaceAndComments();
      if HasParseError() {
        return;
      }
      if Current() == 0 {
        parseResult := Error(DocumentEmpty, pos);
        return;
      }
      ParseValue();
      if HasParseError() {
        return;
      }
      if !env.stopWhenDone {
        SkipWhitespaceAndComments();
        if HasParseError() {
          return;
        }
        if Current() != 0 {
          parseResult := Error(DocumentRootNotSingular, pos);
        }
      }
    }

    /** ---- The iterative parser ---- */

    /** The cursor or error reached. */
    function Outcome(): Step
      reads this
    {
      if HasParseError() then Fail(parseResult.code, parseResult.offset, events) else Done(Here())
    }

    /** Opens a container: pushes the state to return to and a count of zero. */
    method TransitOpen(src: State, dst: State) returns (d: State)
      requires Clear() && ValidConfig(src, stack) && TakesValue(src)
      requires (dst == ObjectInitial && Current() == '{' as int) || (dst == ArrayInitial && Current() == '[' as int)
      modifies this`pos, this`events, this`parseResult, this`stack
      ensures d == ErrorState <==> HasParseError()
      ensures d == ErrorState ==> Corresponds(Outcome(), old(Cont(env, src, stack, Here())), false)
      ensures d != ErrorState ==> d == dst && Onwards(d, old(Cont(env, src, stack, Here())))
      ensures d != ErrorState ==> pos > old(pos)
    {
      hide Cont, Onward, ValidStack;
      ContOpen(env, src, stack, Here(), if dst == ObjectInitial then StartObject else StartArray, dst);
      stack := stack + [Frame(Back(src), 0)];
      var hr := Handle(if dst == ObjectInitial then StartObject else StartArray);
      if !hr {
        parseResult := Error(Termination, pos);
        return ErrorState;
      }
      pos := pos + 1;
      return dst;
    }

    /** A closing bracket after a comma, without kParseTrailingCommasFlag. */
    method RefuseClose(src: State) returns (d: State)
      requires Clear() && ValidConfig(src, stack) && !env.trailingCommas
      requires (src == MemberDelimiter && Current() == '}' as int) || (src == ElementDelimiter && Current() == ']' as int)
      modifies this`parseResult
      ensures d == ErrorState && HasParseError() && Corresponds(Outcome(), old(Cont(env, src, stack, Here())), false)
    {
      hide Cont, ValidStack;
      ContStuck(env, src, stack, Here());
      parseResult := Error(if src == MemberDelimiter then ObjectMissName else ValueInvalid, pos);
      d := ErrorState;
    }

    /** Closes a container: pops its count and the state to return to. */
    method TransitClose(src: State) returns (d: State)
      requires Clear() && ValidConfig(src, stack) && stack != [] && pos < |env.src| && MayEnd(env, src)
      requires Current() == if InObject(src) then '}' as int else ']' as int
      modifies this`pos, this`events, this`parseResult, this`stack
      ensures d == ErrorState <==> HasParseError()
      ensures d == ErrorState ==> Corresponds(Outcome(), old(Cont(env, src, stack, Here())), false)
      ensures d != ErrorState ==> d != StartState && Onwards(d, old(Cont(env, src, stack, Here())))
      ensures d != ErrorState ==> pos > old(pos)
    {
      hide Cont, Onward, ValidStack, Emit, Take, MayEnd;
      ContClose(env, src, stack, Here());
      TopFrame(stack);
      var top := stack[|stack| - 1];
      stack := stack[..|stack| - 1];
      var c := if src == MemberValue || src == Element then top.count + 1 else top.count;
      var n := if top.state == StartState then FinishState else top.state;
      var e := if InObject(src) then EndObject(c) else EndArray(c);
      EmitLate(env, Take(env, Here()), e, pos);
      CloseTrailing(e);
      return if HasParseError() then ErrorState else n;
    }

    /** A value that is not a container. */
    method TransitScalar(src: State) returns (d: State)
      requires Clear() && ValidConfig(src, stack) && TakesValue(src) && IsScalarToken(Tokenize(Current())) && Current() != 0
      modifies this`pos, this`events, this`parseResult
      ensures d == ErrorState <==> HasParseError()
      ensures d == ErrorState ==> Corresponds(Outcome(), old(Cont(env, src, stack, Here())), false)
      ensures d != ErrorState ==> d != StartState && Onwards(d, old(Cont(env, src, stack, Here())))
      ensures d != ErrorState ==> pos > old(pos)
    {
      hide Cont, Onward, ValidStack, Scalar;
      ContValue(env, src, stack, Here());
      assert Value(env, Here()) == Scalar(env, Here());
      ParseScalar();
      if HasParseError() {
        return ErrorState;
      }
      return Landed(Back(src));
    }

    /** `Transit`: takes the step the table predicts; every step leaves the same to parse to the recursive parser. */
    method Transit(src: State, dst: State) returns (d: State)
      requires Clear() && ValidConfig(src, stack) && Current() != 0
      requires dst == Predict(src, Tokenize(Current()))
      modifies this`pos, this`events, this`parseResult, this`stack
      ensures d == ErrorState ==>
              if dst == ErrorState then Here() == old(Here()) && stack == old(stack) && !HasParseError()
              else HasParseError() && Corresponds(Outcome(), old(Cont(env, src, stack, Here())), false)
      ensures d != ErrorState ==> d != StartState && dst != ErrorState && Onwards(d, old(Cont(env, src, stack, Here())))
      ensures d != ErrorState ==> pos > old(pos)
    {
      hide Cont, Onward, ValidStack, Text;
      if dst == ErrorState {
        d := dst;
      } else if dst == ObjectInitial || dst == ArrayInitial {
        d := TransitOpen(src, dst);
      } else if dst == MemberKey {
        ContKey(env, src, stack, Here());
        ParseString(true);
        d := if HasParseError() then ErrorState else dst;
      } else if dst == KeyValueDelimiter {
        ContColon(env, stack, Here());
        pos := pos + 1;
        d := dst;
      } else if dst == MemberDelimiter || dst == ElementDelimiter {
        ContComma(env, src, stack, Here());
        CountOne();
        d := dst;
      } else if dst == ObjectFinish || dst == ArrayFinish {
        if !env.trailingCommas && (src == MemberDelimiter || src == ElementDelimiter) {
          d := RefuseClose(src);
        } else {
          d := TransitClose(src);
        }
      } else {
        d := TransitScalar(src);
      }
    }

    /** A comma: the count on top of the stack goes up. */
    method CountOne()
      requires stack != []
      modifies this`pos, this`stack
      ensures pos == old(pos) + 1
      ensures stack == old(stack)[|old(stack)| - 1 := old(stack[|stack| - 1]).(count := old(stack[|stack| - 1]).count + 1)]
    {
      pos := pos + 1;
      var n := |stack| - 1;
      stack := stack[n := stack[n].(count := stack[n].count + 1)];
    }

    /** Still parsing, with r left to come. */
    ghost predicate Onwards(s: State, r: Step)
      reads this
    {
      Clear() && ValidConfig(s, stack) && Onward(env, s, stack, Here()) == r
    }

    method HandleError(src: State)
      modifies this`parseResult
      ensures parseResult == if old(HasParseError()) then old(parseResult) else Error(ErrorOf(src), pos)
    {
      if HasParseError() {
        return;
      }
      parseResult := Error(ErrorOf(src), pos);
    }

    /** THE TWO PARSERS AGREE. The table-driven parser ends as recursive descent does: it accepts the same inputs with
        the same events and counts, and rejects the others after the same events with the same error, except that a
        bad first token is an empty document to it. */
    method IterativeParse()
      requires Clear() && pos == 0 && events == [] && stack == []
      modifies this`pos, this`events, this`parseResult, this`stack
      ensures Corresponds(Outcome(), Document(env), BadRoot(env))
      ensures stack == []
    {
      hide Cont, Onward, ValidStack, Root, AfterRoot, Skip, Tokenize, Predict;
      var state := StartState;
      ghost var first := Skip(env, Here());
      SkipWhitespaceAndComments();
      if HasParseError() {
        return;
      }
      ContStart(env, Here());
      while Current() != 0
        invariant Clear() && ValidConfig(state, stack) && Cont(env, state, stack, Here()) == Document(env)
        invariant if state == StartState then Here() == first.at else !BadRoot(env)
        decreases |env.src| - pos
      {
        var t := Tokenize(Current());
        var n := Predict(state, t);
        StartTokens(env, state, Here());
        ghost var before := Here();
        if n == ErrorState {
          ContStuck(env, state, stack, Here());
        }
        var d := Transit(state, n);
        if d == ErrorState {
          HandleError(state);
          break;
        }
        state := d;
        OnwardUnfold(env, state, stack, Here());
        if env.stopWhenDone && state == FinishState {
          break;
        }
        SkipWhitespaceAndComments();
        if HasParseError() {
          stack := [];
          return;
        }
      }
      if !HasParseError() && Current() == 0 {
        ContEnd(env, state, stack, Here());
      }
      if state != FinishState {
        HandleError(state);
      }
      stack := [];
    }
  }

  /** A refused closing event, reported one character later. */
  lemma EmitLate(env: Env, c: Cursor, e: Event, offset: nat)
    requires IsStructural(e)
    ensures var r, r' := Emit(env, c, e, offset), Emit(env, c, e, offset + 1);
            (r.Done? ==> r' == r) && (r.Fail? ==> r'.Fail? && Corresponds(r, r', false) && Corresponds(r, r, false))
  {
  }

  lemma TopFrame(stack: seq<Frame>)
    requires ValidStack(stack) && stack != []
    ensures stack[|stack| - 1].state == StartState || stack[|stack| - 1].state == Element || stack[|stack| - 1].state == MemberValue
  {
  }

  /** The start of the iterative parser. */
  lemma ContStart(env: Env, c: Cursor)
    requires Forward(env) && Skip(env, Cursor(0, [])) == Done(c)
    ensures ValidConfig(StartState, []) && Cont(env, StartState, [], c) == Document(env)
  {
    hide Skip, Root;
  }

  /** The first token decides whether the root is bad. */
  lemma StartTokens(env: Env, s: State, c: Cursor)
    requires Forward(env)
    ensures s == StartState && Skip(env, Cursor(0, [])) == Done(c) && Peek(env, c) != 0 ==>
            (BadRoot(env) <==> Predict(s, Tokenize(Peek(env, c))) == ErrorState)
  {
    hide Skip, Tokenize;
  }

  lemma OnwardUnfold(env: Env, s: State, stack: seq<Frame>, c: Cursor)
    requires Forward(env) && c.pos <= |env.src| && ValidConfig(s, stack) && s != StartState
    ensures var r := Skip(env, c);
            Onward(env, s, stack, c) ==
            if s == FinishState && env.stopWhenDone then Done(c)
            else if r.Fail? then r else Cont(env, s, stack, r.at)
  {
    hide Skip;
  }

  /** At the end of the input. */
  lemma ContEnd(env: Env, s: State, stack: seq<Frame>, c: Cursor)
    requires Forward(env) && c.pos <= |env.src| && ValidConfig(s, stack) && Peek(env, c) == 0
    ensures Cont(env, s, stack, c) == if s == FinishState then Done(c) else Fail(ErrorOf(s), c.pos, c.events)
  {
    if s != FinishState {
      hide Cont;
      ContStuck(env, s, stack, c);
    }
  }

  /** A member up to the blanks after its value. */
  function Member(env: Env, c: Cursor): (r: Step)
    requires Forward(env) && c.pos <= |env.src|
    ensures r.Done? ==> c.pos < r.at.pos <= |env.src|
  {
    if Peek(env, c) != '"' as int then Fail(ObjectMissName, c.pos, c.events)
    else
      var c1 :- Text(env, c, true);
      var c2 :- Skip(env, c1);
      if Peek(env, c2) != ':' as int then Fail(ObjectMissColon, c2.pos, c2.events)
      else
        var c3 :- Skip(env, Take(env, c2));
        var c4 :- Value(env, c3);
        Skip(env, c4)
  }

  lemma MembersMember(env: Env, c: Cursor, n: nat)
    requires Forward(env) && c.pos <= |env.src|
    ensures var r := Member(env, c);
            Members(env, c, n) == if r.Done? then AfterMember(env, r.at, n + 1) else r
  {
    hide Value, AfterMember, Skip, Text;
    if Peek(env, c) == '"' as int {
      var r1 := Text(env, c, true);
      if r1.Done? {
        var r2 := Skip(env, r1.at);
        if r2.Done? {
          assert Members(env, c, n) == AfterKey(env, r2.at, n);
          if Peek(env, r2.at) == ':' as int {
            var r3 := Skip(env, Take(env, r2.at));
            if r3.Done? {
              assert AfterKey(env, r2.at, n) == AfterColon(env, r3.at, n);
            }
          }
        }
      }
    }
  }

  /** An opening bracket at c, its event, and the blanks after it. */
  function Opened(env: Env, c: Cursor, e: Event): (r: Step)
    requires c.pos < |env.src|
    ensures r.Done? ==> c.pos < r.at.pos <= |env.src|
  {
    var c1 :- Emit(env, Take(env, c), e, c.pos + 1);
    Skip(env, c1)
  }

  lemma OpenedBody(env: Env, c: Cursor)
    requires Forward(env) && c.pos < |env.src|
    ensures var r := Opened(env, c, StartObject);
            Object(env, c) ==
            if r.Fail? then r
            else if Peek(env, r.at) == '}' as int then Emit(env, Take(env, r.at), EndObject(0), r.at.pos + 1)
            else Members(env, r.at, 0)
    ensures var r := Opened(env, c, StartArray);
            Array(env, c) ==
            if r.Fail? then r
            else if Peek(env, r.at) == ']' as int then Emit(env, Take(env, r.at), EndArray(0), r.at.pos + 1)
            else Elements(env, r.at, 0)
  {
    hide Skip, Emit, Members, Elements;
    var r := Opened(env, c, StartObject);
    assert r.Done? ==> Object(env, c) == ObjectBody(env, r.at);
    var r' := Opened(env, c, StartArray);
    assert r'.Done? ==> Array(env, c) == ArrayBody(env, r'.at);
  }

  lemma ElementsElement(env: Env, c: Cursor, n: nat)
    requires Forward(env) && c.pos <= |env.src|
    ensures var r := Value(env, c);
            Elements(env, c, n) ==
            if r.Fail? then r else var r' := Skip(env, r.at); if r'.Fail? then r' else AfterElement(env, r'.at, n + 1)
  {
    hide Value, AfterElement, Skip;
  }

  /** Blanks are skipped once. */
  lemma SkipAgain(src: seq<int>, pos: nat)
    requires pos <= |src|
    ensures SkipSpace(src, SkipSpace(src, pos)) == SkipSpace(src, pos)
    ensures SkipFrom(src, true, pos) == SkipFrom(src, true, SkipSpace(src, pos))
  {
    hide BlockComment, LineComment;
    var p := SkipSpace(src, pos);
    assert SkipSpace(src, p) == p;
    hide SkipSpace;
    SkipUnfold(src, pos);
    SkipUnfold(src, p);
  }

  lemma PlainSkip(src: seq<int>, pos: nat)
    requires pos <= |src|
    ensures SkipFrom(src, false, pos) == Read((), SkipSpace(src, pos))
  {
  }

  /** One round of `SkipWhitespaceAndComments`. */
  lemma SkipUnfold(src: seq<int>, pos: nat)
    requires pos <= |src|
    ensures var p := SkipSpace(src, pos);
            SkipFrom(src, true, pos) ==
            if At(src, p) != '/' as int then Read((), p)
            else if At(src, p + 1) == '*' as int then
              var r := BlockComment(src, p + 2);
              if r.Read? then SkipFrom(src, true, r.end) else Bad(r.code, r.offset)
            else if At(src, p + 1) == '/' as int then SkipFrom(src, true, LineComment(src, p + 2))
            else Bad(UnspecificSyntaxError, p + 1)
  {
    hide BlockComment, LineComment, SkipSpace;
  }
}
