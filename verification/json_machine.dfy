/** The table of the iterative parser of reader.h, and what each of its configurations still has to parse, in terms of
    the recursive parser. */
module JsonMachine {
  import opened JsonEvents
  import opened JsonGrammar

  /** In the order of the enumeration: the sink states come first, the delimiter states last. */
  datatype State =
    | FinishState | ErrorState | StartState
    | ObjectInitial | MemberKey | MemberValue | ObjectFinish
    | ArrayInitial | Element | ArrayFinish
    | ValueState
    | ElementDelimiter | MemberDelimiter | KeyValueDelimiter

  datatype Token =
    | LeftBracket | RightBracket | LeftCurlyBracket | RightCurlyBracket | Comma | Colon
    | StringToken | FalseToken | TrueToken | NullToken | NumberToken

  function Tokenize(c: int): Token {
    if c == '"' as int then StringToken
    else if c == ',' as int then Comma
    else if c == ':' as int then Colon
    else if c == '[' as int then LeftBracket
    else if c == ']' as int then RightBracket
    else if c == 'f' as int then FalseToken
    else if c == 'n' as int then NullToken
    else if c == 't' as int then TrueToken
    else if c == '{' as int then LeftCurlyBracket
    else if c == '}' as int then RightCurlyBracket
    else NumberToken
  }

  predicate IsScalarToken(t: Token) {
    t.StringToken? || t.FalseToken? || t.TrueToken? || t.NullToken? || t.NumberToken?
  }

  /** The row of a state that expects a value. */
  function PredictValue(t: Token, scalar: State): State {
    if t.LeftBracket? then ArrayInitial
    else if t.LeftCurlyBracket? then ObjectInitial
    else if IsScalarToken(t) then scalar
    else ErrorState
  }

  /** The table G: current state and one token of lookahead to the next state. */
  function Predict(s: State, t: Token): State {
    match s
    case StartState => PredictValue(t, ValueState)
    case ObjectInitial => if t.RightCurlyBracket? then ObjectFinish else if t.StringToken? then MemberKey else ErrorState
    case MemberKey => if t.Colon? then KeyValueDelimiter else ErrorState
    case MemberValue => if t.RightCurlyBracket? then ObjectFinish else if t.Comma? then MemberDelimiter else ErrorState
    case ArrayInitial => if t.RightBracket? then ArrayFinish else PredictValue(t, Element)
    case Element => if t.RightBracket? then ArrayFinish else if t.Comma? then ElementDelimiter else ErrorState
    case ElementDelimiter => if t.RightBracket? then ArrayFinish else PredictValue(t, Element)
    case MemberDelimiter => if t.RightCurlyBracket? then ObjectFinish else if t.StringToken? then MemberKey else ErrorState
    case KeyValueDelimiter => PredictValue(t, MemberValue)
    case _ => ErrorState
  }

  /** What is pushed for a container: the state to return to, and its members or elements so far. */
  datatype Frame = Frame(state: State, count: nat)

  predicate InObject(s: State) {
    s.ObjectInitial? || s.MemberKey? || s.MemberValue? || s.MemberDelimiter? || s.KeyValueDelimiter?
  }

  predicate InArray(s: State) {
    s.ArrayInitial? || s.Element? || s.ElementDelimiter?
  }

  /** The bottom frame returns to the start; the others to the container around. */
  predicate ValidStack(stack: seq<Frame>) {
    forall i | 0 <= i < |stack| ::
      if i == 0 then stack[i].state == StartState else stack[i].state == Element || stack[i].state == MemberValue
  }

  predicate ValidConfig(s: State, stack: seq<Frame>) {
    && ValidStack(stack)
    && (if stack == [] then s == StartState || s == FinishState else InObject(s) || InArray(s))
    && (s == ObjectInitial || s == ArrayInitial ==> stack[|stack| - 1].count == 0)
  }

  /** The rest of the container that the machine is in. */
  function Rest(env: Env, s: State, n: nat, c: Cursor): (r: Step)
    requires Forward(env) && c.pos <= |env.src| && (InObject(s) || InArray(s))
    ensures r.Done? ==> c.pos < r.at.pos <= |env.src|
  {
    match s
    case ObjectInitial => ObjectBody(env, c)
    case MemberKey => AfterKey(env, c, n)
    case KeyValueDelimiter => AfterColon(env, c, n)
    case MemberValue => AfterMember(env, c, n + 1)
    case MemberDelimiter => MembersOrEnd(env, c, n)
    case ArrayInitial => ArrayBody(env, c)
    case Element => AfterElement(env, c, n + 1)
    case ElementDelimiter => ElementsOrEnd(env, c, n)
  }

  /** The rest of the parse from a configuration whose cursor is past the blanks. */
  function Cont(env: Env, s: State, stack: seq<Frame>, c: Cursor): (r: Step)
    requires Forward(env) && c.pos <= |env.src| && ValidConfig(s, stack)
    decreases |stack|, 0
  {
    if stack == [] then
      if s == StartState then Root(env, c)
      else if Peek(env, c) != 0 then Fail(DocumentRootNotSingular, c.pos, c.events) else Done(c)
    else
      var top := stack[|stack| - 1];
      var c1 :- Rest(env, s, top.count, c);
      Return(env, top.state, stack[..|stack| - 1], c1)
  }

  /** The rest of the parse once a value has been read in a place that leaves the machine in state s. */
  function Return(env: Env, s: State, stack: seq<Frame>, c: Cursor): (r: Step)
    requires Forward(env) && c.pos <= |env.src| && ValidStack(stack) && (stack != [] ==> s == Element || s == MemberValue)
    decreases |stack|, 1
  {
    if stack == [] then AfterRoot(env, c)
    else
      var c1 :- Skip(env, c);
      Cont(env, s, stack, c1)
  }

  /** The rest of the parse after a transition into s at c, before the blanks are skipped. */
  function Onward(env: Env, s: State, stack: seq<Frame>, c: Cursor): Step
    requires Forward(env) && c.pos <= |env.src| && ValidConfig(s, stack)
  {
    if s == FinishState then AfterRoot(env, c)
    else
      var c1 :- Skip(env, c);
      Cont(env, s, stack, c1)
  }

  /** The state a container started in state s returns to. */
  function Back(s: State): State {
    if s == ArrayInitial || s == ElementDelimiter then Element
    else if s == KeyValueDelimiter then MemberValue
    else s
  }

  /** Where a value may start. */
  predicate TakesValue(s: State) {
    s == StartState || s == ArrayInitial || s == ElementDelimiter || s == KeyValueDelimiter
  }

  /** The state after a value is FinishState at the top level. */
  function Landed(s: State): State {
    if s == StartState then FinishState else s
  }

  /** ---- One transition ---- */

  lemma ContOne(env: Env, s: State, stack: seq<Frame>, c: Cursor)
    requires Forward(env) && c.pos <= |env.src| && ValidConfig(s, stack) && stack != []
    ensures var top := stack[|stack| - 1]; var r := Rest(env, s, top.count, c);
            Cont(env, s, stack, c) == if r.Done? then Return(env, top.state, stack[..|stack| - 1], r.at) else r
  {
  }

  lemma RootValue(env: Env, c: Cursor)
    requires Forward(env) && c.pos <= |env.src| && Peek(env, c) != 0
    ensures var r := Value(env, c);
            Cont(env, StartState, [], c) == if r.Done? then AfterRoot(env, r.at) else r
  {
    hide Value, AfterRoot;
  }

  /** A value read where one may start, and the configuration it leads to. */
  lemma ContValue(env: Env, s: State, stack: seq<Frame>, c: Cursor)
    requires Forward(env) && c.pos <= |env.src| && ValidConfig(s, stack) && TakesValue(s) && Peek(env, c) != 0
    requires s == ArrayInitial || s == ElementDelimiter ==> Peek(env, c) != ']' as int
    ensures ValidConfig(Landed(Back(s)), stack)
    ensures var r := Value(env, c);
            Cont(env, s, stack, c) == if r.Done? then Onward(env, Landed(Back(s)), stack, r.at) else r
  {
    hide Value, AfterElement, AfterMember, Return, Skip, Cont;
    if stack == [] {
      RootValue(env, c);
    } else {
      ContOne(env, s, stack, c);
      var n := stack[|stack| - 1].count;
      assert InArray(s) ==> Rest(env, s, n, c) == Elements(env, c, n);
      var r := Value(env, c);
      if r.Done? {
        var r' := Skip(env, r.at);
        if r'.Done? {
          ContOne(env, Back(s), stack, r'.at);
        }
      }
    }
  }

  lemma ReturnOnward(env: Env, s: State, stack: seq<Frame>, c: Cursor)
    requires Forward(env) && c.pos <= |env.src| && ValidStack(stack)
    requires if stack == [] then s == StartState else s == Element || s == MemberValue
    ensures ValidConfig(Landed(s), stack) && Return(env, s, stack, c) == Onward(env, Landed(s), stack, c)
  {
    hide Cont, AfterRoot, Skip;
  }

  /** Opening a container. */
  lemma ContOpen(env: Env, s: State, stack: seq<Frame>, c: Cursor, event: Event, initial: State)
    requires Forward(env) && c.pos < |env.src| && ValidConfig(s, stack) && TakesValue(s)
    requires (event == StartObject && initial == ObjectInitial && Peek(env, c) == '{' as int)
             || (event == StartArray && initial == ArrayInitial && Peek(env, c) == '[' as int)
    ensures ValidConfig(initial, stack + [Frame(Back(s), 0)])
    ensures var r := Emit(env, Take(env, c), event, c.pos + 1);
            Cont(env, s, stack, c) == if r.Done? then Onward(env, initial, stack + [Frame(Back(s), 0)], r.at) else r
  {
    hide ObjectBody, ArrayBody, Onward, Return, Cont, Skip, Emit, Take;
    ContValue(env, s, stack, c);
    var r := Emit(env, Take(env, c), event, c.pos + 1);
    if r.Done? {
      OnwardOpen(env, s, stack, r.at, initial);
    }
  }

  lemma PushValid(s: State, stack: seq<Frame>, initial: State)
    requires ValidConfig(s, stack) && TakesValue(s) && (initial == ObjectInitial || initial == ArrayInitial)
    ensures ValidConfig(initial, stack + [Frame(Back(s), 0)]) && (stack + [Frame(Back(s), 0)])[..|stack|] == stack
  {
  }

  lemma OnwardOpen(env: Env, s: State, stack: seq<Frame>, c: Cursor, initial: State)
    requires Forward(env) && c.pos <= |env.src| && ValidConfig(s, stack) && TakesValue(s)
    requires initial == ObjectInitial || initial == ArrayInitial
    ensures ValidConfig(initial, stack + [Frame(Back(s), 0)]) && ValidConfig(Landed(Back(s)), stack)
    ensures var r := Skip(env, c);
            Onward(env, initial, stack + [Frame(Back(s), 0)], c) ==
            if r.Fail? then r
            else
              var r' := Rest(env, initial, 0, r.at);
              if r'.Done? then Onward(env, Landed(Back(s)), stack, r'.at) else r'
  {
    hide Rest, Cont, Return, Skip, AfterRoot, ValidStack, Peek;
    var stack' := stack + [Frame(Back(s), 0)];
    PushValid(s, stack, initial);
    var r := Skip(env, c);
    if r.Done? {
      ContOne(env, initial, stack', r.at);
      var r' := Rest(env, initial, 0, r.at);
      if r'.Done? {
        ReturnOnward(env, Back(s), stack, r'.at);
      }
    }
  }

  /** Members that the container of state s has when it ends there. */
  function Total(s: State, n: nat): nat {
    if s == MemberValue || s == Element then n + 1 else n
  }

  /** Where a container may end. */
  predicate MayEnd(env: Env, s: State) {
    s == ObjectInitial || s == MemberValue || s == ArrayInitial || s == Element
    || (env.trailingCommas && (s == MemberDelimiter || s == ElementDelimiter))
  }

  /** Closing a container; the error offsets differ after a trailing comma. */
  lemma ContClose(env: Env, s: State, stack: seq<Frame>, c: Cursor)
    requires Forward(env) && c.pos < |env.src| && ValidConfig(s, stack) && stack != [] && MayEnd(env, s)
    requires Peek(env, c) == (if InObject(s) then '}' as int else ']' as int)
    ensures ValidConfig(Landed(stack[|stack| - 1].state), stack[..|stack| - 1])
    ensures var top := stack[|stack| - 1]; var n := Total(s, top.count);
            var trailing := s == MemberDelimiter || s == ElementDelimiter;
            var r := Emit(env, Take(env, c), if InObject(s) then EndObject(n) else EndArray(n), if trailing then c.pos else c.pos + 1);
            Cont(env, s, stack, c) == if r.Done? then Onward(env, Landed(top.state), stack[..|stack| - 1], r.at) else r
  {
    hide Members, Elements, Cont, Onward, Return, Skip, Emit, Take;
    ContOne(env, s, stack, c);
    var top := stack[|stack| - 1];
    var r := Rest(env, s, top.count, c);
    if r.Done? {
      ReturnOnward(env, top.state, stack[..|stack| - 1], r.at);
    }
  }

  /** A member name. */
  lemma ContKey(env: Env, s: State, stack: seq<Frame>, c: Cursor)
    requires Forward(env) && c.pos < |env.src| && ValidConfig(s, stack) && Peek(env, c) == '"' as int
    requires s == ObjectInitial || s == MemberDelimiter
    ensures var r := Text(env, c, true);
            Cont(env, s, stack, c) == if r.Done? then Onward(env, MemberKey, stack, r.at) else r
  {
    hide Cont, Return, Skip, Text, AfterKey;
    ContOne(env, s, stack, c);
    var n := stack[|stack| - 1].count;
    assert Rest(env, s, n, c) == Members(env, c, n);
    var r := Text(env, c, true);
    if r.Done? {
      var r' := Skip(env, r.at);
      if r'.Done? {
        ContOne(env, MemberKey, stack, r'.at);
      }
    }
  }

  /** The colon after a member name. */
  lemma ContColon(env: Env, stack: seq<Frame>, c: Cursor)
    requires Forward(env) && c.pos < |env.src| && ValidConfig(MemberKey, stack) && Peek(env, c) == ':' as int
    ensures Cont(env, MemberKey, stack, c) == Onward(env, KeyValueDelimiter, stack, Take(env, c))
  {
    hide Cont, Return, Skip, AfterColon, Take;
    ContOne(env, MemberKey, stack, c);
    var r := Skip(env, Take(env, c));
    if r.Done? {
      ContOne(env, KeyValueDelimiter, stack, r.at);
    }
  }

  /** A comma: one more member or element is complete. */
  lemma ContComma(env: Env, s: State, stack: seq<Frame>, c: Cursor)
    requires Forward(env) && c.pos < |env.src| && ValidConfig(s, stack) && Peek(env, c) == ',' as int
    requires s == MemberValue || s == Element
    ensures var n := |stack| - 1; var next := if s == Element then ElementDelimiter else MemberDelimiter;
            var stack' := stack[n := stack[n].(count := stack[n].count + 1)];
            ValidConfig(next, stack') && Cont(env, s, stack, c) == Onward(env, next, stack', Take(env, c))
  {
    hide Cont, Return, Skip, MembersOrEnd, ElementsOrEnd, Take;
    ContOne(env, s, stack, c);
    var n, next := |stack| - 1, if s == Element then ElementDelimiter else MemberDelimiter;
    var stack' := stack[n := stack[n].(count := stack[n].count + 1)];
    assert stack'[..n] == stack[..n];
    var r := Skip(env, Take(env, c));
    if r.Done? {
      ContOne(env, next, stack', r.at);
    }
  }

  /** The error that `HandleError` reports in state s. */
  function ErrorOf(s: State): ErrorCode {
    match s
    case StartState => DocumentEmpty
    case FinishState => DocumentRootNotSingular
    case ObjectInitial => ObjectMissName
    case MemberDelimiter => ObjectMissName
    case MemberKey => ObjectMissColon
    case MemberValue => ObjectMissCommaOrCurlyBracket
    case KeyValueDelimiter => ValueInvalid
    case ArrayInitial => ValueInvalid
    case ElementDelimiter => ValueInvalid
    case _ => ArrayMissCommaOrSquareBracket
  }

  lemma NoValueAtAll(env: Env, c: Cursor)
    requires Forward(env) && c.pos <= |env.src|
    ensures PredictValue(Tokenize(Peek(env, c)), ValueState) == ErrorState ==> Value(env, c) == Fail(ValueInvalid, c.pos, c.events)
  {
    hide Value;
    if PredictValue(Tokenize(Peek(env, c)), ValueState) == ErrorState {
      NoValue(env, c);
    }
  }

  /** At the end of the input, or on a token without a transition, the recursive parser fails where the machine does;
      it calls a bad first token an invalid value, and the machine calls it an empty document. */
  lemma ContStuck(env: Env, s: State, stack: seq<Frame>, c: Cursor)
    requires Forward(env) && c.pos <= |env.src| && ValidConfig(s, stack)
    requires if Peek(env, c) == 0 then s != FinishState
             else Predict(s, Tokenize(Peek(env, c))) == ErrorState
                  || (!env.trailingCommas && s == MemberDelimiter && Peek(env, c) == '}' as int)
                  || (!env.trailingCommas && s == ElementDelimiter && Peek(env, c) == ']' as int)
    ensures Cont(env, s, stack, c)
         == Fail(if s == StartState && Peek(env, c) != 0 then ValueInvalid else ErrorOf(s), c.pos, c.events)
  {
    hide Return, Skip, Value;
    if stack == [] {
      NoValueAtAll(env, c);
    } else {
      StuckInside(env, s, stack[|stack| - 1].count, c);
      hide Cont, Rest;
      ContOne(env, s, stack, c);
    }
  }

  lemma StuckInside(env: Env, s: State, n: nat, c: Cursor)
    requires Forward(env) && c.pos <= |env.src| && (InObject(s) || InArray(s))
    requires Peek(env, c) == 0 || Predict(s, Tokenize(Peek(env, c))) == ErrorState
             || (!env.trailingCommas && s == MemberDelimiter && Peek(env, c) == '}' as int)
             || (!env.trailingCommas && s == ElementDelimiter && Peek(env, c) == ']' as int)
    ensures Rest(env, s, n, c) == Fail(ErrorOf(s), c.pos, c.events)
  {
    hide Skip, Object, Array, Value;
    if s == ObjectInitial || s == MemberDelimiter {
      assert Rest(env, s, if s == ObjectInitial then 0 else n, c) == Members(env, c, if s == ObjectInitial then 0 else n);
    } else if s == ArrayInitial || s == ElementDelimiter {
      assert Rest(env, s, if s == ArrayInitial then 0 else n, c) == Elements(env, c, if s == ArrayInitial then 0 else n);
      NoValue(env, c);
    } else if s == KeyValueDelimiter {
      NoValue(env, c);
    }
  }

  lemma NoValue(env: Env, c: Cursor)
    requires Forward(env) && c.pos <= |env.src|
    requires PredictValue(Tokenize(Peek(env, c)), ValueState) == ErrorState || Peek(env, c) == 0
    ensures Value(env, c) == Fail(ValueInvalid, c.pos, c.events)
  {
  }
}
