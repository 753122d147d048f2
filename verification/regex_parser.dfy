/** The operator-precedence parser of internal/regex.h on stacks of expressions: what each step of `Parse` does,
    with an expression in place of the fragment that the engine keeps on its operand stack. */
module RegexParser {
  import opened Decimals
  import opened RegexLanguage

  /** The outcome of a step: a value, a `return` that leaves the regex invalid, or a failed RAPIDJSON_ASSERT. */
  datatype Step<+T> = Ok(value: T) | Reject | AssertFails

  /** In the order of the enumeration. */
  datatype Operator = ZeroOrOne | ZeroOrMore | OneOrMore | Concatenation | Alternation | LeftParenthesis

  /** kInfinityQuantifier */
  const INFINITY := 0xFFFFFFFF

  /** Tops are at the end. */
  datatype Machine = Machine(
    operands: seq<Re>, operators: seq<Operator>, atomCounts: seq<nat>, anchorBegin: bool, anchorEnd: bool)

  const INITIAL := Machine([], [], [0], false, false)

  function Parens(ops: seq<Operator>): nat {
    if ops == [] then 0 else Parens(ops[..|ops| - 1]) + (if ops[|ops| - 1] == LeftParenthesis then 1 else 0)
  }

  /** One atom count per open parenthesis, and one for the top level. */
  ghost predicate Balanced(st: Machine) {
    |st.atomCounts| == Parens(st.operators) + 1
  }

  /** `Eval` */
  function EvalRe(es: seq<Re>, op: Operator): (r: Step<seq<Re>>) {
    var n := |es|;
    match op
    case Concatenation => if n < 2 then AssertFails else Ok(es[..n - 2] + [Cat(es[n - 2], es[n - 1])])
    case Alternation => if n < 2 then Reject else Ok(es[..n - 2] + [Alt(es[n - 2], es[n - 1])])
    case ZeroOrOne => if n < 1 then Reject else Ok(es[..n - 1] + [Opt(es[n - 1])])
    case ZeroOrMore => if n < 1 then Reject else Ok(es[..n - 1] + [Star(es[n - 1])])
    case OneOrMore => if n < 1 then Reject else Ok(es[..n - 1] + [Plus(es[n - 1])])
    case LeftParenthesis => Reject
  }

  /** n copies of e in front of t. */
  function Prefixed(e: Re, n: nat, t: Re): Re {
    if n == 0 then t else Cat(e, Prefixed(e, n - 1, t))
  }

  /** n optional copies of e. */
  function Options(e: Re, n: nat): Re
    requires n > 0
  {
    if n == 1 then Opt(e) else Cat(Opt(e), Options(e, n - 1))
  }

  /** What `EvalQuantifier` makes of the top operand; `e{0}` is not supported. */
  function Repeated(e: Re, n: nat, m: nat): Re
    requires n <= m && 0 < m
  {
    if n == 0 then (if m == INFINITY then Star(e) else Options(e, m))
    else if m == INFINITY then Prefixed(e, n - 1, Plus(e))
    else if m > n then Prefixed(e, n, Options(e, m - n))
    else Prefixed(e, n - 1, e)
  }

  /** `EvalQuantifier` */
  function EvalQuantifierRe(es: seq<Re>, n: nat, m: nat): (r: Step<seq<Re>>)
    requires n <= m
  {
    if |es| < 1 then AssertFails
    else if m == 0 then Reject
    else Ok(es[..|es| - 1] + [Repeated(es[|es| - 1], n, m)])
  }

  /** Pops and evaluates operators down to the first one in `until`. */
  function Reduce(es: seq<Re>, ops: seq<Operator>, until: set<Operator>): (r: Step<(seq<Re>, seq<Operator>)>)
    ensures r.Ok? && LeftParenthesis in until ==> Parens(r.value.1) == Parens(ops)
    ensures r.Ok? && r.value.1 != [] ==> r.value.1[|r.value.1| - 1] in until
    decreases |ops|
  {
    if ops == [] || ops[|ops| - 1] in until then Ok((es, ops))
    else match EvalRe(es, ops[|ops| - 1])
      case Ok(es') => Reduce(es', ops[..|ops| - 1], until)
      case Reject => Reject
      case AssertFails => AssertFails
  }

  const UNTIL_ALTERNATION := {Alternation, LeftParenthesis}
  const UNTIL_PARENTHESIS := {LeftParenthesis}

  /** `ImplicitConcatenation`, after the operand stack became es. */
  function PushAtom(st: Machine, es: seq<Re>): (r: Machine)
    requires |st.atomCounts| > 0
    ensures Balanced(st) ==> Balanced(r)
  {
    var top := |st.atomCounts| - 1;
    var ops := if st.atomCounts[top] > 0 then st.operators + [Concatenation] else st.operators;
    assert st.atomCounts[top] > 0 ==> ops[..|ops| - 1] == st.operators;
    st.(operands := es, operators := ops, atomCounts := st.atomCounts[top := st.atomCounts[top] + 1])
  }

  /** The loop of `ParseUnsigned` from value r on, in 32-bit arithmetic. */
  function UnsignedFrom(r: nat, p: seq<int>): (res: Step<(nat, seq<int>)>)
    requires r <= INFINITY
    ensures res.Ok? ==> res.value.0 <= INFINITY && |res.value.1| <= |p|
    decreases |p|
  {
    if p == [] || !IsDigit(p[0]) then Ok((r, p))
    else if r >= 429496729 && p[0] > '5' as int then Reject
    else UnsignedFrom((r * 10 + (p[0] - '0' as int)) % 0x1_0000_0000, p[1..])
  }

  /** `ParseUnsigned` */
  function Unsigned(p: seq<int>): (res: Step<(nat, seq<int>)>)
    ensures res.Ok? ==> res.value.0 <= INFINITY && |res.value.1| < |p|
  {
    if p == [] || !IsDigit(p[0]) then Reject else UnsignedFrom(p[0] - '0' as int, p[1..])
  }

  const SYNTAX_CHARACTERS: seq<char> := "^$|()?*+.[]{}\\"

  predicate IsSyntax(c: int) {
    exists i | 0 <= i < |SYNTAX_CHARACTERS| :: SYNTAX_CHARACTERS[i] as int == c
  }

  /** `CharacterEscape` on the character after the backslash. */
  function EscapeValue(c: int): (r: Step<int>) {
    if IsSyntax(c) then Ok(c)
    else if c == 'f' as int then Ok(0x0C)
    else if c == 'n' as int then Ok(0x0A)
    else if c == 'r' as int then Ok(0x0D)
    else if c == 't' as int then Ok(0x09)
    else if c == 'v' as int then Ok(0x0B)
    else Reject
  }

  /** The state of `ParseRange`: the negation flag, the ranges so far, and `step`. */
  datatype ClassState = ClassState(negated: bool, ranges: seq<(int, int)>, step: nat)

  /** The inner switch of `ParseRange`. */
  function ClassChar(st: ClassState, c: int): (r: ClassState)
    requires st.step == 2 ==> st.ranges != []
    ensures r.step == 2 ==> r.ranges != []
    ensures r.step == 1 ==> r.ranges != []
  {
    var n := |st.ranges|;
    if st.step == 1 && c == '-' as int && n > 0 then st.(step := 2)
    else if st.step == 2 then st.(ranges := st.ranges[n - 1 := (st.ranges[n - 1].0, c)], step := 0)
    else st.(ranges := st.ranges + [(c, c)], step := 1)
  }

  /** The loop of `ParseRange` after its first character. */
  function ClassFrom(st: ClassState, p: seq<int>): (r: Step<(Atom, seq<int>)>)
    requires st.step == 2 ==> st.ranges != []
    ensures r.Ok? ==> |r.value.1| < |p|
    decreases |p|
  {
    if p == [] then Reject
    else if p[0] == ']' as int then
      if st.ranges == [] then Reject
      else
        var ranges := if st.step == 2 then st.ranges + [('-' as int, '-' as int)] else st.ranges;
        Ok((Class(st.negated, ranges), p[1..]))
    else if p[0] == '\\' as int then
      if |p| < 2 then Reject
      else if p[1] == 'b' as int then ClassFrom(ClassChar(st, 0x08), p[2..])
      else match EscapeValue(p[1])
        case Ok(c) => ClassFrom(ClassChar(st, c), p[2..])
        case _ => Reject
    else ClassFrom(ClassChar(st, p[0]), p[1..])
  }

  /** `ParseRange` */
  function ClassOf(p: seq<int>): (r: Step<(Atom, seq<int>)>)
    ensures r.Ok? ==> |r.value.1| < |p|
  {
    if p != [] && p[0] == '^' as int then ClassFrom(ClassState(true, [], 0), p[1..])
    else ClassFrom(ClassState(false, [], 0), p)
  }

  /** The braces of a quantifier, from after `{` up to but not including the closing brace: (n, m, rest). */
  function Bounds(p: seq<int>): (r: Step<(nat, nat, seq<int>)>)
    ensures r.Ok? ==> r.value.0 <= r.value.1 && |r.value.2| < |p|
  {
    match Unsigned(p)
    case Ok((n, q)) =>
      if q == [] || q[0] != ',' as int then Ok((n, n, q))
      else if |q| > 1 && q[1] == '}' as int then Ok((n, INFINITY, q[1..]))
      else (match Unsigned(q[1..])
        case Ok((m, q')) => if m < n then Reject else Ok((n, m, q'))
        case _ => Reject)
    case _ => Reject
  }

  function Quantify(st: Machine, r: Step<seq<Re>>, rest: seq<int>): (r': Step<(Machine, seq<int>)>)
    ensures r'.Ok? ==> r'.value.1 == rest && (Balanced(st) ==> Balanced(r'.value.0))
  {
    match r
    case Ok(es) => Ok((st.(operands := es), rest))
    case Reject => Reject
    case AssertFails => AssertFails
  }

  /** `|`: what binds tighter is evaluated first. */
  function StepBar(st: Machine): (r: Step<Machine>)
    requires Balanced(st)
    ensures r.Ok? ==> Balanced(r.value)
  {
    match Reduce(st.operands, st.operators, UNTIL_ALTERNATION)
    case Ok((es, ops)) =>
      assert (ops + [Alternation])[..|ops|] == ops;
      Ok(st.(operands := es, operators := ops + [Alternation], atomCounts := st.atomCounts[|st.atomCounts| - 1 := 0]))
    case Reject => Reject
    case AssertFails => AssertFails
  }

  /** `(` */
  function StepOpen(st: Machine): (r: Machine)
    requires Balanced(st)
    ensures Balanced(r)
  {
    assert (st.operators + [LeftParenthesis])[..|st.operators|] == st.operators;
    st.(operators := st.operators + [LeftParenthesis], atomCounts := st.atomCounts + [0])
  }

  /** `)` */
  function StepClose(st: Machine): (r: Step<Machine>)
    requires Balanced(st)
    ensures r.Ok? ==> Balanced(r.value)
  {
    match Reduce(st.operands, st.operators, UNTIL_PARENTHESIS)
    case Ok((es, ops)) =>
      if ops == [] then Reject
      else
        Ok(PushAtom(st.(operators := ops[..|ops| - 1], atomCounts := st.atomCounts[..|st.atomCounts| - 1]), es))
    case Reject => Reject
    case AssertFails => AssertFails
  }

  /** `{`, with p after it. */
  function StepBraces(st: Machine, p: seq<int>): (r: Step<(Machine, seq<int>)>)
    requires Balanced(st)
    ensures r.Ok? ==> |r.value.1| < |p| && Balanced(r.value.0)
  {
    match Bounds(p)
    case Ok((n, m, q)) =>
      (match EvalQuantifierRe(st.operands, n, m)
       case Ok(es) => if q != [] && q[0] == '}' as int then Ok((st.(operands := es), q[1..])) else Reject
       case Reject => Reject
       case AssertFails => AssertFails)
    case _ => Reject
  }

  function PushLeaf(st: Machine, a: Atom): (r: Machine)
    requires Balanced(st)
    ensures Balanced(r)
  {
    PushAtom(st, st.operands + [Leaf(a)])
  }

  /** `[`, with p after it. */
  function StepClass(st: Machine, p: seq<int>): (r: Step<(Machine, seq<int>)>)
    requires Balanced(st)
    ensures r.Ok? ==> |r.value.1| < |p| && Balanced(r.value.0)
  {
    match ClassOf(p)
    case Ok((a, q)) => Ok((PushLeaf(st, a), q))
    case _ => Reject
  }

  /** A backslash, with p after it. */
  function StepEscape(st: Machine, p: seq<int>): (r: Step<(Machine, seq<int>)>)
    requires Balanced(st)
    ensures r.Ok? ==> |r.value.1| < |p| && Balanced(r.value.0)
  {
    if p == [] then Reject
    else match EscapeValue(p[0])
      case Ok(d) => Ok((PushLeaf(st, Char(d)), p[1..]))
      case _ => Reject
  }

  function Then(r: Step<Machine>, rest: seq<int>): Step<(Machine, seq<int>)> {
    match r
    case Ok(st) => Ok((st, rest))
    case Reject => Reject
    case AssertFails => AssertFails
  }

  /** One round of the loop of `Parse`: the new machine and the rest of the pattern. */
  function ParseStep(st: Machine, p: seq<int>): (r: Step<(Machine, seq<int>)>)
    requires p != [] && Balanced(st)
    ensures r.Ok? ==> |r.value.1| < |p| && Balanced(r.value.0)
  {
    var c, rest := p[0], p[1..];
    if c == '^' as int then Ok((st.(anchorBegin := true), rest))
    else if c == '$' as int then Ok((st.(anchorEnd := true), rest))
    else if c == '|' as int then Then(StepBar(st), rest)
    else if c == '(' as int then Ok((StepOpen(st), rest))
    else if c == ')' as int then Then(StepClose(st), rest)
    else if c == '?' as int then Quantify(st, EvalRe(st.operands, ZeroOrOne), rest)
    else if c == '*' as int then Quantify(st, EvalRe(st.operands, ZeroOrMore), rest)
    else if c == '+' as int then Quantify(st, EvalRe(st.operands, OneOrMore), rest)
    else if c == '{' as int then StepBraces(st, rest)
    else if c == '.' as int then Ok((PushLeaf(st, AnyChar), rest))
    else if c == '[' as int then StepClass(st, rest)
    else if c == '\\' as int then StepEscape(st, rest)
    else Ok((PushLeaf(st, Char(c)), rest))
  }

  /** The loop of `Parse`. */
  function ParseFrom(st: Machine, p: seq<int>): (r: Step<Machine>)
    requires Balanced(st)
    ensures r.Ok? ==> Balanced(r.value)
    decreases |p|
  {
    if p == [] then Ok(st)
    else match ParseStep(st, p)
      case Ok((st', p')) => ParseFrom(st', p')
      case Reject => Reject
      case AssertFails => AssertFails
  }

  /** The whole of `Parse`: the expression whose automaton gets a root, with the two anchor flags. */
  function ParsePattern(p: seq<int>): Step<(Re, bool, bool)> {
    match ParseFrom(INITIAL, p)
    case Ok(st) => Finish(st)
    case Reject => Reject
    case AssertFails => AssertFails
  }

  /** After the loop: evaluate what is left; a single operand becomes the root. */
  function Finish(st: Machine): Step<(Re, bool, bool)> {
    match Reduce(st.operands, st.operators, {})
    case Ok((es, _)) => if |es| == 1 then Ok((es[0], st.anchorBegin, st.anchorEnd)) else Reject
    case Reject => Reject
    case AssertFails => AssertFails
  }
}
