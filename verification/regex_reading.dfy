/** The parser reads the printed form of every well-formed pattern back as the pattern's expression. */
module RegexReading {
  import opened Decimals
  import opened RegexLanguage
  import opened RegexParser
  import opened RegexSyntax

  /** ---- Numbers ---- */

  lemma {:induction false} ReadDecimal(n: nat, t: seq<int>)
    requires n < INFINITY
    ensures Unsigned(Decimal(n) + t) == UnsignedFrom(n, t)
    decreases n
  {
    hide UnsignedFrom;
    if n < 10 {
      assert (Decimal(n) + t)[1..] == t;
    } else {
      var d := n % 10 + '0' as int;
      assert Decimal(n) == Decimal(n / 10) + [d];
      hide Decimal;
      ReadDecimal(n / 10, [d] + t);
      assert Decimal(n / 10) + [d] + t == Decimal(n / 10) + ([d] + t);
      NextDigit(n, d, t);
    }
  }

  lemma NextDigit(n: nat, d: int, t: seq<int>)
    requires n < INFINITY && d == n % 10 + '0' as int
    ensures UnsignedFrom(n / 10, [d] + t) == UnsignedFrom(n, t)
  {
    assert ([d] + t)[1..] == t;
  }

  /** A number ends at the first character that is not a digit. */
  lemma ReadNumber(n: nat, t: seq<int>)
    requires n < INFINITY && t != [] && !IsDigit(t[0])
    ensures Unsigned(Decimal(n) + t) == Ok((n, t))
  {
    ReadDecimal(n, t);
  }

  /** ---- Classes ---- */

  function Step0(afterOne: bool): nat {
    if afterOne then 1 else 0
  }

  lemma ReadClassChar(st: ClassState, ch: ClassChar, t: seq<int>)
    requires OkClassChar(ch) && (st.step == 2 ==> st.ranges != [])
    ensures ClassFrom(st, PrintClassChar(ch) + t) == ClassFrom(RegexParser.ClassChar(st, ClassCharValue(ch)), t)
  {
    var p := PrintClassChar(ch) + t;
    if ch.ClassRaw? {
      assert p[1..] == t;
    } else {
      assert p[2..] == t && p[0] == '\\' as int;
      if ch.ClassEscaped? {
        EscapesAgree(ch.letter);
        assert p[1] == ch.letter;
      }
    }
  }

  /** No escape stands for a dash. */
  lemma OnlyDashIsDash(ch: ClassChar)
    requires OkClassChar(ch) && ClassCharValue(ch) == '-' as int
    ensures ch == DASH
  {
  }

  lemma ReadOne(negated: bool, rs: seq<(int, int)>, afterOne: bool, ch: ClassChar, t: seq<int>)
    requires OkClassChar(ch) && (afterOne ==> ch != DASH && rs != [])
    ensures ClassFrom(ClassState(negated, rs, Step0(afterOne)), PrintClassChar(ch) + t)
         == ClassFrom(ClassState(negated, rs + [(ClassCharValue(ch), ClassCharValue(ch))], 1), t)
  {
    ReadClassChar(ClassState(negated, rs, Step0(afterOne)), ch, t);
    if ClassCharValue(ch) == '-' as int {
      OnlyDashIsDash(ch);
    }
  }

  lemma ReadSpan(negated: bool, rs: seq<(int, int)>, afterOne: bool, lo: ClassChar, hi: ClassChar, t: seq<int>)
    requires OkClassChar(lo) && OkClassChar(hi) && (afterOne ==> lo != DASH && rs != [])
    ensures ClassFrom(ClassState(negated, rs, Step0(afterOne)), PrintClassChar(lo) + ['-' as int] + PrintClassChar(hi) + t)
         == ClassFrom(ClassState(negated, rs + [(ClassCharValue(lo), ClassCharValue(hi))], 0), t)
  {
    hide ClassFrom;
    var u := PrintClassChar(hi) + t;
    var x, y := ClassCharValue(lo), ClassCharValue(hi);
    assert PrintClassChar(lo) + ['-' as int] + PrintClassChar(hi) + t == PrintClassChar(lo) + (PrintClassChar(DASH) + u);
    ReadOne(negated, rs, afterOne, lo, PrintClassChar(DASH) + u);
    ReadClassChar(ClassState(negated, rs + [(x, x)], 1), DASH, u);
    ReadClassChar(ClassState(negated, rs + [(x, x)], 2), hi, t);
    assert (rs + [(x, x)])[|rs| := (x, y)] == rs + [(x, y)];
  }

  lemma {:induction false} ReadItems(negated: bool, rs: seq<(int, int)>, afterOne: bool, items: seq<ClassItem>, t: seq<int>)
    requires OkItems(items, afterOne) && (afterOne ==> rs != [])
    ensures ClassFrom(ClassState(negated, rs, Step0(afterOne)), PrintItems(items) + t)
         == ClassFrom(ClassState(negated, rs + ItemRanges(items, afterOne),
                                 Step0(if items == [] then afterOne else items[|items| - 1].One?)), t)
    decreases |items|
  {
    if items == [] {
      assert PrintItems(items) + t == t && rs + ItemRanges(items, afterOne) == rs;
    } else {
      ReadClassItem(negated, rs, afterOne, items, t);
      ReadItems(negated, rs + [ItemRange(items[0])], items[0].One?, items[1..], t);
      MoreRanges(rs, items, afterOne);
    }
  }

  lemma MoreRanges(rs: seq<(int, int)>, items: seq<ClassItem>, afterOne: bool)
    requires items != [] && OkItems(items, afterOne)
    ensures rs + [ItemRange(items[0])] + ItemRanges(items[1..], items[0].One?) == rs + ItemRanges(items, afterOne)
  {
  }

  lemma FirstItem(items: seq<ClassItem>, afterOne: bool)
    requires items != [] && OkItems(items, afterOne)
    ensures OkItem(items[0]) && (afterOne ==> FirstChar(items[0]) != DASH) && OkItems(items[1..], items[0].One?)
  {
  }

  lemma ReadClassItem(negated: bool, rs: seq<(int, int)>, afterOne: bool, items: seq<ClassItem>, t: seq<int>)
    requires items != [] && OkItems(items, afterOne) && (afterOne ==> rs != [])
    ensures ClassFrom(ClassState(negated, rs, Step0(afterOne)), PrintItems(items) + t)
         == ClassFrom(ClassState(negated, rs + [ItemRange(items[0])], Step0(items[0].One?)), PrintItems(items[1..]) + t)
  {
    hide ClassFrom, OkItems, PrintClassChar;
    var u := PrintItems(items[1..]) + t;
    FirstItem(items, afterOne);
    match items[0] {
      case One(ch) =>
        assert (PrintClassChar(ch) + PrintItems(items[1..])) + t == PrintClassChar(ch) + u;
        ReadOne(negated, rs, afterOne, ch, u);
      case Span(lo, hi) =>
        var head := PrintClassChar(lo) + ['-' as int] + PrintClassChar(hi);
        assert (head + PrintItems(items[1..])) + t == head + u;
        ReadSpan(negated, rs, afterOne, lo, hi, u);
    }
  }

  lemma Regroup(a: seq<int>, b: seq<int>, c: seq<int>, d: seq<int>, t: seq<int>)
    ensures a + b + c + d + t == a + (b + (c + (d + t)))
  {
  }

  lemma ReadBracket(negated: bool, items: seq<ClassItem>, trailingDash: bool, t: seq<int>)
    requires OkBracket(negated, items, trailingDash)
    ensures ClassOf(AfterBracket(negated, items, trailingDash) + t) == Ok((BracketAtom(negated, items, trailingDash), t))
  {
    var tail := Mark(trailingDash, '-') + ([']' as int] + t);
    var p := AfterBracket(negated, items, trailingDash) + t;
    Regroup(Mark(negated, '^'), PrintItems(items), Mark(trailingDash, '-'), [']' as int], t);
    OpenBracket(negated, items, tail, p);
    NoPrefix(ItemRanges(items, false));
    ReadItems(negated, [], false, items, tail);
    CloseBracket(negated, ItemRanges(items, false), items[|items| - 1].One?, trailingDash, t);
  }

  lemma NoPrefix(rs: seq<(int, int)>)
    ensures [] + rs == rs
  {
  }

  lemma OpenBracket(negated: bool, items: seq<ClassItem>, tail: seq<int>, p: seq<int>)
    requires items != [] && (!negated ==> !StartsWithCaret(items))
    requires p == Mark(negated, '^') + (PrintItems(items) + tail)
    ensures ClassOf(p) == ClassFrom(ClassState(negated, [], 0), PrintItems(items) + tail)
  {
    if negated {
      assert p[1..] == PrintItems(items) + tail;
    } else {
      assert p == PrintItems(items) + tail;
      FirstOfItems(items, tail);
    }
  }

  lemma CloseBracket(negated: bool, rs: seq<(int, int)>, afterOne: bool, trailingDash: bool, t: seq<int>)
    requires rs != [] && (trailingDash ==> afterOne)
    ensures ClassFrom(ClassState(negated, rs, Step0(afterOne)), Mark(trailingDash, '-') + ([']' as int] + t))
         == Ok((Class(negated, rs + (if trailingDash then [('-' as int, '-' as int)] else [])), t))
  {
    var close := [']' as int] + t;
    assert close[1..] == t;
    if trailingDash {
      assert Mark(trailingDash, '-') == PrintClassChar(DASH);
      ReadClassChar(ClassState(negated, rs, 1), DASH, close);
    } else {
      assert [] + close == close && rs + [] == rs;
    }
  }

  lemma FirstOfItems(items: seq<ClassItem>, t: seq<int>)
    requires items != [] && !StartsWithCaret(items)
    ensures (PrintItems(items) + t)[0] != '^' as int
  {
  }

  /** ---- Operators left on the stack by an alternative, and their evaluation ---- */

  /** Operands pushed for p: the atoms are evaluated only when a lower operator or the end is met. */
  function Res(p: Pattern): seq<Re>
    requires WellFormed(p)
  {
    match p
    case Sequence(r, s) => [Core(r)] + Res(s)
    case Choice(r, s) => [Core(r)] + Res(s)
    case _ => [Core(p)]
  }

  function Ops(p: Pattern): seq<Operator> {
    match p
    case Sequence(_, s) => [Concatenation] + Ops(s)
    case Choice(_, s) => [Alternation] + Ops(s)
    case _ => []
  }

  /** Atoms in the last alternative. */
  function Atoms(p: Pattern): nat {
    match p
    case Sequence(_, s) => 1 + Atoms(s)
    case Choice(_, s) => Atoms(s)
    case _ => 1
  }

  lemma PairShape(r: Pattern, s: Pattern)
    ensures WellFormed(Sequence(r, s)) ==>
            WellFormed(r) && IsItem(r) && WellFormed(s) && !s.Choice? && Res(Sequence(r, s)) == [Core(r)] + Res(s)
    ensures WellFormed(Choice(r, s)) ==>
            WellFormed(r) && !r.Choice? && WellFormed(s) && Res(Choice(r, s)) == [Core(r)] + Res(s)
    ensures Ops(Sequence(r, s)) == [Concatenation] + Ops(s) && Atoms(Sequence(r, s)) == 1 + Atoms(s)
    ensures Ops(Choice(r, s)) == [Alternation] + Ops(s) && Atoms(Choice(r, s)) == Atoms(s)
  {
    hide Core;
  }

  lemma CorePair(r: Pattern, s: Pattern)
    ensures WellFormed(Sequence(r, s)) ==> WellFormed(r) && WellFormed(s) && Core(Sequence(r, s)) == Cat(Core(r), Core(s))
    ensures WellFormed(Choice(r, s)) ==> WellFormed(r) && WellFormed(s) && Core(Choice(r, s)) == Alt(Core(r), Core(s))
  {
  }

  lemma {:induction false} ReducePending(es: seq<Re>, ops: seq<Operator>, p: Pattern, until: set<Operator>)
    requires WellFormed(p) && Concatenation !in until && (p.Choice? ==> Alternation !in until)
    ensures Reduce(es + Res(p), ops + Ops(p), until) == Reduce(es + [Core(p)], ops, until)
    decreases p
  {
    match p
    case Sequence(r, s) => ReduceBinary(es, ops, p, Core(r), s, Concatenation, until);
    case Choice(r, s) =>  ReduceBinary(es, ops, p, Core(r), s, Alternation, until);
    case _ => assert ops + [] == ops;
  }

  lemma ReduceOne(es: seq<Re>, ops: seq<Operator>, a: Re, b: Re, op: Operator, until: set<Operator>)
    requires op !in until && (op == Concatenation || op == Alternation)
    ensures Reduce(es + [a] + [b], ops + [op], until)
         == Reduce(es + [if op == Concatenation then Cat(a, b) else Alt(a, b)], ops, until)
  {
    var es', ops' := es + [a] + [b], ops + [op];
    assert ops'[..|ops'| - 1] == ops && es'[..|es'| - 2] == es;
  }

  lemma {:induction false} ReduceBinary(
      es: seq<Re>, ops: seq<Operator>, p: Pattern, a: Re, s: Pattern, op: Operator, until: set<Operator>)
    requires WellFormed(p) && Concatenation !in until && op !in until
    requires (p.Sequence? && p.p2 == s && a == Core(p.p1) && op == Concatenation)
             || (p.Choice? && p.p2 == s && a == Core(p.p1) && op == Alternation)
    ensures Reduce(es + Res(p), ops + Ops(p), until) == Reduce(es + [Core(p)], ops, until)
    decreases p, 0
  {
    hide Core, Res, Ops, WellFormed, Reduce;
    PairShape(p.p1, s);
    CorePair(p.p1, s);
    assert es + ([a] + Res(s)) == (es + [a]) + Res(s) && ops + ([op] + Ops(s)) == (ops + [op]) + Ops(s);
    ReducePending(es + [a], ops + [op], s, until);
    ReduceOne(es, ops, a, Core(s), op, until);
  }

  /** ---- Reading ---- */

  function Top(st: Machine): nat
    requires |st.atomCounts| > 0
  {
    st.atomCounts[|st.atomCounts| - 1]
  }

  /** The machine after an expression read with k atoms before it in the same alternative. */
  function Pending(st: Machine, p: Pattern): (r: Machine)
    requires WellFormed(p) && |st.atomCounts| > 0
  {
    var cat := if Top(st) > 0 then [Concatenation] else [];
    st.(operands := st.operands + Res(p),
        operators := st.operators + cat + Ops(p),
        atomCounts := st.atomCounts[|st.atomCounts| - 1 := (if p.Choice? then 0 else Top(st)) + Atoms(p)])
  }

  /** Where an alternative may start: nothing pending since the last `|` or `(`. */
  predicate AtBoundary(st: Machine) {
    st.operators == [] || st.operators[|st.operators| - 1] in UNTIL_ALTERNATION
  }

  /** One step that reads `head`. */
  lemma Reads(st: Machine, head: seq<int>, rest: seq<int>, st': Machine)
    requires Balanced(st) && Balanced(st') && head != []
    requires ParseStep(st, head + rest) == Ok((st', rest))
    ensures ParseFrom(st, head + rest) == ParseFrom(st', rest)
  {
  }

  lemma {:induction false} ReadItem(st: Machine, p: Pattern, rest: seq<int>)
    requires WellFormed(p) && IsItem(p) && Balanced(st)
    ensures ParseFrom(st, Print(p) + rest) == ParseFrom(PushAtom(st, st.operands + [Core(p)]), rest)
    decreases p, 1
  {
    match p
    case Literal(ch) => ReadLiteral(st, ch, rest);
    case Dot =>
      assert (Print(p) + rest)[1..] == rest;
      Reads(st, Print(p), rest, PushAtom(st, st.operands + [Core(p)]));
    case Bracket(negated, items, dash) => ReadBracketAtom(st, negated, items, dash, rest);
    case Group(r) => ReadGroup(st, r, rest);
    case Quantified(r, q) => ReadQuantified(st, r, q, rest);
  }

  lemma ReadLiteral(st: Machine, ch: PatternChar, rest: seq<int>)
    requires OkChar(ch) && Balanced(st)
    ensures ParseFrom(st, PrintChar(ch) + rest) == ParseFrom(PushAtom(st, st.operands + [Leaf(Char(CharValue(ch)))]), rest)
  {
    hide ParseFrom, IsSyntax, PushLeaf;
    var p := PrintChar(ch) + rest;
    if ch.Raw? {
      assert p[1..] == rest;
      Reads(st, PrintChar(ch), rest, PushLeaf(st, Char(ch.c)));
    } else {
      EscapesAgree(ch.letter);
      assert p[1..][1..] == rest && p[1..][0] == ch.letter;
      Reads(st, PrintChar(ch), rest, PushLeaf(st, Char(CharValue(ch))));
    }
    PushedLeaf(st, Char(CharValue(ch)));
  }

  lemma PushedLeaf(st: Machine, a: Atom)
    requires Balanced(st)
    ensures PushLeaf(st, a) == PushAtom(st, st.operands + [Leaf(a)])
  {
  }

  lemma ReadBracketAtom(st: Machine, negated: bool, items: seq<ClassItem>, dash: bool, rest: seq<int>)
    requires OkBracket(negated, items, dash) && Balanced(st)
    ensures ParseFrom(st, Print(Bracket(negated, items, dash)) + rest)
         == ParseFrom(PushAtom(st, st.operands + [Leaf(BracketAtom(negated, items, dash))]), rest)
  {
    ReadBracket(negated, items, dash, rest);
    ReadClassAtom(st, AfterBracket(negated, items, dash), BracketAtom(negated, items, dash), rest);
  }

  lemma ReadClassAtom(st: Machine, after: seq<int>, a: Atom, rest: seq<int>)
    requires Balanced(st) && ClassOf(after + rest) == Ok((a, rest))
    ensures ParseFrom(st, ['[' as int] + after + rest) == ParseFrom(PushAtom(st, st.operands + [Leaf(a)]), rest)
  {
    hide ParseFrom, ClassOf, PushLeaf, Parens;
    assert (['[' as int] + after + rest)[1..] == after + rest;
    Reads(st, ['[' as int] + after, rest, PushLeaf(st, a));
    PushedLeaf(st, a);
  }

  lemma {:induction false} ReadGroup(st: Machine, r: Pattern, rest: seq<int>)
    requires WellFormed(r) && Balanced(st)
    ensures ParseFrom(st, Print(Group(r)) + rest) == ParseFrom(PushAtom(st, st.operands + [Core(r)]), rest)
    decreases Group(r), 0
  {
    var open := st.(operators := st.operators + [LeftParenthesis], atomCounts := st.atomCounts + [0]);
    var close := [')' as int] + rest;
    assert open.operators[..|st.operators|] == st.operators;
    assert Print(Group(r)) + rest == ['(' as int] + (Print(r) + close);
    assert (['(' as int] + (Print(r) + close))[1..] == Print(r) + close;
    Reads(st, ['(' as int], Print(r) + close, open);
    ReadPattern(open, r, close);
    CloseGroup(st, open, r, rest);
  }

  lemma CloseGroup(st: Machine, open: Machine, r: Pattern, rest: seq<int>)
    requires WellFormed(r) && Balanced(st) && Balanced(open)
    requires open == st.(operators := st.operators + [LeftParenthesis], atomCounts := st.atomCounts + [0])
    requires Balanced(Pending(open, r))
    ensures ParseFrom(Pending(open, r), [')' as int] + rest) == ParseFrom(PushAtom(st, st.operands + [Core(r)]), rest)
  {
    hide ParseFrom, Core, WellFormed, PushAtom, Pending, StepClose, Parens;
    ClosePending(st, open, r);
    assert ([')' as int] + rest)[1..] == rest;
    Reads(Pending(open, r), [')' as int], rest, PushAtom(st, st.operands + [Core(r)]));
  }

  lemma ClosePending(st: Machine, open: Machine, r: Pattern)
    requires WellFormed(r) && Balanced(st) && Balanced(open)
    requires open == st.(operators := st.operators + [LeftParenthesis], atomCounts := st.atomCounts + [0])
    requires Balanced(Pending(open, r))
    ensures StepClose(Pending(open, r)) == Ok(PushAtom(st, st.operands + [Core(r)]))
  {
    hide Core, WellFormed, Parens, Res, Ops, Atoms, Reduce;
    var mid := Pending(open, r);
    var es := st.operands + [Core(r)];
    assert open.operators + [] + Ops(r) == open.operators + Ops(r);
    ReducePending(st.operands, open.operators, r, UNTIL_PARENTHESIS);
    ReduceStops(es, open.operators, UNTIL_PARENTHESIS);
    assert open.operators[..|open.operators| - 1] == st.operators;
    assert mid.atomCounts[..|mid.atomCounts| - 1] == st.atomCounts;
  }

  lemma ReduceStops(es: seq<Re>, ops: seq<Operator>, until: set<Operator>)
    requires ops == [] || ops[|ops| - 1] in until
    ensures Reduce(es, ops, until) == Ok((es, ops))
  {
  }

  lemma {:induction false} ReadQuantified(st: Machine, r: Pattern, q: Quantifier, rest: seq<int>)
    requires WellFormed(r) && IsItem(r) && OkQuantifier(q) && Balanced(st)
    ensures ParseFrom(st, Print(Quantified(r, q)) + rest)
         == ParseFrom(PushAtom(st, st.operands + [QuantifiedCore(Core(r), q)]), rest)
    decreases Quantified(r, q), 0
  {
    var st1 := PushAtom(st, st.operands + [Core(r)]);
    var st2 := PushAtom(st, st.operands + [QuantifiedCore(Core(r), q)]);
    assert Print(Quantified(r, q)) + rest == Print(r) + (PrintQuantifier(q) + rest);
    ReadItem(st, r, PrintQuantifier(q) + rest);
    assert (st.operands + [Core(r)])[..|st.operands|] == st.operands;
    assert st2 == st1.(operands := st.operands + [QuantifiedCore(Core(r), q)]);
    ReadQuantifier(st1, st.operands, Core(r), q, rest);
    Reads(st1, PrintQuantifier(q), rest, st2);
  }

  lemma ReadQuantifier(st: Machine, es: seq<Re>, e: Re, q: Quantifier, rest: seq<int>)
    requires OkQuantifier(q) && Balanced(st) && st.operands == es + [e]
    ensures ParseStep(st, PrintQuantifier(q) + rest) == Ok((st.(operands := es + [QuantifiedCore(e, q)]), rest))
  {
    var p := PrintQuantifier(q) + rest;
    assert st.operands[..|es|] == es;
    if q.Optional? || q.Many? || q.AtLeastOnce? {
      assert p[1..] == rest;
    } else {
      ReadBraces(q, p, rest);
    }
  }

  lemma ReadBraces(q: Quantifier, p: seq<int>, rest: seq<int>)
    requires OkQuantifier(q) && (q.Exactly? || q.AtLeast? || q.Between?) && p == PrintQuantifier(q) + rest
    ensures p[0] == '{' as int
    ensures Bounds(p[1..]) == Ok((q.n, if q.Exactly? then q.n else if q.AtLeast? then INFINITY else q.m, ['}' as int] + rest))
    ensures (['}' as int] + rest)[1..] == rest
  {
    hide Bounds, Decimal;
    assert (['}' as int] + rest)[1..] == rest;
    match q
    case Exactly(n) => ReadExactly(n, rest);
    case AtLeast(n) => ReadAtLeast(n, rest);
    case Between(n, m) => ReadBetween(n, m, rest);
  }

  lemma BraceParts(a: seq<int>, b: seq<int>, t: seq<int>)
    ensures (['{' as int] + a + b + t)[1..] == a + (b + t)
    ensures (['{' as int] + a + b + t)[0] == '{' as int
  {
  }

  lemma BetweenParts(a: seq<int>, b: seq<int>, t: seq<int>)
    ensures (['{' as int] + a + [',' as int] + b + ['}' as int] + t)[1..] == a + ([',' as int] + (b + (['}' as int] + t)))
    ensures (['{' as int] + a + [',' as int] + b + ['}' as int] + t)[0] == '{' as int
  {
  }

  lemma ReadExactly(n: nat, rest: seq<int>)
    requires n < INFINITY
    ensures var p := PrintQuantifier(Exactly(n)) + rest;
            p[0] == '{' as int && Bounds(p[1..]) == Ok((n, n, ['}' as int] + rest))
  {
    hide Unsigned, Decimal;
    BraceParts(Decimal(n), ['}' as int], rest);
    ReadNumber(n, ['}' as int] + rest);
  }

  lemma ReadAtLeast(n: nat, rest: seq<int>)
    requires n < INFINITY
    ensures var p := PrintQuantifier(AtLeast(n)) + rest;
            p[0] == '{' as int && Bounds(p[1..]) == Ok((n, INFINITY, ['}' as int] + rest))
  {
    hide Unsigned, Decimal;
    BraceParts(Decimal(n), [',' as int, '}' as int], rest);
    var t := [',' as int, '}' as int] + rest;
    assert t[1..] == ['}' as int] + rest;
    ReadNumber(n, t);
  }

  lemma ReadBetween(n: nat, m: nat, rest: seq<int>)
    requires n <= m < INFINITY
    ensures var p := PrintQuantifier(Between(n, m)) + rest;
            p[0] == '{' as int && Bounds(p[1..]) == Ok((n, m, ['}' as int] + rest))
  {
    hide Unsigned, Decimal;
    BetweenParts(Decimal(n), Decimal(m), rest);
    var u := Decimal(m) + (['}' as int] + rest);
    var t := [',' as int] + u;
    assert t[1..] == u && u[0] == Decimal(m)[0];
    ReadNumber(n, t);
    ReadNumber(m, ['}' as int] + rest);
  }

  /** An alternative, read after Top(st) atoms. */
  lemma {:induction false} ReadSequence(st: Machine, p: Pattern, rest: seq<int>)
    requires WellFormed(p) && !p.Choice? && Balanced(st)
    ensures Balanced(Pending(st, p))
    ensures ParseFrom(st, Print(p) + rest) == ParseFrom(Pending(st, p), rest)
    decreases p, 2
  {
    hide ParseFrom, PushAtom, Core, Parens, Res, Ops, Atoms, Pending;
    if p.Sequence? {
      var st1 := PushAtom(st, st.operands + [Core(p.p1)]);
      PrintedPair(p, rest);
      ReadItem(st, p.p1, Print(p.p2) + rest);
      ReadSequence(st1, p.p2, rest);
      PendingSequence(st, p.p1, p.p2);
    } else {
      ReadItem(st, p, rest);
      PendingItem(st, p);
    }
  }

  lemma PrintedPair(p: Pattern, rest: seq<int>)
    ensures p.Sequence? ==> Print(p) + rest == Print(p.p1) + (Print(p.p2) + rest)
    ensures p.Choice? ==> Print(p) + rest == Print(p.p1) + (['|' as int] + (Print(p.p2) + rest))
  {
    hide PrintChar, AfterBracket, PrintQuantifier;
    match p
    case Sequence(r, s) => assert (Print(r) + Print(s)) + rest == Print(r) + (Print(s) + rest);
    case Choice(r, s) => Regroup(Print(r), ['|' as int], Print(s), [], rest);
    case _ =>
  }

  lemma PendingItem(st: Machine, p: Pattern)
    requires WellFormed(p) && IsItem(p) && |st.atomCounts| > 0
    ensures Pending(st, p) == PushAtom(st, st.operands + [Core(p)])
  {
    hide Core;
    var cat := if Top(st) > 0 then [Concatenation] else [];
    assert st.operators + cat + [] == st.operators + cat;
  }

  lemma PendingSequence(st: Machine, r: Pattern, s: Pattern)
    requires WellFormed(Sequence(r, s)) && |st.atomCounts| > 0
    ensures Pending(PushAtom(st, st.operands + [Core(r)]), s) == Pending(st, Sequence(r, s))
  {
    hide Core, WellFormed, Res, Ops, Atoms, Parens;
    PairShape(r, s);
    var cat := if Top(st) > 0 then [Concatenation] else [];
    var st1 := PushAtom(st, st.operands + [Core(r)]);
    assert (st.operands + [Core(r)]) + Res(s) == st.operands + ([Core(r)] + Res(s));
    assert (st.operators + cat) + [Concatenation] + Ops(s) == st.operators + cat + ([Concatenation] + Ops(s));
  }

  /** After the first alternative and its `|`. */
  function AfterBar(st: Machine, r: Pattern): Machine
    requires WellFormed(r)
  {
    st.(operands := st.operands + [Core(r)], operators := st.operators + [Alternation])
  }

  lemma AfterBarOk(st: Machine, r: Pattern)
    requires WellFormed(r) && Balanced(st) && Top(st) == 0
    ensures Balanced(AfterBar(st, r)) && Top(AfterBar(st, r)) == 0 && AtBoundary(AfterBar(st, r))
  {
    hide Core;
    assert AfterBar(st, r).operators[..|st.operators|] == st.operators;
  }

  /** A whole expression, from the start of an alternative. */
  lemma {:induction false} ReadPattern(st: Machine, p: Pattern, rest: seq<int>)
    requires WellFormed(p) && Balanced(st) && Top(st) == 0 && AtBoundary(st)
    ensures Balanced(Pending(st, p))
    ensures ParseFrom(st, Print(p) + rest) == ParseFrom(Pending(st, p), rest)
    decreases p, 3
  {
    hide ParseFrom, Core, Parens, Res, Ops, Atoms, Pending, AfterBar, AtBoundary;
    if p.Choice? {
      PairShape(p.p1, p.p2);
      PrintedPair(p, rest);
      ReadSequence(st, p.p1, ['|' as int] + (Print(p.p2) + rest));
      AfterBarOk(st, p.p1);
      ReadBar(st, p.p1, Print(p.p2) + rest);
      ReadPattern(AfterBar(st, p.p1), p.p2, rest);
      PendingChoice(st, p.p1, p.p2);
    } else {
      ReadSequence(st, p, rest);
    }
  }

  lemma ReadBar(st: Machine, r: Pattern, rest: seq<int>)
    requires WellFormed(r) && !r.Choice? && Balanced(st) && Top(st) == 0 && AtBoundary(st) && Balanced(Pending(st, r))
    ensures Balanced(AfterBar(st, r)) && ParseFrom(Pending(st, r), ['|' as int] + rest) == ParseFrom(AfterBar(st, r), rest)
  {
    hide ParseFrom, Core, Parens, Res, Ops, Atoms, Pending, AfterBar, AtBoundary, StepBar;
    AfterBarOk(st, r);
    BarPending(st, r);
    assert (['|' as int] + rest)[1..] == rest;
    Reads(Pending(st, r), ['|' as int], rest, AfterBar(st, r));
  }

  lemma BarPending(st: Machine, r: Pattern)
    requires WellFormed(r) && !r.Choice? && Balanced(st) && Top(st) == 0 && AtBoundary(st) && Balanced(Pending(st, r))
    ensures StepBar(Pending(st, r)) == Ok(AfterBar(st, r))
  {
    hide Core, WellFormed, Parens, Res, Ops, Atoms, Reduce;
    var mid := Pending(st, r);
    assert st.operators + [] + Ops(r) == st.operators + Ops(r);
    ReducePending(st.operands, st.operators, r, UNTIL_ALTERNATION);
    ReduceStops(st.operands + [Core(r)], st.operators, UNTIL_ALTERNATION);
    assert mid.atomCounts[|mid.atomCounts| - 1 := 0] == st.atomCounts;
  }

  lemma PendingChoice(st: Machine, r: Pattern, s: Pattern)
    requires WellFormed(Choice(r, s)) && |st.atomCounts| > 0 && Top(st) == 0
    ensures Pending(AfterBar(st, r), s) == Pending(st, Choice(r, s))
  {
    hide Core, WellFormed, Res, Ops, Atoms, Parens;
    PairShape(r, s);
    var a := [Core(r)];
    assert (st.operands + a) + Res(s) == st.operands + (a + Res(s));
    assert (st.operators + [Alternation]) + [] + Ops(s) == st.operators + [] + ([Alternation] + Ops(s));
  }

  /** The text of a pattern with optional anchors at its two ends. */
  function PrintAnchored(p: Pattern, begin: bool, end: bool): seq<int> {
    Mark(begin, '^') + Print(p) + Mark(end, '$')
  }

  /** The end of the pattern. */
  lemma ReadEnd(st0: Machine, p: Pattern, st: Machine)
    requires WellFormed(p) && Balanced(st0) && st0.operands == [] && st0.operators == [] && Top(st0) == 0
    requires st == Pending(st0, p).(anchorEnd := st.anchorEnd)
    ensures Finish(st) == Ok((Core(p), st0.anchorBegin, st.anchorEnd))
  {
    hide Core, WellFormed, Parens, Res, Ops, Atoms, Reduce;
    var es: seq<Re>, ops: seq<Operator> := [], [];
    ReducePending(es, ops, p, {});
    ReduceStops(es + [Core(p)], ops, {});
    assert ops + [] + Ops(p) == ops + Ops(p);
    assert es + [Core(p)] == [Core(p)];
  }

  lemma ReadBegin(begin: bool, t: seq<int>)
    ensures Balanced(INITIAL.(anchorBegin := begin))
    ensures ParseFrom(INITIAL, Mark(begin, '^') + t) == ParseFrom(INITIAL.(anchorBegin := begin), t)
  {
    hide ParseFrom;
    assert Balanced(INITIAL) && Balanced(INITIAL.(anchorBegin := begin));
    if begin {
      assert (['^' as int] + t)[1..] == t;
      Reads(INITIAL, ['^' as int], t, INITIAL.(anchorBegin := true));
    } else {
      assert [] + t == t;
    }
  }

  lemma ReadDollar(st: Machine, end: bool)
    requires Balanced(st) && !st.anchorEnd
    ensures ParseFrom(st, Mark(end, '$')) == Ok(st.(anchorEnd := end))
  {
    if end {
      assert ['$' as int][1..] == [];
    }
  }

  /** THE PARSER READS WHAT IS PRINTED. Every well-formed pattern, anchored or not, parses to its expression. */
  lemma ParsePrinted(p: Pattern, begin: bool, end: bool)
    requires WellFormed(p)
    ensures ParsePattern(PrintAnchored(p, begin, end)) == Ok((Core(p), begin, end))
  {
    hide ParseFrom, Core, WellFormed, Print, Finish, Res, Ops, Atoms, Parens;
    var st0 := INITIAL.(anchorBegin := begin);
    var tail := Mark(end, '$');
    assert PrintAnchored(p, begin, end) == Mark(begin, '^') + (Print(p) + tail);
    ReadBegin(begin, Print(p) + tail);
    ReadPattern(st0, p, tail);
    ReadDollar(Pending(st0, p), end);
    ReadEnd(st0, p, Pending(st0, p).(anchorEnd := end));
  }
}
