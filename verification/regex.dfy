/** The regular-expression engine of internal/regex.h as it is written: stacks of fragments, a state table patched in
    place, and the simulation over two lists of states and a bit set. */
module Regex {
  import opened Decimals
  import opened RegexLanguage
  import opened RegexFragments
  import opened RegexAcceptance
  import opened RegexTermination
  import opened RegexConstruction
  import opened RegexParser
  import opened RegexSimulation

  /** The code points of a text; reading yields 0 at its end, or at a 0 in it. Decoding is not part of this module. */
  class DecodedStream {
    var rest: seq<int>

    constructor (text: seq<int>)
      ensures rest == text
    {
      rest := text;
    }

    function Peek(): (c: int)
      reads this
    {
      if rest == [] then 0 else rest[0]
    }

    method Take() returns (c: int)
      modifies this
      ensures c == old(Peek())
      ensures rest == if old(Peek()) == 0 then old(rest) else old(rest)[1..]
    {
      c := Peek();
      if c != 0 {
        rest := rest[1..];
      }
    }
  }

  /** ---- Repetition on the stack of expressions ---- */

  function Copies(e: Re, n: nat): (es: seq<Re>)
    ensures |es| == n
  {
    seq(n, i => e)
  }

  /** n evaluations of the concatenation operator. */
  function Joined(es: seq<Re>, n: nat): (r: seq<Re>)
    requires n < |es|
    ensures |r| == |es| - n
    decreases n
  {
    if n == 0 then es
    else Joined(es[..|es| - 2] + [Cat(es[|es| - 2], es[|es| - 1])], n - 1)
  }

  lemma {:induction false} PrefixedInner(e: Re, n: nat, t: Re)
    ensures Prefixed(e, n, Cat(e, t)) == Prefixed(e, n + 1, t)
  {
    if n > 0 {
      PrefixedInner(e, n - 1, t);
    }
  }

  lemma {:induction false} PrefixedOptions(e: Re, n: nat)
    ensures Prefixed(Opt(e), n, Opt(e)) == Options(e, n + 1)
  {
    if n > 0 {
      PrefixedOptions(e, n - 1);
    }
  }

  lemma {:induction false} JoinedPrefixed(base: seq<Re>, e: Re, n: nat, t: Re)
    ensures Joined(base + Copies(e, n) + [t], n) == base + [Prefixed(e, n, t)]
  {
    hide Prefixed;
    if n == 0 {
      assert base + Copies(e, 0) + [t] == base + [t];
      assert Prefixed(e, 0, t) == t by { PrefixedNone(e, t); }
    } else {
      var es := base + Copies(e, n) + [t];
      assert es[..|es| - 2] + [Cat(e, t)] == base + Copies(e, n - 1) + [Cat(e, t)];
      JoinedPrefixed(base, e, n - 1, Cat(e, t));
      PrefixedInner(e, n - 1, t);
    }
  }

  lemma PrefixedNone(e: Re, t: Re)
    ensures Prefixed(e, 0, t) == t
  {
  }

  lemma {:induction false} JoinedMore(es: seq<Re>, n: nat, m: nat)
    requires n + m < |es|
    ensures Joined(Joined(es, n), m) == Joined(es, n + m)
    decreases n
  {
    if n > 0 {
      JoinedMore(es[..|es| - 2] + [Cat(es[|es| - 2], es[|es| - 1])], n - 1, m);
    }
  }

  /** Copies in front of a block of optional copies. */
  lemma JoinedOptions(base: seq<Re>, e: Re, n: nat, k: nat)
    requires k > 0
    ensures Joined(base + Copies(e, n) + Copies(Opt(e), k), n + k - 1) == base + [Prefixed(e, n, Options(e, k))]
  {
    hide Joined, Prefixed, Options;
    var es := base + Copies(e, n) + Copies(Opt(e), k);
    assert es == (base + Copies(e, n)) + Copies(Opt(e), k - 1) + [Opt(e)];
    JoinedPrefixed(base + Copies(e, n), Opt(e), k - 1, Opt(e));
    PrefixedOptions(e, k - 1);
    JoinedPrefixed(base, e, n, Options(e, k));
    JoinedMore(es, k - 1, n);
  }

  /** ---- Patching ---- */

  lemma PatchNone(ss: seq<State>, lo: nat, outs: seq<nat>, k: int)
    ensures PatchAll(ss, lo, outs[..0], k) == ss
  {
  }

  lemma PatchOne(ss: seq<State>, lo: nat, outs: seq<nat>, i: nat, k: int)
    requires i < |outs| && lo + outs[i] < |ss| && Distinct(outs)
    ensures PatchAll(ss, lo, outs[..i], k)[lo + outs[i]] == ss[lo + outs[i]]
    ensures PatchAll(ss, lo, outs[..i], k)[lo + outs[i] := ss[lo + outs[i]].(out := k)] == PatchAll(ss, lo, outs[..i + 1], k)
  {
    var at := lo + outs[i];
    assert at - lo == outs[i] && outs[i] !in outs[..i];
    assert outs[..i + 1] == outs[..i] + [outs[i]];
    hide Distinct;
    var left, right := PatchAll(ss, lo, outs[..i], k)[at := ss[at].(out := k)], PatchAll(ss, lo, outs[..i + 1], k);
    forall j | 0 <= j < |ss| ensures left[j] == right[j] {
      assert j - lo in outs[..i + 1] <==> j - lo in outs[..i] || j == at;
    }
    assert left == right;
  }

  /** Entry j of a chain of n ranges from base on. */
  ghost predicate Entry(r: Range, base: nat, n: nat, j: nat, pair: (int, int)) {
    r.start == pair.0 && r.end == pair.1 && r.next == (if j + 1 < n then base + j + 1 else INVALID) && 0 <= pair.0 < NEGATION_FLAG
  }

  /** The ranges of an open class: a chain without its negation flag, or nothing yet. */
  ghost predicate OpenChain(rg: seq<Range>, base: nat, start: int, current: int, rs: seq<(int, int)>) {
    && |rg| == base + |rs|
    && (forall j | 0 <= j < |rs| :: Entry(rg[base + j], base, |rs|, j, rs[j]))
    && if rs == [] then start == INVALID && current == INVALID else start == base && current == |rg| - 1
  }

  function Relink(rg: seq<Range>, current: int, next: int): seq<Range>
    requires current != INVALID ==> 0 <= current < |rg|
  {
    if current != INVALID then rg[current := rg[current].(next := next)] else rg
  }

  lemma ChainPush(rg: seq<Range>, base: nat, start: int, current: int, rs: seq<(int, int)>, c: int)
    requires OpenChain(rg, base, start, current, rs) && 0 <= c < NEGATION_FLAG
    ensures var rg' := Relink(rg + [Range(c, c, INVALID)], current, |rg|);
            rg'[..base] == rg[..base] && OpenChain(rg', base, base, |rg|, rs + [(c, c)])
  {
    var rg', rs' := Relink(rg + [Range(c, c, INVALID)], current, |rg|), rs + [(c, c)];
    forall j | 0 <= j < |rs'| ensures Entry(rg'[base + j], base, |rs'|, j, rs'[j]) {
      if j < |rs| {
        assert Entry(rg[base + j], base, |rs|, j, rs[j]);
      }
    }
  }

  lemma ChainEnd(rg: seq<Range>, base: nat, rs: seq<(int, int)>, c: int)
    requires OpenChain(rg, base, base, |rg| - 1, rs) && rs != []
    ensures var n := |rs| - 1; var rg' := rg[|rg| - 1 := rg[|rg| - 1].(end := c)];
            rg'[..base] == rg[..base] && OpenChain(rg', base, base, |rg| - 1, rs[n := (rs[n].0, c)])
  {
    var n := |rs| - 1;
    var rg', rs' := rg[|rg| - 1 := rg[|rg| - 1].(end := c)], rs[n := (rs[n].0, c)];
    forall j | 0 <= j < |rs'| ensures Entry(rg'[base + j], base, |rs'|, j, rs'[j]) {
      assert Entry(rg[base + j], base, |rs|, j, rs[j]);
    }
  }

  lemma InitialTiles(rg: seq<Range>)
    ensures Tiles([], rg, [], [], 0) && Balanced(INITIAL)
  {
  }

  lemma OpenStep(st: Machine)
    requires Balanced(st)
    ensures StepOpen(st) == st.(operators := st.operators + [LeftParenthesis], atomCounts := st.atomCounts + [0])
  {
  }

  lemma PushedAtom(st: Machine, es: seq<Re>)
    requires Balanced(st)
    ensures PushAtom(st, es) == st.(operands := es, operators := PushAtom(st, es).operators, atomCounts := PushAtom(st, es).atomCounts)
  {
  }

  /** An open parenthesis has its atom count. */
  lemma CloseCounts(st: Machine, ops: seq<Operator>)
    requires Balanced(st) && ops != [] && ops[|ops| - 1] == LeftParenthesis && Parens(ops) == Parens(st.operators)
    ensures |st.atomCounts| > 1
    ensures Balanced(st.(operators := ops[..|ops| - 1], atomCounts := st.atomCounts[..|st.atomCounts| - 1]))
  {
  }

  /** One round of the loop of `ParseUnsigned`. */
  lemma UnsignedUnfold(r: nat, p: seq<int>)
    requires r <= INFINITY
    ensures UnsignedFrom(r, p)
         == if p == [] || !IsDigit(p[0]) then Ok((r, p))
            else if r >= 429496729 && p[0] > '5' as int then Reject
            else UnsignedFrom((r * 10 + (p[0] - '0' as int)) % 0x1_0000_0000, p[1..])
  {
  }

  /** One round of the loop of `ParseRange`. */
  lemma ClassUnfold(st: ClassState, p: seq<int>)
    requires st.step == 2 ==> st.ranges != []
    ensures p == [] ==> ClassFrom(st, p) == Reject
    ensures p != [] && p[0] == ']' as int && st.ranges == [] ==> ClassFrom(st, p) == Reject
    ensures p != [] && p[0] == ']' as int && st.ranges != [] ==>
            ClassFrom(st, p) == Ok((Class(st.negated, if st.step == 2 then st.ranges + [('-' as int, '-' as int)] else st.ranges), p[1..]))
    ensures p != [] && p[0] != ']' as int && p[0] != '\\' as int ==> ClassFrom(st, p) == ClassFrom(ClassChar(st, p[0]), p[1..])
    ensures p != [] && p[0] == '\\' as int && |p| < 2 ==> ClassFrom(st, p) == Reject
    ensures |p| >= 2 && p[0] == '\\' as int && p[1] == 'b' as int ==> ClassFrom(st, p) == ClassFrom(ClassChar(st, 0x08), p[1..][1..])
    ensures |p| >= 2 && p[0] == '\\' as int && p[1] != 'b' as int ==>
            ClassFrom(st, p) == if EscapeValue(p[1]).Ok? then ClassFrom(ClassChar(st, EscapeValue(p[1]).value), p[1..][1..]) else Reject
  {
    hide EscapeValue;
    assert |p| >= 2 ==> p[1..][1..] == p[2..];
  }

  function Flagged(rg: seq<Range>, base: nat, negated: bool): seq<Range>
    requires base < |rg|
  {
    if negated then rg[base := rg[base].(start := rg[base].start + NEGATION_FLAG)] else rg
  }

  lemma ChainFlag(rg: seq<Range>, base: nat, current: int, rs: seq<(int, int)>, negated: bool)
    requires OpenChain(rg, base, base, current, rs) && rs != []
    ensures Chain(Flagged(rg, base, negated), base, negated, rs)
  {
    var rg' := Flagged(rg, base, negated);
    forall j | 0 <= j < |rs|
      ensures rg'[base + j].start == rs[j].0 + (if negated && j == 0 then NEGATION_FLAG else 0)
      ensures rg'[base + j].end == rs[j].1
      ensures rg'[base + j].next == (if j + 1 < |rs| then base + j + 1 else INVALID)
      ensures 0 <= rs[j].0 < NEGATION_FLAG
    {
      assert Entry(rg[base + j], base, |rs|, j, rs[j]);
    }
  }

  /** Code points of a pattern. */
  predicate PatternText(p: seq<int>) {
    forall i | 0 <= i < |p| :: 0 < p[i] < NEGATION_FLAG
  }

  /** The states and ranges of an automaton once the block of e is linked to the matching state. */
  lemma FinishBlock(ss: seq<State>, rg: seq<Range>, e: Re)
    requires Block(ss, rg, e, 0) && |ss| == Size(e)
    ensures var ss' := ss + [State(INVALID, INVALID, INVALID, 0)];
            && Threaded(ss', 0, Outs(e)) && Distinct(Outs(e))
            && Compiled(PatchAll(ss', 0, Outs(e), |ss|), rg, e)
  {
    hide Size, Outs, Wired, Threaded, Linked, PatchAll, Distinct;
    var ss' := ss + [State(INVALID, INVALID, INVALID, 0)];
    BlockFrame(ss, rg, ss', rg, e, 0);
    OutsDistinct(e);
    PatchBlock(ss', rg, e, 0, |ss|);
    assert PatchAll(ss', 0, Outs(e), |ss|)[|ss|] == ss'[|ss|];
  }

  lemma TilesOne(ss: seq<State>, rg: seq<Range>, frags: seq<Frag>, es: seq<Re>)
    requires Tiles(ss, rg, frags, es, |ss|) && |es| == 1
    ensures |frags| == 1 && frags[0] == FragOf(es[0], 0) && Block(ss, rg, es[0], 0) && |ss| == Size(es[0])
  {
    hide Size, FragOf, Block;
    assert Tiles(ss, rg, frags[..0], es[..0], |ss| - Size(es[0]));
  }

  function Min(a: int, b: int): int {
    if a < b then a else b
  }

  function Shifts(ss: seq<State>, d: nat): (r: seq<State>)
    ensures |r| == |ss| && forall i | 0 <= i < |ss| :: r[i] == Shift(ss[i], d)
  {
    seq(|ss|, i requires 0 <= i < |ss| => Shift(ss[i], d))
  }

  lemma ShiftsShifted(ss: seq<State>, lo: nat, d: nat)
    requires lo + d == |ss|
    ensures Shifted(ss, ss + Shifts(ss[lo..], d), lo, d, d)
  {
    var ss' := ss + Shifts(ss[lo..], d);
    forall i | lo <= i < lo + d ensures ss'[i + d] == Shift(ss[i], d) {
      assert ss[lo..][i - lo] == ss[i];
    }
  }

  class GenericRegex {
    var states: seq<State>
    var ranges: seq<Range>
    var root: int
    var anchorBegin: bool
    var anchorEnd: bool
    /** The expression the states implement, once the pattern has been accepted. */
    ghost var expression: Re

    predicate IsValid()
      reads this
    {
      root != INVALID
    }

    /** A valid regex holds the automaton of its expression. */
    ghost predicate Consistent()
      reads this
    {
      IsValid() ==> Compiled(states, ranges, expression) && root == Start(expression)
    }

    /** THE COMPILER IS CORRECT. The regex is valid exactly when the pattern parses; its table is then the automaton
        of the pattern's expression. A pattern on which an assertion of the parser fails is not accepted. */
    constructor (pattern: seq<int>)
      requires PatternText(pattern)
      requires !ParsePattern(pattern).AssertFails?
      ensures Consistent()
      ensures IsValid() <==> ParsePattern(pattern).Ok?
      ensures IsValid() ==> ParsePattern(pattern) == Ok((expression, anchorBegin, anchorEnd))
    {
      states, ranges, root, anchorBegin, anchorEnd := [], [], INVALID, false, false;
      expression := Leaf(AnyChar);
      new;
      var ds := new DecodedStream(pattern);
      Parse(ds);
    }

    /** The operand stack tiles the table with blocks for es. */
    ghost predicate Stacked(operands: seq<Frag>, es: seq<Re>)
      reads this
    {
      Tiles(states, ranges, operands, es, |states|)
    }

    method NewState(out: int, out1: int, codepoint: int) returns (index: nat)
      modifies this`states
      ensures index == |old(states)| && states == old(states) + [State(out, out1, INVALID, codepoint)]
    {
      index := |states|;
      states := states + [State(out, out1, INVALID, codepoint)];
    }

    /** Follows the list of exits and redirects each to s. */
    method Patch(l: int, s: int, ghost lo: nat, ghost outs: seq<nat>)
      requires Threaded(states, lo, outs) && Distinct(outs) && outs != [] && l == lo + outs[0]
      modifies this`states
      ensures states == PatchAll(old(states), lo, outs, s)
    {
      var p := l;
      ghost var i := 0;
      PatchNone(states, lo, outs, s);
      while p != INVALID
        invariant i <= |outs| && p == if i < |outs| then lo + outs[i] else INVALID
        invariant states == PatchAll(old(states), lo, outs[..i], s)
        decreases |outs| - i
      {
        assert lo + outs[i] < |states|;
        PatchOne(old(states), lo, outs, i, s);
        var next := states[p].out;
        states := states[p := states[p].(out := s)];
        p, i := next, i + 1;
      }
      assert outs[..i] == outs;
    }

    /** Follows the list of exits and makes its last one lead to l2. */
    method Append(l1: int, l2: int, ghost lo: nat, ghost outs: seq<nat>) returns (head: int)
      requires Threaded(states, lo, outs) && outs != [] && l1 == lo + outs[0]
      modifies this`states
      ensures head == l1
      ensures var last := lo + outs[|outs| - 1];
              last < |old(states)| && states == old(states)[last := old(states)[last].(out := l2)]
    {
      head := l1;
      var p := l1;
      ghost var i := 0;
      while states[p].out != INVALID
        invariant 0 <= i < |outs| && p == lo + outs[i] && states == old(states)
        decreases |outs| - i
      {
        p, i := states[p].out, i + 1;
      }
      states := states[p := states[p].(out := l2)];
    }

    method PushOperand(operands: seq<Frag>, codepoint: int, ghost es: seq<Re>, ghost a: Atom) returns (operands': seq<Frag>)
      requires Stacked(operands, es)
      requires AtomState(ranges, State(INVALID, INVALID, INVALID, codepoint), a)
      modifies this`states
      ensures Stacked(operands', es + [Leaf(a)])
    {
      hide Tiles, AtomState;
      LeafTiles(states, ranges, ranges, operands, es, a, State(INVALID, INVALID, INVALID, codepoint));
      var s := NewState(INVALID, INVALID, codepoint);
      operands' := operands + [Frag(s, s, s)];
    }

    /** Every operator keeps the tiling, and does to the expressions what `EvalRe` says. */
    method Eval(operands: seq<Frag>, op: Operator, ghost es: seq<Re>) returns (ok: bool, operands': seq<Frag>)
      requires Stacked(operands, es) && !EvalRe(es, op).AssertFails?
      modifies this`states
      ensures ok <==> EvalRe(es, op).Ok?
      ensures ok ==> Stacked(operands', EvalRe(es, op).value)
    {
      hide Tiles;
      ok, operands' := false, operands;
      TilesCount(states, ranges, operands, es, |states|);
      match op
      case Concatenation => operands' := EvalConcatenation(operands, es); ok := true;
      case Alternation => if |operands| >= 2 { operands' := EvalAlternation(operands, es); ok := true; }
      case ZeroOrOne => if |operands| >= 1 { operands' := EvalZeroOrOne(operands, es); ok := true; }
      case ZeroOrMore => if |operands| >= 1 { operands' := EvalLoop(operands, es, false); ok := true; }
      case OneOrMore => if |operands| >= 1 { operands' := EvalLoop(operands, es, true); ok := true; }
      case LeftParenthesis =>
    }

    method EvalConcatenation(operands: seq<Frag>, ghost es: seq<Re>) returns (operands': seq<Frag>)
      requires Stacked(operands, es) && |operands| == |es| >= 2
      modifies this`states
      ensures Stacked(operands', es[..|es| - 2] + [Cat(es[|es| - 2], es[|es| - 1])])
    {
      hide Tiles, Block, Outs, Size, Start, PatchAll, Threaded, Distinct;
      ghost var a, b := es[|es| - 2], es[|es| - 1];
      ghost var lo := TilesTopTwo(states, ranges, operands, es, |states|);
      BlockExits(states, ranges, a, lo);
      BlockExits(states, ranges, b, lo + Size(a));
      CatTiles(states, ranges, operands[..|es| - 2], es[..|es| - 2], lo, a, b);
      var e2, e1 := operands[|operands| - 1], operands[|operands| - 2];
      Patch(e1.out, e2.start, lo, Outs(a));
      operands' := operands[..|operands| - 2] + [Frag(e1.start, e2.out, Min(e1.minIndex, e2.minIndex))];
    }

    method EvalAlternation(operands: seq<Frag>, ghost es: seq<Re>) returns (operands': seq<Frag>)
      requires Stacked(operands, es) && |operands| == |es| >= 2
      modifies this`states
      ensures Stacked(operands', es[..|es| - 2] + [Alt(es[|es| - 2], es[|es| - 1])])
    {
      hide Tiles, Block, Outs, Size, Start, Threaded;
      ghost var a, b := es[|es| - 2], es[|es| - 1];
      ghost var lo := TilesTopTwo(states, ranges, operands, es, |states|);
      BlockExits(states, ranges, a, lo);
      BlockExits(states, ranges, b, lo + Size(a));
      var e2, e1 := operands[|operands| - 1], operands[|operands| - 2];
      AltTiles(states, ranges, operands[..|es| - 2], es[..|es| - 2], lo, a, b, State(e1.start, e2.start, INVALID, 0));
      var s := NewState(e1.start, e2.start, 0);
      ThreadedFrame(old(states), states, lo, Size(a), Outs(a));
      var head := Append(e1.out, e2.out, lo, Outs(a));
      operands' := operands[..|operands| - 2] + [Frag(s, head, Min(e1.minIndex, e2.minIndex))];
    }

    method EvalZeroOrOne(operands: seq<Frag>, ghost es: seq<Re>) returns (operands': seq<Frag>)
      requires Stacked(operands, es) && |operands| == |es| >= 1
      modifies this`states
      ensures Stacked(operands', es[..|es| - 1] + [Opt(es[|es| - 1])])
    {
      hide Tiles, Block, Outs, Size, Start, Threaded;
      ghost var a := es[|es| - 1];
      ghost var lo := TilesTop(states, ranges, operands, es, |states|);
      BlockExits(states, ranges, a, lo);
      var e := operands[|operands| - 1];
      OptTiles(states, ranges, operands[..|es| - 1], es[..|es| - 1], lo, a, State(INVALID, e.start, INVALID, 0));
      var s := NewState(INVALID, e.start, 0);
      ThreadedFrame(old(states), states, lo, Size(a), Outs(a));
      var head := Append(e.out, s, lo, Outs(a));
      operands' := operands[..|operands| - 1] + [Frag(s, head, e.minIndex)];
    }

    /** `*` and `+` differ in where the new fragment is entered. */
    method EvalLoop(operands: seq<Frag>, ghost es: seq<Re>, once: bool) returns (operands': seq<Frag>)
      requires Stacked(operands, es) && |operands| == |es| >= 1
      modifies this`states
      ensures Stacked(operands', es[..|es| - 1] + [if once then Plus(es[|es| - 1]) else Star(es[|es| - 1])])
    {
      hide Tiles, Block, Outs, Size, Start, Threaded, PatchAll;
      ghost var a := es[|es| - 1];
      ghost var lo := TilesTop(states, ranges, operands, es, |states|);
      BlockExits(states, ranges, a, lo);
      var e := operands[|operands| - 1];
      LoopTiles(states, ranges, operands[..|es| - 1], es[..|es| - 1], lo, a, State(INVALID, e.start, INVALID, 0));
      var s := NewState(INVALID, e.start, 0);
      ThreadedFrame(old(states), states, lo, Size(a), Outs(a));
      Patch(e.out, s, lo, Outs(a));
      operands' := operands[..|operands| - 1] + [Frag(if once then e.start else s, s, e.minIndex)];
    }

    /** Appends a copy of the states from the top fragment's first one on. */
    method CloneTopOperand(operands: seq<Frag>, ghost es: seq<Re>) returns (operands': seq<Frag>)
      requires Stacked(operands, es) && es != []
      modifies this`states
      ensures Stacked(operands', es + [es[|es| - 1]])
    {
      hide Tiles, Block, Outs, Size, Start;
      ghost var lo := TilesTop(states, ranges, operands, es, |states|);
      var src := operands[|operands| - 1];
      var count := |states| - src.minIndex;
      ShiftsShifted(states, src.minIndex, count);
      states := states + Shifts(states[src.minIndex..], count);
      CloneTiles(old(states), states, ranges, operands, es, lo);
      operands' := operands + [Frag(src.start + count, src.out + count, src.minIndex + count)];
    }

    /** `CloneTopOperand`, count times. */
    method CloneTimes(operands: seq<Frag>, count: nat, ghost es: seq<Re>, ghost e: Re) returns (operands': seq<Frag>)
      requires Stacked(operands, es + [e])
      modifies this`states
      ensures Stacked(operands', es + Copies(e, count + 1))
    {
      hide Tiles;
      operands' := operands;
      assert [e] == Copies(e, 1);
      for i := 0 to count
        invariant Stacked(operands', es + Copies(e, i + 1))
      {
        ghost var now := es + Copies(e, i + 1);
        assert now[|now| - 1] == e;
        operands' := CloneTopOperand(operands', now);
        assert now + [e] == es + Copies(e, i + 2);
      }
    }

    /** `Eval(kConcatenation)`, count times. */
    method ConcatenateTimes(operands: seq<Frag>, count: nat, ghost es: seq<Re>) returns (operands': seq<Frag>)
      requires Stacked(operands, es) && count < |es|
      modifies this`states
      ensures Stacked(operands', Joined(es, count))
    {
      hide Tiles;
      operands' := operands;
      ghost var now := es;
      for i := 0 to count
        invariant |now| == |es| - i && Joined(now, count - i) == Joined(es, count)
        invariant Stacked(operands', now)
      {
        var ok;
        ok, operands' := Eval(operands', Concatenation, now);
        now := now[..|now| - 2] + [Cat(now[|now| - 2], now[|now| - 1])];
      }
    }

    /** Repetition by cloning: the top operand e becomes `Repeated(e, n, m)`. */
    method EvalQuantifier(operands: seq<Frag>, n: nat, m: nat, ghost es: seq<Re>) returns (ok: bool, operands': seq<Frag>)
      requires n <= m && es != [] && Stacked(operands, es)
      modifies this`states
      ensures ok <==> m != 0
      ensures ok ==> Stacked(operands', es[..|es| - 1] + [Repeated(es[|es| - 1], n, m)])
    {
      hide Tiles, Prefixed, Options, Joined;
      ok, operands' := m != 0, operands;
      ghost var base, e := es[..|es| - 1], es[|es| - 1];
      assert es == base + [e];
      if n == 0 {
        if m == 0 {
        } else if m == INFINITY {
          var _, o := Eval(operands', ZeroOrMore, es);
          operands' := o;
        } else {
          operands' := EvalOptions(operands', m, base, e);
        }
        return;
      }
      operands' := CloneTimes(operands', n - 1, base, e);
      if m == INFINITY {
        operands' := EvalAtLeast(operands', n, base, e);
      } else if m > n {
        operands' := EvalBetween(operands', n, m, base, e);
      } else {
        operands' := EvalExactly(operands', n, base, e);
      }
    }

    method EvalOptions(operands: seq<Frag>, m: nat, ghost base: seq<Re>, ghost e: Re) returns (operands': seq<Frag>)
      requires m > 0 && Stacked(operands, base + [e])
      modifies this`states
      ensures Stacked(operands', base + [Options(e, m)])
    {
      hide Tiles, Options, Joined, Prefixed;
      assert (base + [e])[..|base|] == base;
      var _, o := Eval(operands, ZeroOrOne, base + [e]);
      operands' := CloneTimes(o, m - 1, base, Opt(e));
      JoinedOptions(base, e, 0, m);
      assert base + Copies(e, 0) + Copies(Opt(e), m) == base + Copies(Opt(e), m);
      assert Prefixed(e, 0, Options(e, m)) == Options(e, m) by { PrefixedNone(e, Options(e, m)); }
      operands' := ConcatenateTimes(operands', m - 1, base + Copies(Opt(e), m));
    }

    method EvalAtLeast(operands: seq<Frag>, n: nat, ghost base: seq<Re>, ghost e: Re) returns (operands': seq<Frag>)
      requires n > 0 && Stacked(operands, base + Copies(e, n))
      modifies this`states
      ensures Stacked(operands', base + [Prefixed(e, n - 1, Plus(e))])
    {
      hide Tiles, Joined, Prefixed;
      assert (base + Copies(e, n))[..|base| + n - 1] == base + Copies(e, n - 1);
      var _, o := Eval(operands, OneOrMore, base + Copies(e, n));
      JoinedPrefixed(base, e, n - 1, Plus(e));
      operands' := ConcatenateTimes(o, n - 1, base + Copies(e, n - 1) + [Plus(e)]);
    }

    method EvalExactly(operands: seq<Frag>, n: nat, ghost base: seq<Re>, ghost e: Re) returns (operands': seq<Frag>)
      requires n > 0 && Stacked(operands, base + Copies(e, n))
      modifies this`states
      ensures Stacked(operands', base + [Prefixed(e, n - 1, e)])
    {
      hide Tiles, Joined, Prefixed;
      assert base + Copies(e, n) == base + Copies(e, n - 1) + [e];
      JoinedPrefixed(base, e, n - 1, e);
      operands' := ConcatenateTimes(operands, n - 1, base + Copies(e, n));
    }

    method EvalBetween(operands: seq<Frag>, n: nat, m: nat, ghost base: seq<Re>, ghost e: Re) returns (operands': seq<Frag>)
      requires 0 < n < m && Stacked(operands, base + Copies(e, n))
      modifies this`states
      ensures Stacked(operands', base + [Prefixed(e, n, Options(e, m - n))])
    {
      hide Tiles, Joined, Prefixed, Options;
      ghost var es := base + Copies(e, n);
      assert es[|es| - 1] == e && (es + [e])[..|es|] == es;
      operands' := CloneTopOperand(operands, es);
      var _, o := Eval(operands', ZeroOrOne, es + [e]);
      operands' := CloneTimes(o, m - n - 1, es, Opt(e));
      ghost var all := es + Copies(Opt(e), m - n);
      operands' := ConcatenateTimes(operands', m - n, all);
      JoinedMore(all, m - n, n - 1);
      JoinedOptions(base, e, n, m - n);
      operands' := ConcatenateTimes(operands', n - 1, Joined(all, m - n));
    }

    method ParseUnsigned(ds: DecodedStream) returns (ok: bool, u: nat)
      requires PatternText(ds.rest)
      modifies ds
      ensures ok <==> Unsigned(old(ds.rest)).Ok?
      ensures ok ==> Unsigned(old(ds.rest)) == Ok((u, ds.rest))
      ensures PatternText(ds.rest)
    {
      hide UnsignedFrom;
      ok, u := false, 0;
      if !IsDigit(ds.Peek()) {
        return;
      }
      UnsignedUnfold(ds.rest[0] - '0' as int, ds.rest[1..]);
      ghost var first := ds.rest[0] - '0' as int;
      while IsDigit(ds.Peek())
        invariant PatternText(ds.rest) && u <= INFINITY
        invariant (ds.rest == old(ds.rest) && u == 0) || UnsignedFrom(first, old(ds.rest)[1..]) == UnsignedFrom(u, ds.rest)
        decreases |ds.rest|
      {
        UnsignedUnfold(u, ds.rest);
        if u >= 429496729 && ds.Peek() > '5' as int {
          return;
        }
        var c := ds.Take();
        u := (u * 10 + (c - '0' as int)) % 0x1_0000_0000;
      }
      UnsignedUnfold(u, ds.rest);
      ok := true;
    }

    method CharacterEscape(ds: DecodedStream) returns (ok: bool, escaped: int)
      requires PatternText(ds.rest)
      modifies ds
      ensures ok <==> old(ds.rest) != [] && EscapeValue(old(ds.rest)[0]).Ok?
      ensures ok ==> EscapeValue(old(ds.rest)[0]) == Ok(escaped) && ds.rest == old(ds.rest)[1..] && 0 < escaped < NEGATION_FLAG
      ensures PatternText(ds.rest)
    {
      var codepoint := ds.Take();
      match EscapeValue(codepoint)
      case Ok(c) => ok, escaped := true, c;
      case _ => ok, escaped := false, 0;
    }

    method NewRange(codepoint: int) returns (index: nat)
      modifies this`ranges
      ensures index == |old(ranges)| && ranges == old(ranges) + [Range(codepoint, codepoint, INVALID)]
    {
      index := |ranges|;
      ranges := ranges + [Range(codepoint, codepoint, INVALID)];
    }

    /** The closing bracket: a dash left over is a member, and the first range carries the negation flag. */
    method CloseRange(start: int, current: int, step: nat, negate: bool, ghost base: nat, ghost rs: seq<(int, int)>)
      returns (ghost a: Atom)
      requires base <= |ranges| && OpenChain(ranges, base, start, current, rs) && rs != []
      modifies this`ranges
      ensures base <= |ranges| && ranges[..base] == old(ranges[..base])
      ensures a == Class(negate, if step == 2 then rs + [('-' as int, '-' as int)] else rs)
      ensures AtomState(ranges, State(INVALID, INVALID, start, RANGE_CHARACTER), a)
    {
      hide Entry, Chain;
      ghost var all := if step == 2 then rs + [('-' as int, '-' as int)] else rs;
      if step == 2 {
        ChainPush(ranges, base, start, current, rs, '-' as int);
        var r := NewRange('-' as int);
        ranges := Relink(ranges, current, r);
      }
      ChainFlag(ranges, base, if step == 2 then |ranges| - 1 else current, all, negate);
      ranges := Flagged(ranges, start, negate);
      a := Class(negate, all);
    }

    /** One character of a class: a dash after a single one is kept back; after that the range is closed. */
    method AddToRange(codepoint: int, start: int, current: int, step: nat, ghost base: nat, ghost st: ClassState)
      returns (start': int, current': int, step': nat)
      requires 0 < codepoint < NEGATION_FLAG && st.step == step <= 2 && (step != 0 ==> st.ranges != [])
      requires OpenChain(ranges, base, start, current, st.ranges)
      modifies this`ranges
      ensures base <= |ranges| && ranges[..base] == old(ranges[..base])
      ensures OpenChain(ranges, base, start', current', ClassChar(st, codepoint).ranges)
      ensures step' == ClassChar(st, codepoint).step <= 2 && ClassChar(st, codepoint).negated == st.negated
    {
      hide Entry;
      start', current', step' := start, current, step;
      if step == 1 && codepoint == '-' as int {
        step' := 2;
      } else if step == 2 {
        ChainEnd(ranges, base, st.ranges, codepoint);
        ranges := ranges[current := ranges[current].(end := codepoint)];
        step' := 0;
      } else {
        ChainPush(ranges, base, start, current, st.ranges, codepoint);
        var r := NewRange(codepoint);
        ranges := Relink(ranges, current, r);
        if start == INVALID {
          start' := r;
        }
        current', step' := r, 1;
      }
    }

    /** A backslash in a class; `b` stands for a backspace there. */
    method ClassEscape(ds: DecodedStream) returns (ok: bool, escaped: int)
      requires PatternText(ds.rest)
      modifies ds
      ensures PatternText(ds.rest)
      ensures ok ==> old(ds.rest) != [] && ds.rest == old(ds.rest)[1..] && 0 < escaped < NEGATION_FLAG
      ensures old(ds.rest) != [] && old(ds.rest)[0] == 'b' as int ==> ok && escaped == 0x08
      ensures ok <==> old(ds.rest) != [] && (old(ds.rest)[0] == 'b' as int || EscapeValue(old(ds.rest)[0]).Ok?)
      ensures ok && old(ds.rest)[0] != 'b' as int ==> EscapeValue(old(ds.rest)[0]) == Ok(escaped)
    {
      if ds.Peek() == 'b' as int {
        var _ := ds.Take();
        ok, escaped := true, 0x08;
      } else {
        ok, escaped := CharacterEscape(ds);
      }
    }

    /** A class becomes a chain of new ranges. */
    method ParseRange(ds: DecodedStream) returns (ok: bool, range: int, ghost a: Atom)
      requires PatternText(ds.rest)
      modifies ds, this`ranges
      ensures old(ranges) <= ranges
      ensures ok <==> ClassOf(old(ds.rest)).Ok?
      ensures ok ==> ClassOf(old(ds.rest)) == Ok((a, ds.rest))
      ensures ok ==> AtomState(ranges, State(INVALID, INVALID, range, RANGE_CHARACTER), a)
      ensures PatternText(ds.rest)
    {
      hide ClassFrom, Entry, EscapeValue, AtomState, ClassChar;
      ok, range, a := false, INVALID, AnyChar;
      var isBegin, negate, step: nat := true, false, 0;
      var start, current := INVALID, INVALID;
      ghost var base := |ranges|;
      ghost var rs: seq<(int, int)> := [];
      while ds.Peek() != 0
        invariant PatternText(ds.rest)
        invariant base <= |ranges| && ranges[..base] == old(ranges) && OpenChain(ranges, base, start, current, rs)
        invariant step <= 2 && (step != 0 ==> rs != [])
        invariant isBegin ==> ds.rest == old(ds.rest) && rs == [] && step == 0 && !negate
        invariant !isBegin ==> ClassOf(old(ds.rest)) == ClassFrom(ClassState(negate, rs, step), ds.rest)
        decreases |ds.rest|
      {
        ghost var p := ds.rest;
        var codepoint := ds.Take();
        if isBegin {
          isBegin := false;
          if codepoint == '^' as int {
            negate := true;
            continue;
          }
        }
        ghost var st := ClassState(negate, rs, step);
        ClassUnfold(st, p);
        if codepoint == ']' as int {
          if start != INVALID {
            a := CloseRange(start, current, step, negate, base, rs);
            ok, range := true, start;
          }
          return;
        }
        if codepoint == '\\' as int {
          var escaped;
          escaped, codepoint := ClassEscape(ds);
          if !escaped {
            return;
          }
        }
        start, current, step := AddToRange(codepoint, start, current, step, base, st);
        rs := ClassChar(st, codepoint).ranges;
      }
      ClassUnfold(ClassState(negate, rs, step), ds.rest);
    }

    /** ---- The operator-precedence parser ---- */

    /** The stacks and flags hold what the machine says, with a tiling of blocks for its expressions. */
    ghost predicate Follows(operands: seq<Frag>, operators: seq<Operator>, atomCounts: seq<nat>, st: Machine)
      reads this
    {
      && operators == st.operators && atomCounts == st.atomCounts
      && anchorBegin == st.anchorBegin && anchorEnd == st.anchorEnd
      && Stacked(operands, st.operands) && Balanced(st)
    }

    /** The evaluation loops of `Parse`; they differ in the operators that stop them. */
    method EvalWhile(operands: seq<Frag>, operators: seq<Operator>, until: set<Operator>, ghost es: seq<Re>)
      returns (ok: bool, operands': seq<Frag>, operators': seq<Operator>, ghost es': seq<Re>)
      requires Stacked(operands, es) && !Reduce(es, operators, until).AssertFails?
      modifies this`states
      ensures ok <==> Reduce(es, operators, until).Ok?
      ensures ok ==> Reduce(es, operators, until) == Ok((es', operators')) && Stacked(operands', es')
    {
      hide Tiles, EvalRe;
      ok, operands', operators', es' := true, operands, operators, es;
      while operators' != [] && operators'[|operators'| - 1] !in until
        invariant Stacked(operands', es') && Reduce(es', operators', until) == Reduce(es, operators, until)
        decreases |operators'|
      {
        var op := operators'[|operators'| - 1];
        operators' := operators'[..|operators'| - 1];
        ghost var next := EvalRe(es', op);
        ok, operands' := Eval(operands', op, es');
        if !ok {
          return;
        }
        es' := next.value;
      }
    }

    static method ImplicitConcatenation(operators: seq<Operator>, atomCounts: seq<nat>, ghost st: Machine, ghost es: seq<Re>)
      returns (operators': seq<Operator>, atomCounts': seq<nat>)
      requires operators == st.operators && atomCounts == st.atomCounts && atomCounts != []
      ensures operators' == PushAtom(st, es).operators && atomCounts' == PushAtom(st, es).atomCounts
    {
      var top := |atomCounts| - 1;
      operators' := if atomCounts[top] != 0 then operators + [Concatenation] else operators;
      atomCounts' := atomCounts[top := atomCounts[top] + 1];
    }

    method ParseBar(operands: seq<Frag>, operators: seq<Operator>, atomCounts: seq<nat>, ghost st: Machine)
      returns (ok: bool, operands': seq<Frag>, operators': seq<Operator>, atomCounts': seq<nat>)
      requires Follows(operands, operators, atomCounts, st) && !StepBar(st).AssertFails?
      modifies this`states
      ensures ok <==> StepBar(st).Ok?
      ensures ok ==> Follows(operands', operators', atomCounts', StepBar(st).value)
    {
      hide Tiles, Reduce, Parens;
      ghost var es;
      ok, operands', operators', es := EvalWhile(operands, operators, UNTIL_ALTERNATION, st.operands);
      operators', atomCounts' := operators' + [Alternation], atomCounts[|atomCounts| - 1 := 0];
    }

    method ParseClose(operands: seq<Frag>, operators: seq<Operator>, atomCounts: seq<nat>, ghost st: Machine)
      returns (ok: bool, operands': seq<Frag>, operators': seq<Operator>, atomCounts': seq<nat>)
      requires Follows(operands, operators, atomCounts, st) && !StepClose(st).AssertFails?
      modifies this`states
      ensures ok <==> StepClose(st).Ok?
      ensures ok ==> Follows(operands', operators', atomCounts', StepClose(st).value)
    {
      hide Tiles, Reduce, PushAtom, Parens;
      ghost var es;
      atomCounts' := atomCounts;
      ok, operands', operators', es := EvalWhile(operands, operators, UNTIL_PARENTHESIS, st.operands);
      if !ok || operators' == [] {
        ok := false;
        return;
      }
      CloseCounts(st, operators');
      ghost var st' := st.(operators := operators'[..|operators'| - 1], atomCounts := atomCounts[..|atomCounts| - 1]);
      operators', atomCounts' := ImplicitConcatenation(operators'[..|operators'| - 1], atomCounts[..|atomCounts| - 1], st', es);
      PushedAtom(st', es);
    }

    method ParseBraces(ds: DecodedStream, operands: seq<Frag>, ghost st: Machine) returns (ok: bool, operands': seq<Frag>)
      requires PatternText(ds.rest) && Stacked(operands, st.operands) && Balanced(st)
      requires !StepBraces(st, ds.rest).AssertFails?
      modifies ds, this`states
      ensures PatternText(ds.rest)
      ensures ok <==> StepBraces(st, old(ds.rest)).Ok?
      ensures ok ==> StepBraces(st, old(ds.rest)).value.1 == ds.rest
      ensures ok ==> StepBraces(st, old(ds.rest)).value.0 == st.(operands := StepBraces(st, old(ds.rest)).value.0.operands)
      ensures ok ==> Stacked(operands', StepBraces(st, old(ds.rest)).value.0.operands)
    {
      hide Tiles, Repeated, Unsigned, Parens;
      ghost var p := ds.rest;
      var n, m: nat;
      ok, operands' := false, operands;
      var read;
      read, n, m := ParseBounds(ds);
      if !read {
        return;
      }
      ok, operands' := EvalQuantifier(operands, n, m, st.operands);
      if !ok || ds.Peek() != '}' as int {
        ok := false;
        return;
      }
      var _ := ds.Take();
    }

    /** The numbers between the braces. */
    method ParseBounds(ds: DecodedStream) returns (ok: bool, n: nat, m: nat)
      requires PatternText(ds.rest)
      modifies ds
      ensures PatternText(ds.rest)
      ensures ok <==> Bounds(old(ds.rest)).Ok?
      ensures ok ==> Bounds(old(ds.rest)) == Ok((n, m, ds.rest))
    {
      hide Unsigned;
      m := 0;
      ok, n := ParseUnsigned(ds);
      if !ok {
        return;
      }
      if ds.Peek() == ',' as int {
        var _ := ds.Take();
        if ds.Peek() == '}' as int {
          m := INFINITY;
        } else {
          ok, m := ParseUnsigned(ds);
          ok := ok && m >= n;
        }
      } else {
        m := n;
      }
    }

    /** `.`, a class, an escape or a plain character: a new operand, implicitly concatenated. */
    method PushCharacter(codepoint: int, operands: seq<Frag>, operators: seq<Operator>, atomCounts: seq<nat>, ghost st: Machine, ghost a: Atom)
      returns (operands': seq<Frag>, operators': seq<Operator>, atomCounts': seq<nat>)
      requires Follows(operands, operators, atomCounts, st)
      requires AtomState(ranges, State(INVALID, INVALID, INVALID, codepoint), a)
      modifies this`states
      ensures Follows(operands', operators', atomCounts', PushLeaf(st, a))
    {
      hide Tiles, PushAtom, Parens, AtomState;
      operands' := PushOperand(operands, codepoint, st.operands, a);
      operators', atomCounts' := ImplicitConcatenation(operators, atomCounts, st, st.operands + [Leaf(a)]);
      PushedAtom(st, st.operands + [Leaf(a)]);
    }

    method ParseClass(ds: DecodedStream, operands: seq<Frag>, operators: seq<Operator>, atomCounts: seq<nat>, ghost st: Machine)
      returns (ok: bool, operands': seq<Frag>, operators': seq<Operator>, atomCounts': seq<nat>)
      requires PatternText(ds.rest) && Follows(operands, operators, atomCounts, st)
      modifies ds, this`states, this`ranges
      ensures PatternText(ds.rest)
      ensures ok <==> StepClass(st, old(ds.rest)).Ok?
      ensures ok ==> StepClass(st, old(ds.rest)).value.1 == ds.rest
      ensures ok ==> Follows(operands', operators', atomCounts', StepClass(st, old(ds.rest)).value.0)
    {
      hide Tiles, PushAtom, Parens, AtomState, ClassOf;
      operands', operators', atomCounts' := operands, operators, atomCounts;
      var range;
      ghost var a;
      ok, range, a := ParseRange(ds);
      if !ok {
        return;
      }
      LeafTiles(states, old(ranges), ranges, operands, st.operands, a, State(INVALID, INVALID, range, RANGE_CHARACTER));
      var s := NewState(INVALID, INVALID, RANGE_CHARACTER);
      states := states[s := states[s].(rangeStart := range)];
      assert states == old(states) + [State(INVALID, INVALID, range, RANGE_CHARACTER)];
      operands' := operands + [Frag(s, s, s)];
      operators', atomCounts' := ImplicitConcatenation(operators, atomCounts, st, st.operands + [Leaf(a)]);
      PushedAtom(st, st.operands + [Leaf(a)]);
    }

    /** The switch of `Parse` on the character before the rest of ds: the step of the machine. */
    method ParseCharacter(codepoint: int, ds: DecodedStream, operands: seq<Frag>, operators: seq<Operator>, atomCounts: seq<nat>,
                          ghost st: Machine, ghost p: seq<int>)
      returns (ok: bool, operands': seq<Frag>, operators': seq<Operator>, atomCounts': seq<nat>)
      requires Follows(operands, operators, atomCounts, st)
      requires PatternText(p) && p != [] && p[0] == codepoint && p[1..] == ds.rest && !ParseStep(st, p).AssertFails?
      modifies ds, this`states, this`ranges, this`anchorBegin, this`anchorEnd
      ensures PatternText(ds.rest)
      ensures ok <==> ParseStep(st, p).Ok?
      ensures ok ==> ParseStep(st, p).value.1 == ds.rest
      ensures ok ==> Follows(operands', operators', atomCounts', ParseStep(st, p).value.0)
    {
      hide Tiles, Parens, StepBar, StepOpen, StepClose, StepBraces, StepClass, PushLeaf, EscapeValue;
      ok, operands', operators', atomCounts' := true, operands, operators, atomCounts;
      if codepoint == '^' as int {
        anchorBegin := true;
      } else if codepoint == '$' as int {
        anchorEnd := true;
      } else if codepoint == '|' as int {
        ok, operands', operators', atomCounts' := ParseBar(operands, operators, atomCounts, st);
      } else if codepoint == '(' as int {
        operators', atomCounts' := operators + [LeftParenthesis], atomCounts + [0];
        assert StepOpen(st) == st.(operators := operators', atomCounts := atomCounts') by { OpenStep(st); }
      } else if codepoint == ')' as int {
        ok, operands', operators', atomCounts' := ParseClose(operands, operators, atomCounts, st);
      } else if codepoint == '?' as int {
        ok, operands' := Eval(operands, ZeroOrOne, st.operands);
      } else if codepoint == '*' as int {
        ok, operands' := Eval(operands, ZeroOrMore, st.operands);
      } else if codepoint == '+' as int {
        ok, operands' := Eval(operands, OneOrMore, st.operands);
      } else if codepoint == '{' as int {
        ok, operands' := ParseBraces(ds, operands, st);
      } else if codepoint == '.' as int {
        operands', operators', atomCounts' := PushCharacter(ANY_CHARACTER, operands, operators, atomCounts, st, AnyChar);
      } else if codepoint == '[' as int {
        ok, operands', operators', atomCounts' := ParseClass(ds, operands, operators, atomCounts, st);
      } else {
        var c := codepoint;
        if codepoint == '\\' as int {
          ok, c := CharacterEscape(ds);
        }
        if ok {
          operands', operators', atomCounts' := PushCharacter(c, operands, operators, atomCounts, st, Char(c));
        }
      }
    }

    method Parse(ds: DecodedStream)
      requires PatternText(ds.rest) && !ParsePattern(ds.rest).AssertFails?
      requires states == [] && ranges == [] && root == INVALID && !anchorBegin && !anchorEnd
      modifies ds, this
      ensures Consistent()
      ensures IsValid() <==> ParsePattern(old(ds.rest)).Ok?
      ensures IsValid() ==> ParsePattern(old(ds.rest)) == Ok((expression, anchorBegin, anchorEnd))
    {
      hide Tiles, Parens, ParseStep, Reduce, PatchAll, Compiled;
      var operands: seq<Frag>, operators: seq<Operator>, atomCounts: seq<nat> := [], [], [0];
      ghost var st := INITIAL;
      InitialTiles(ranges);
      while ds.Peek() != 0
        invariant root == INVALID && PatternText(ds.rest) && Follows(operands, operators, atomCounts, st)
        invariant ParseFrom(INITIAL, old(ds.rest)) == ParseFrom(st, ds.rest)
        decreases |ds.rest|
      {
        ghost var p := ds.rest;
        var codepoint := ds.Take();
        var ok;
        ghost var next := ParseStep(st, p);
        ok, operands, operators, atomCounts := ParseCharacter(codepoint, ds, operands, operators, atomCounts, st, p);
        if !ok {
          return;
        }
        st := next.value.0;
      }
      var done;
      ghost var es;
      done, operands, operators, es := EvalWhile(operands, operators, {}, st.operands);
      if done {
        TilesCount(states, ranges, operands, es, |states|);
        if |operands| == 1 {
          TilesOne(states, ranges, operands, es);
          FinishBlock(states, ranges, es[0]);
          var e := operands[0];
          var s := NewState(INVALID, INVALID, 0);
          Patch(e.out, s, 0, Outs(es[0]));
          root := e.start;
          expression := es[0];
        }
      }
    }
  }
}
