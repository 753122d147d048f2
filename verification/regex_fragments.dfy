/** The state table of internal/regex.h: where the construction puts the states of an expression, how its
    pending exits are threaded through the table, and what a state accepts. */
module RegexFragments {
  import opened RegexLanguage

  /** kRegexInvalidState / kRegexInvalidRange. Table indices are not bounded by 32 bits here. */
  const INVALID := -1

  const ANY_CHARACTER := 0xFFFFFFFF
  const RANGE_CHARACTER := 0xFFFFFFFE
  const NEGATION_FLAG := 0x80000000

  datatype Range = Range(start: int, end: int, next: int)
  datatype State = State(out: int, out1: int, rangeStart: int, codepoint: int)
  datatype Frag = Frag(start: int, out: int, minIndex: int)

  /** ---- Layout of the Size(e) consecutive states of e, as offsets from the first ---- */

  function Size(e: Re): (n: nat)
    ensures n > 0
  {
    match e
    case Leaf(_) => 1
    case Cat(a, b) => Size(a) + Size(b)
    case Alt(a, b) => Size(a) + Size(b) + 1
    case Opt(a) => Size(a) + 1
    case Star(a) => Size(a) + 1
    case Plus(a) => Size(a) + 1
  }

  /** Entry state. */
  function Start(e: Re): (s: nat)
    ensures s < Size(e)
  {
    match e
    case Leaf(_) => 0
    case Cat(a, _) => Start(a)
    case Alt(a, b) => Size(a) + Size(b)
    case Opt(a) => Size(a)
    case Star(a) => Size(a)
    case Plus(a) => Start(a)
  }

  function Up(s: seq<nat>, d: nat): (r: seq<nat>)
    ensures |r| == |s| && forall i | 0 <= i < |s| :: r[i] == s[i] + d
  {
    seq(|s|, i requires 0 <= i < |s| => s[i] + d)
  }

  /** States whose `out` leaves the block, in the order in which they are threaded. */
  function Outs(e: Re): (outs: seq<nat>)
    ensures |outs| > 0
    ensures forall i | 0 <= i < |outs| :: outs[i] < Size(e)
  {
    match e
    case Leaf(_) => [0]
    case Cat(a, b) => Up(Outs(b), Size(a))
    case Alt(a, b) => Outs(a) + Up(Outs(b), Size(a))
    case Opt(a) => Outs(a) + [Size(a)]
    case Star(a) => [Size(a)]
    case Plus(a) => [Size(a)]
  }

  /** The layout of each operator, one level at a time. */
  lemma LayoutCat(a: Re, b: Re)
    ensures Size(Cat(a, b)) == Size(a) + Size(b)
    ensures Start(Cat(a, b)) == Start(a) && Outs(Cat(a, b)) == Up(Outs(b), Size(a))
  {
  }

  lemma LayoutAlt(a: Re, b: Re)
    ensures Size(Alt(a, b)) == Size(a) + Size(b) + 1
    ensures Start(Alt(a, b)) == Size(a) + Size(b) && Outs(Alt(a, b)) == Outs(a) + Up(Outs(b), Size(a))
  {
  }

  lemma LayoutOpt(a: Re)
    ensures Size(Opt(a)) == Size(a) + 1 && Start(Opt(a)) == Size(a) && Outs(Opt(a)) == Outs(a) + [Size(a)]
  {
  }

  lemma LayoutLoop(a: Re)
    ensures Size(Star(a)) == Size(a) + 1 && Start(Star(a)) == Size(a) && Outs(Star(a)) == [Size(a)]
    ensures Size(Plus(a)) == Size(a) + 1 && Start(Plus(a)) == Start(a) && Outs(Plus(a)) == [Size(a)]
  {
  }

  ghost predicate Distinct(s: seq<nat>) {
    forall i, j | 0 <= i < j < |s| :: s[i] != s[j]
  }

  /** No exit is listed twice. */
  lemma {:induction false} OutsDistinct(e: Re)
    ensures Distinct(Outs(e))
  {
    match e
    case Leaf(_) =>
    case Cat(a, b) => OutsDistinct(b);
    case Alt(a, b) =>
      OutsDistinct(a);
      OutsDistinct(b);
    case Opt(a) => OutsDistinct(a);
    case Star(a) =>
    case Plus(a) =>
  }

  /** The ranges of a class are consecutive entries; the first one carries the negation flag. */
  ghost predicate Chain(rg: seq<Range>, start: int, negated: bool, ranges: seq<(int, int)>) {
    && |ranges| > 0
    && 0 <= start && start + |ranges| <= |rg|
    && (forall j | 0 <= j < |ranges| ::
          && rg[start + j].start == ranges[j].0 + (if negated && j == 0 then NEGATION_FLAG else 0)
          && rg[start + j].end == ranges[j].1
          && rg[start + j].next == (if j + 1 < |ranges| then start + j + 1 else INVALID))
    && (forall j | 0 <= j < |ranges| :: 0 <= ranges[j].0 < NEGATION_FLAG)
  }

  /** What a consuming state looks like, apart from `out`. */
  ghost predicate AtomState(rg: seq<Range>, s: State, a: Atom) {
    && s.out1 == INVALID
    && match a
       case Char(c) => s.codepoint == c && 0 < c < RANGE_CHARACTER
       case AnyChar => s.codepoint == ANY_CHARACTER
       case Class(negated, ranges) => s.codepoint == RANGE_CHARACTER && Chain(rg, s.rangeStart, negated, ranges)
  }

  /** Every listed exit leads to `k`. */
  ghost predicate Linked(ss: seq<State>, lo: nat, outs: seq<nat>, k: int) {
    forall i | 0 <= i < |outs| :: lo + outs[i] < |ss| && ss[lo + outs[i]].out == k
  }

  /** The state after entry i of a list of pending exits. */
  function NextOut(lo: nat, outs: seq<nat>, i: nat): int {
    if i + 1 < |outs| then lo + outs[i + 1] else INVALID
  }

  /** The pending exits form a list threaded through their own `out` fields. */
  ghost predicate Threaded(ss: seq<State>, lo: nat, outs: seq<nat>) {
    forall i | 0 <= i < |outs| :: lo + outs[i] < |ss| && ss[lo + outs[i]].out == NextOut(lo, outs, i)
  }

  /** The block at lo implements e; nothing is said of the `out` fields of its exits. */
  ghost predicate Wired(ss: seq<State>, rg: seq<Range>, e: Re, lo: nat): (r: bool)
    ensures r ==> lo + Size(e) <= |ss|
  {
    lo + Size(e) <= |ss| &&
    match e
    case Leaf(a) => AtomState(rg, ss[lo], a)
    case Cat(a, b) =>
      && Wired(ss, rg, a, lo) && Wired(ss, rg, b, lo + Size(a))
      && Linked(ss, lo, Outs(a), lo + Size(a) + Start(b))
    case Alt(a, b) =>
      && Wired(ss, rg, a, lo) && Wired(ss, rg, b, lo + Size(a))
      && ss[lo + Size(a) + Size(b)].out == lo + Start(a)
      && ss[lo + Size(a) + Size(b)].out1 == lo + Size(a) + Start(b)
    case Opt(a) => Wired(ss, rg, a, lo) && ss[lo + Size(a)].out1 == lo + Start(a)
    case Star(a) =>
      && Wired(ss, rg, a, lo) && ss[lo + Size(a)].out1 == lo + Start(a)
      && Linked(ss, lo, Outs(a), lo + Size(a))
    case Plus(a) =>
      && Wired(ss, rg, a, lo) && ss[lo + Size(a)].out1 == lo + Start(a)
      && Linked(ss, lo, Outs(a), lo + Size(a))
  }

  /** `Wired` of each operator, one level at a time. */
  lemma WiredLeaf(ss: seq<State>, rg: seq<Range>, a: Atom, lo: nat)
    ensures Size(Leaf(a)) == 1 && Start(Leaf(a)) == 0 && Outs(Leaf(a)) == [0]
    ensures Wired(ss, rg, Leaf(a), lo) <==> lo < |ss| && AtomState(rg, ss[lo], a)
  {
  }

  lemma WiredCat(ss: seq<State>, rg: seq<Range>, a: Re, b: Re, lo: nat)
    ensures Wired(ss, rg, Cat(a, b), lo) <==>
            Wired(ss, rg, a, lo) && Wired(ss, rg, b, lo + Size(a)) && Linked(ss, lo, Outs(a), lo + Size(a) + Start(b))
  {
  }

  lemma WiredAlt(ss: seq<State>, rg: seq<Range>, a: Re, b: Re, lo: nat)
    ensures Wired(ss, rg, Alt(a, b), lo) <==>
            && Wired(ss, rg, a, lo) && Wired(ss, rg, b, lo + Size(a)) && lo + Size(a) + Size(b) < |ss|
            && ss[lo + Size(a) + Size(b)].out == lo + Start(a)
            && ss[lo + Size(a) + Size(b)].out1 == lo + Size(a) + Start(b)
  {
  }

  lemma WiredOpt(ss: seq<State>, rg: seq<Range>, a: Re, lo: nat)
    ensures Wired(ss, rg, Opt(a), lo) <==> Wired(ss, rg, a, lo) && lo + Size(a) < |ss| && ss[lo + Size(a)].out1 == lo + Start(a)
  {
  }

  /** `*` and `+` are wired alike; they differ in where they are entered. */
  lemma WiredLoop(ss: seq<State>, rg: seq<Range>, a: Re, lo: nat)
    ensures Wired(ss, rg, Star(a), lo) <==>
            && Wired(ss, rg, a, lo) && lo + Size(a) < |ss| && ss[lo + Size(a)].out1 == lo + Start(a)
            && Linked(ss, lo, Outs(a), lo + Size(a))
    ensures Wired(ss, rg, Plus(a), lo) <==> Wired(ss, rg, Star(a), lo)
  {
  }

  /** Whether state j is one of the exits of the block of e at lo. */
  predicate IsExit(e: Re, lo: nat, j: int): (r: bool)
    ensures r ==> lo <= j < lo + Size(e)
  {
    match e
    case Leaf(_) => j == lo
    case Cat(a, b) => IsExit(b, lo + Size(a), j)
    case Alt(a, b) => IsExit(a, lo, j) || IsExit(b, lo + Size(a), j)
    case Opt(a) => IsExit(a, lo, j) || j == lo + Size(a)
    case Star(a) => j == lo + Size(a)
    case Plus(a) => j == lo + Size(a)
  }

  lemma ExitPair(a: Re, b: Re, lo: nat, j: int)
    ensures IsExit(Cat(a, b), lo, j) <==> IsExit(b, lo + Size(a), j)
    ensures IsExit(Alt(a, b), lo, j) <==> IsExit(a, lo, j) || IsExit(b, lo + Size(a), j)
  {
  }

  /** All entries of outs, counted from lo, are exits of e. */
  ghost predicate AllExits(e: Re, lo: nat, outs: seq<nat>, from: nat) {
    forall i | 0 <= i < |outs| :: IsExit(e, lo, from + outs[i])
  }

  /** Outs lists exits only. */
  lemma {:induction false} OutsAreExits(e: Re, lo: nat)
    ensures AllExits(e, lo, Outs(e), lo)
    decreases e, 1
  {
    match e
    case Leaf(_) =>
    case Cat(a, b) => PairExits(e, a, b, lo);
    case Alt(a, b) => PairExits(e, a, b, lo);
    case Opt(a) => OutsAreExits(a, lo);
    case Star(a) =>
    case Plus(a) =>
  }

  lemma {:induction false} PairExits(e: Re, a: Re, b: Re, lo: nat)
    requires e == Cat(a, b) || e == Alt(a, b)
    ensures AllExits(e, lo, Outs(e), lo)
    decreases e, 0
  {
    hide IsExit, Outs, Size;
    LayoutCat(a, b);
    LayoutAlt(a, b);
    OutsAreExits(a, lo);
    OutsAreExits(b, lo + Size(a));
    var up := Up(Outs(b), Size(a));
    forall i | 0 <= i < |up| ensures IsExit(e, lo, lo + up[i]) {
      assert lo + up[i] == lo + Size(a) + Outs(b)[i];
      ExitPair(a, b, lo, lo + up[i]);
    }
    if e == Alt(a, b) {
      forall i | 0 <= i < |Outs(a)| ensures IsExit(e, lo, lo + Outs(a)[i]) {
        ExitPair(a, b, lo, lo + Outs(a)[i]);
      }
    }
  }

  /** Over the block of e at lo, the tables agree except for the `out` fields of its exits. */
  ghost predicate SameBut(ss: seq<State>, ss': seq<State>, e: Re, lo: nat) {
    && lo + Size(e) <= |ss| && lo + Size(e) <= |ss'|
    && forall j | lo <= j < lo + Size(e) :: ss'[j] == ss[j] || (IsExit(e, lo, j) && ss'[j] == ss[j].(out := ss'[j].out))
  }

  lemma SamePair(ss: seq<State>, ss': seq<State>, e: Re, a: Re, b: Re, lo: nat)
    requires (e == Cat(a, b) || e == Alt(a, b)) && SameBut(ss, ss', e, lo)
    ensures SameBut(ss, ss', a, lo) && SameBut(ss, ss', b, lo + Size(a))
    ensures e == Alt(a, b) ==> ss'[lo + Size(a) + Size(b)] == ss[lo + Size(a) + Size(b)]
    ensures e == Cat(a, b) ==> forall j | lo <= j < lo + Size(a) :: ss'[j] == ss[j]
  {
    hide Size, IsExit;
    LayoutCat(a, b);
    LayoutAlt(a, b);
    forall j ensures IsExit(e, lo, j) ==> (e == Alt(a, b) && IsExit(a, lo, j)) || IsExit(b, lo + Size(a), j) {
      ExitPair(a, b, lo, j);
    }
  }

  lemma SameSplit(ss: seq<State>, ss': seq<State>, e: Re, a: Re, lo: nat)
    requires (e == Opt(a) || e == Star(a) || e == Plus(a)) && SameBut(ss, ss', e, lo)
    ensures SameBut(ss, ss', a, lo)
    ensures ss'[lo + Size(a)].out1 == ss[lo + Size(a)].out1
    ensures e != Opt(a) ==> forall j | lo <= j < lo + Size(a) :: ss'[j] == ss[j]
  {
    LayoutOpt(a);
    LayoutLoop(a);
    assert forall j :: IsExit(e, lo, j) ==> (e == Opt(a) && IsExit(a, lo, j)) || j == lo + Size(a);
    hide Size, IsExit;
    assert ss'[lo + Size(a)] == ss[lo + Size(a)].(out := ss'[lo + Size(a)].out);
  }

  lemma LinkedFrame(ss: seq<State>, ss': seq<State>, lo: nat, n: nat, outs: seq<nat>, k: int)
    requires Linked(ss, lo, outs, k) && lo + n <= |ss'| && lo + n <= |ss|
    requires forall j | lo <= j < lo + n :: ss'[j] == ss[j]
    requires forall i | 0 <= i < |outs| :: outs[i] < n
    ensures Linked(ss', lo, outs, k)
  {
  }

  /** Rewriting the exits of a block, and anything outside it, keeps it wired; so do more ranges. */
  lemma {:induction false} WiredFrame(ss: seq<State>, rg: seq<Range>, ss': seq<State>, rg': seq<Range>, e: Re, lo: nat)
    requires Wired(ss, rg, e, lo) && rg <= rg'
    requires SameBut(ss, ss', e, lo)
    ensures Wired(ss', rg', e, lo)
    decreases e, 1
  {
    hide *;
    match e
    case Leaf(a) => FrameLeaf(ss, rg, ss', rg', a, lo);
    case Cat(a, b) => FrameCat(ss, rg, ss', rg', a, b, lo);
    case Alt(a, b) => FrameAlt(ss, rg, ss', rg', a, b, lo);
    case Opt(a) => FrameOpt(ss, rg, ss', rg', a, lo);
    case Star(a) => FrameLoop(ss, rg, ss', rg', e, a, lo);
    case Plus(a) => FrameLoop(ss, rg, ss', rg', e, a, lo);
  }

  lemma ChainFrame(rg: seq<Range>, rg': seq<Range>, start: int, negated: bool, ranges: seq<(int, int)>)
    requires Chain(rg, start, negated, ranges) && rg <= rg'
    ensures Chain(rg', start, negated, ranges)
  {
    forall j | 0 <= j < |rg| ensures rg'[j] == rg[j] {
      assert rg'[..|rg|][j] == rg[j];
    }
  }

  lemma FrameLeaf(ss: seq<State>, rg: seq<Range>, ss': seq<State>, rg': seq<Range>, a: Atom, lo: nat)
    requires Wired(ss, rg, Leaf(a), lo) && rg <= rg' && SameBut(ss, ss', Leaf(a), lo)
    ensures Wired(ss', rg', Leaf(a), lo)
  {
    assert ss'[lo] == ss[lo].(out := ss'[lo].out);
    hide Wired;
    WiredLeaf(ss, rg, a, lo);
    WiredLeaf(ss', rg', a, lo);
    if a.Class? {
      ChainFrame(rg, rg', ss[lo].rangeStart, a.negated, a.ranges);
    }
  }

  lemma {:induction false} FrameCat(ss: seq<State>, rg: seq<Range>, ss': seq<State>, rg': seq<Range>, a: Re, b: Re, lo: nat)
    requires Wired(ss, rg, Cat(a, b), lo) && rg <= rg' && SameBut(ss, ss', Cat(a, b), lo)
    ensures Wired(ss', rg', Cat(a, b), lo)
    decreases Cat(a, b), 0
  {
    hide Wired, Size, Start, Outs, IsExit, SameBut;
    WiredCat(ss, rg, a, b, lo);
    WiredCat(ss', rg', a, b, lo);
    SamePair(ss, ss', Cat(a, b), a, b, lo);
    WiredFrame(ss, rg, ss', rg', a, lo);
    WiredFrame(ss, rg, ss', rg', b, lo + Size(a));
    LinkedFrame(ss, ss', lo, Size(a), Outs(a), lo + Size(a) + Start(b));
  }

  lemma {:induction false} FrameAlt(ss: seq<State>, rg: seq<Range>, ss': seq<State>, rg': seq<Range>, a: Re, b: Re, lo: nat)
    requires Wired(ss, rg, Alt(a, b), lo) && rg <= rg' && SameBut(ss, ss', Alt(a, b), lo)
    ensures Wired(ss', rg', Alt(a, b), lo)
    decreases Alt(a, b), 0
  {
    LayoutAlt(a, b);
    assert lo + Size(a) + Size(b) < |ss'|;
    hide Wired, Size, Start, Outs, IsExit, SameBut;
    WiredAlt(ss, rg, a, b, lo);
    WiredAlt(ss', rg', a, b, lo);
    SamePair(ss, ss', Alt(a, b), a, b, lo);
    WiredFrame(ss, rg, ss', rg', a, lo);
    WiredFrame(ss, rg, ss', rg', b, lo + Size(a));
  }

  lemma {:induction false} FrameOpt(ss: seq<State>, rg: seq<Range>, ss': seq<State>, rg': seq<Range>, a: Re, lo: nat)
    requires Wired(ss, rg, Opt(a), lo) && rg <= rg' && SameBut(ss, ss', Opt(a), lo)
    ensures Wired(ss', rg', Opt(a), lo)
    decreases Opt(a), 0
  {
    LayoutOpt(a);
    assert lo + Size(a) < |ss'|;
    hide Wired, Size, Start, Outs, IsExit, SameBut;
    WiredOpt(ss, rg, a, lo);
    WiredOpt(ss', rg', a, lo);
    SameSplit(ss, ss', Opt(a), a, lo);
    WiredFrame(ss, rg, ss', rg', a, lo);
  }

  lemma {:induction false} FrameLoop(ss: seq<State>, rg: seq<Range>, ss': seq<State>, rg': seq<Range>, e: Re, a: Re, lo: nat)
    requires (e == Star(a) || e == Plus(a)) && Wired(ss, rg, e, lo) && rg <= rg' && SameBut(ss, ss', e, lo)
    ensures Wired(ss', rg', e, lo)
    decreases e, 0
  {
    LayoutLoop(a);
    assert lo + Size(a) < |ss'| && lo + Size(a) < |ss|;
    hide Wired, Size, Start, Outs, IsExit, SameBut;
    WiredLoop(ss, rg, a, lo);
    WiredLoop(ss', rg', a, lo);
    SameSplit(ss, ss', e, a, lo);
    LinkedFrame(ss, ss', lo, Size(a), Outs(a), lo + Size(a));
    WiredFrame(ss, rg, ss', rg', a, lo);
  }

  /** The same state moved up by d. */
  function ShiftIndex(i: int, d: nat): int {
    if i == INVALID then INVALID else i + d
  }

  function Shift(s: State, d: nat): State {
    s.(out := ShiftIndex(s.out, d), out1 := ShiftIndex(s.out1, d))
  }

  ghost predicate Shifted(ss: seq<State>, ss': seq<State>, lo: nat, n: nat, d: nat) {
    && lo + n <= |ss| && lo + n + d <= |ss'|
    && forall i | lo <= i < lo + n :: ss'[i + d] == Shift(ss[i], d)
  }

  lemma ShiftedPart(ss: seq<State>, ss': seq<State>, lo: nat, n: nat, d: nat, lo': nat, n': nat)
    requires Shifted(ss, ss', lo, n, d) && lo <= lo' && lo' + n' <= lo + n
    ensures Shifted(ss, ss', lo', n', d)
  {
  }

  lemma LinkedShift(ss: seq<State>, ss': seq<State>, lo: nat, n: nat, d: nat, outs: seq<nat>, k: nat)
    requires Linked(ss, lo, outs, k) && Shifted(ss, ss', lo, n, d)
    requires forall i | 0 <= i < |outs| :: outs[i] < n
    ensures Linked(ss', lo + d, outs, k + d)
  {
    forall i | 0 <= i < |outs| ensures lo + d + outs[i] < |ss'| && ss'[lo + d + outs[i]].out == k + d {
      assert ss'[(lo + outs[i]) + d] == Shift(ss[lo + outs[i]], d);
    }
  }

  /** Copying a block by index shift is sound: the copy is wired for the same expression. */
  lemma {:induction false} WiredShift(ss: seq<State>, ss': seq<State>, rg: seq<Range>, e: Re, lo: nat, d: nat)
    requires Wired(ss, rg, e, lo) && Shifted(ss, ss', lo, Size(e), d)
    ensures Wired(ss', rg, e, lo + d)
    decreases e, 1
  {
    hide *;
    match e
    case Leaf(a) => ShiftLeaf(ss, ss', rg, a, lo, d);
    case Cat(a, b) => ShiftCat(ss, ss', rg, a, b, lo, d);
    case Alt(a, b) => ShiftAlt(ss, ss', rg, a, b, lo, d);
    case Opt(a) => ShiftOpt(ss, ss', rg, a, lo, d);
    case Star(a) => ShiftLoop(ss, ss', rg, e, a, lo, d);
    case Plus(a) => ShiftLoop(ss, ss', rg, e, a, lo, d);
  }

  lemma ShiftLeaf(ss: seq<State>, ss': seq<State>, rg: seq<Range>, a: Atom, lo: nat, d: nat)
    requires Wired(ss, rg, Leaf(a), lo) && Shifted(ss, ss', lo, Size(Leaf(a)), d)
    ensures Wired(ss', rg, Leaf(a), lo + d)
  {
    assert ss'[lo + d] == Shift(ss[lo], d);
  }

  lemma {:induction false} ShiftCat(ss: seq<State>, ss': seq<State>, rg: seq<Range>, a: Re, b: Re, lo: nat, d: nat)
    requires Wired(ss, rg, Cat(a, b), lo) && Shifted(ss, ss', lo, Size(Cat(a, b)), d)
    ensures Wired(ss', rg, Cat(a, b), lo + d)
    decreases Cat(a, b), 0
  {
    hide Wired, Size, Start, Outs, Shifted;
    LayoutCat(a, b);
    WiredCat(ss, rg, a, b, lo);
    WiredCat(ss', rg, a, b, lo + d);
    ShiftedPart(ss, ss', lo, Size(Cat(a, b)), d, lo, Size(a));
    ShiftedPart(ss, ss', lo, Size(Cat(a, b)), d, lo + Size(a), Size(b));
    WiredShift(ss, ss', rg, a, lo, d);
    WiredShift(ss, ss', rg, b, lo + Size(a), d);
    assert lo + Size(a) + d == lo + d + Size(a);
    LinkedShift(ss, ss', lo, Size(a), d, Outs(a), lo + Size(a) + Start(b));
  }

  lemma {:induction false} ShiftAlt(ss: seq<State>, ss': seq<State>, rg: seq<Range>, a: Re, b: Re, lo: nat, d: nat)
    requires Wired(ss, rg, Alt(a, b), lo) && Shifted(ss, ss', lo, Size(Alt(a, b)), d)
    ensures Wired(ss', rg, Alt(a, b), lo + d)
    decreases Alt(a, b), 0
  {
    LayoutAlt(a, b);
    hide Wired, Size, Start, Outs;
    WiredAlt(ss, rg, a, b, lo);
    WiredAlt(ss', rg, a, b, lo + d);
    assert ss'[lo + Size(a) + Size(b) + d] == Shift(ss[lo + Size(a) + Size(b)], d);
    hide Shifted;
    ShiftedPart(ss, ss', lo, Size(Alt(a, b)), d, lo, Size(a));
    ShiftedPart(ss, ss', lo, Size(Alt(a, b)), d, lo + Size(a), Size(b));
    WiredShift(ss, ss', rg, a, lo, d);
    WiredShift(ss, ss', rg, b, lo + Size(a), d);
    assert lo + Size(a) + d == lo + d + Size(a);
  }

  lemma {:induction false} ShiftOpt(ss: seq<State>, ss': seq<State>, rg: seq<Range>, a: Re, lo: nat, d: nat)
    requires Wired(ss, rg, Opt(a), lo) && Shifted(ss, ss', lo, Size(Opt(a)), d)
    ensures Wired(ss', rg, Opt(a), lo + d)
    decreases Opt(a), 0
  {
    LayoutOpt(a);
    hide Wired, Size, Start, Outs;
    WiredOpt(ss, rg, a, lo);
    WiredOpt(ss', rg, a, lo + d);
    assert ss'[lo + Size(a) + d] == Shift(ss[lo + Size(a)], d);
    ShiftedPart(ss, ss', lo, Size(Opt(a)), d, lo, Size(a));
    WiredShift(ss, ss', rg, a, lo, d);
  }

  lemma {:induction false} ShiftLoop(ss: seq<State>, ss': seq<State>, rg: seq<Range>, e: Re, a: Re, lo: nat, d: nat)
    requires (e == Star(a) || e == Plus(a)) && Wired(ss, rg, e, lo) && Shifted(ss, ss', lo, Size(e), d)
    ensures Wired(ss', rg, e, lo + d)
    decreases e, 0
  {
    LayoutLoop(a);
    hide Wired, Size, Start, Outs;
    WiredLoop(ss, rg, a, lo);
    WiredLoop(ss', rg, a, lo + d);
    assert ss'[lo + Size(a) + d] == Shift(ss[lo + Size(a)], d);
    ShiftedPart(ss, ss', lo, Size(e), d, lo, Size(a));
    WiredShift(ss, ss', rg, a, lo, d);
    LinkedShift(ss, ss', lo, Size(a), d, Outs(a), lo + Size(a));
  }
}
