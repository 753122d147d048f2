/** What the states of a fragment accept, and when the epsilon graph that `AddState` walks is well-founded. */
module RegexAcceptance {
  import opened RegexLanguage
  import opened RegexFragments

  /** A split state: `AddState` follows both branches without consuming input. */
  predicate IsSplit(s: State) {
    s.out1 != INVALID
  }

  /** Every split state ranks above both of its branches. */
  ghost predicate Ranked(ss: seq<State>, rank: seq<nat>) {
    && |rank| == |ss|
    && forall i | 0 <= i < |ss| && IsSplit(ss[i]) ::
         && 0 <= ss[i].out < |ss| && 0 <= ss[i].out1 < |ss|
         && rank[ss[i].out] < rank[i] && rank[ss[i].out1] < rank[i]
  }

  /** `MatchRange` over the linked ranges, starting from entry `index`. */
  predicate InChain(rg: seq<Range>, index: int, c: int)
    decreases |rg| - index
  {
    0 <= index < |rg| &&
    (rg[index].start % NEGATION_FLAG <= c <= rg[index].end
     || (rg[index].next > index && InChain(rg, rg[index].next, c)))
  }

  /** Following the ranges from entry `index` comes to an end. */
  predicate ChainEnds(rg: seq<Range>, index: int)
    decreases |rg| - index
  {
    0 <= index < |rg| && (rg[index].next == INVALID || (rg[index].next > index && ChainEnds(rg, rg[index].next)))
  }

  lemma {:induction false} ChainIsFinite(rg: seq<Range>, start: int, negated: bool, ranges: seq<(int, int)>, j: nat)
    requires Chain(rg, start, negated, ranges) && j < |ranges|
    ensures ChainEnds(rg, start + j)
    decreases |ranges| - j
  {
    assert rg[start + j].end == ranges[j].1;
    if j + 1 < |ranges| {
      ChainIsFinite(rg, start, negated, ranges, j + 1);
    }
  }

  /** Whether a consuming state consumes c. */
  predicate Consumes(rg: seq<Range>, s: State, c: int) {
    || s.codepoint == c
    || s.codepoint == ANY_CHARACTER
    || (s.codepoint == RANGE_CHARACTER && 0 <= s.rangeStart < |rg|
        && InChain(rg, s.rangeStart, c) == (rg[s.rangeStart].start < NEGATION_FLAG))
  }

  /** The machine started in state i accepts exactly w. */
  ghost predicate Acc(ss: seq<State>, rg: seq<Range>, rank: seq<nat>, i: int, w: seq<int>)
    requires Ranked(ss, rank)
    decreases |w|, if 0 <= i < |rank| then rank[i] else 0
  {
    0 <= i < |ss| &&
    if IsSplit(ss[i]) then Acc(ss, rg, rank, ss[i].out, w) || Acc(ss, rg, rank, ss[i].out1, w)
    else if ss[i].out == INVALID then w == []
    else w != [] && Consumes(rg, ss[i], w[0]) && Acc(ss, rg, rank, ss[i].out, w[1..])
  }

  /** Some prefix of w is in the language of e and the rest is accepted from state k. */
  ghost predicate Splits(ss: seq<State>, rg: seq<Range>, rank: seq<nat>, e: Re, k: int, w: seq<int>)
    requires Ranked(ss, rank)
  {
    exists i | 0 <= i <= |w| :: In(e, w[..i]) && Acc(ss, rg, rank, k, w[i..])
  }

  lemma SplitsIntro(ss: seq<State>, rg: seq<Range>, rank: seq<nat>, e: Re, k: int, w: seq<int>, i: nat)
    requires Ranked(ss, rank)
    requires i <= |w| && In(e, w[..i]) && Acc(ss, rg, rank, k, w[i..])
    ensures Splits(ss, rg, rank, e, k, w)
  {
  }

  lemma {:induction false} ChainMeaning(rg: seq<Range>, start: int, negated: bool, ranges: seq<(int, int)>, j: nat, c: int)
    requires Chain(rg, start, negated, ranges) && j < |ranges|
    ensures InChain(rg, start + j, c) <==> InRanges(ranges[j..], c)
    decreases |ranges| - j
  {
    var r := rg[start + j];
    assert r.start % NEGATION_FLAG == ranges[j].0;
    assert ranges[j..][0] == ranges[j];
    if j + 1 < |ranges| {
      ChainMeaning(rg, start, negated, ranges, j + 1, c);
      assert ranges[j..][1..] == ranges[j + 1..];
      InRangesStep(ranges[j..], c);
    }
  }

  lemma InRangesStep(ranges: seq<(int, int)>, c: int)
    requires |ranges| > 0
    ensures InRanges(ranges, c) <==> ranges[0].0 <= c <= ranges[0].1 || InRanges(ranges[1..], c)
  {
    if InRanges(ranges[1..], c) {
      var i :| 0 <= i < |ranges[1..]| && ranges[1..][i].0 <= c <= ranges[1..][i].1;
      assert ranges[i + 1].0 <= c <= ranges[i + 1].1;
    }
    if InRanges(ranges, c) && !(ranges[0].0 <= c <= ranges[0].1) {
      var i :| 0 <= i < |ranges| && ranges[i].0 <= c <= ranges[i].1;
      assert ranges[1..][i - 1] == ranges[i];
    }
  }

  /** A consuming state built for an atom consumes what the atom matches. */
  lemma AtomMeaning(rg: seq<Range>, s: State, a: Atom, c: int)
    requires AtomState(rg, s, a) && 0 < c < RANGE_CHARACTER
    ensures Consumes(rg, s, c) <==> Matches(a, c)
  {
    if a.Class? {
      ChainMeaning(rg, s.rangeStart, a.negated, a.ranges, 0, c);
      assert a.ranges[0..] == a.ranges;
      var first := rg[s.rangeStart + 0];
      assert first.start == a.ranges[0].0 + (if a.negated then NEGATION_FLAG else 0);
      assert InChain(rg, s.rangeStart, c) == InRanges(a.ranges, c);
    }
  }

  /** Input code points: `Take` returns 0 at the end of the text. */
  predicate Text(w: seq<int>) {
    forall i | 0 <= i < |w| :: 0 < w[i] < RANGE_CHARACTER
  }

  /** `Acc` one level at a time. */
  lemma AccSplit(ss: seq<State>, rg: seq<Range>, rank: seq<nat>, i: int, w: seq<int>)
    requires Ranked(ss, rank) && 0 <= i < |ss| && IsSplit(ss[i])
    ensures Acc(ss, rg, rank, i, w) <==> Acc(ss, rg, rank, ss[i].out, w) || Acc(ss, rg, rank, ss[i].out1, w)
  {
  }

  lemma AccConsume(ss: seq<State>, rg: seq<Range>, rank: seq<nat>, i: int, w: seq<int>)
    requires Ranked(ss, rank) && 0 <= i < |ss| && !IsSplit(ss[i]) && ss[i].out != INVALID
    ensures Acc(ss, rg, rank, i, w) <==> w != [] && Consumes(rg, ss[i], w[0]) && Acc(ss, rg, rank, ss[i].out, w[1..])
  {
  }

  /** THE CONSTRUCTION IS CORRECT. With all exits of a block leading to k, its entry state accepts exactly a
      word of e followed by what k accepts. */
  lemma {:induction false} FragmentAccepts(ss: seq<State>, rg: seq<Range>, rank: seq<nat>, e: Re, lo: nat, k: int, w: seq<int>)
    requires Ranked(ss, rank) && Wired(ss, rg, e, lo) && Linked(ss, lo, Outs(e), k) && 0 <= k
    requires Safe(e) && Text(w)
    ensures Acc(ss, rg, rank, lo + Start(e), w) <==> Splits(ss, rg, rank, e, k, w)
    decreases e, |w|, 1
  {
    hide *;
    match e
    case Leaf(a) => LeafAccepts(ss, rg, rank, a, lo, k, w);
    case Cat(a, b) => CatAccepts(ss, rg, rank, a, b, lo, k, w);
    case Alt(a, b) => AltAccepts(ss, rg, rank, a, b, lo, k, w);
    case Opt(a) => OptAccepts(ss, rg, rank, a, lo, k, w);
    case Star(a) => StarAccepts(ss, rg, rank, a, lo, k, w);
    case Plus(a) => PlusAccepts(ss, rg, rank, a, lo, k, w);
  }

  lemma LeafAccepts(ss: seq<State>, rg: seq<Range>, rank: seq<nat>, a: Atom, lo: nat, k: int, w: seq<int>)
    requires Ranked(ss, rank) && Wired(ss, rg, Leaf(a), lo) && Linked(ss, lo, Outs(Leaf(a)), k) && 0 <= k
    requires Text(w)
    ensures Acc(ss, rg, rank, lo + Start(Leaf(a)), w) <==> Splits(ss, rg, rank, Leaf(a), k, w)
  {
    hide Wired, Acc, Consumes, Matches;
    WiredLeaf(ss, rg, a, lo);
    assert ss[lo + Outs(Leaf(a))[0]].out == k;
    AccConsume(ss, rg, rank, lo, w);
    if w != [] {
      AtomMeaning(rg, ss[lo], a, w[0]);
      assert w[..1] == [w[0]];
      if Matches(a, w[0]) && Acc(ss, rg, rank, k, w[1..]) {
        SplitsIntro(ss, rg, rank, Leaf(a), k, w, 1);
      }
    }
  }

  /** A word of a, a word of b, and the rest accepted from k. */
  ghost predicate Splits2(ss: seq<State>, rg: seq<Range>, rank: seq<nat>, a: Re, b: Re, k: int, w: seq<int>)
    requires Ranked(ss, rank)
  {
    exists i | 0 <= i <= |w| :: In(a, w[..i]) && Splits(ss, rg, rank, b, k, w[i..])
  }

  /** On every rest of w, state j accepts a word of b followed by what k accepts. */
  ghost predicate TailsAgree(ss: seq<State>, rg: seq<Range>, rank: seq<nat>, j: int, b: Re, k: int, w: seq<int>)
    requires Ranked(ss, rank)
  {
    forall i | 0 <= i <= |w| :: Acc(ss, rg, rank, j, w[i..]) <==> Splits(ss, rg, rank, b, k, w[i..])
  }

  lemma SplitsThen(ss: seq<State>, rg: seq<Range>, rank: seq<nat>, a: Re, b: Re, j: int, k: int, w: seq<int>)
    requires Ranked(ss, rank)
    requires TailsAgree(ss, rg, rank, j, b, k, w)
    ensures Splits(ss, rg, rank, a, j, w) <==> Splits2(ss, rg, rank, a, b, k, w)
  {
    hide Acc, In;
  }

  lemma SplitsCat(ss: seq<State>, rg: seq<Range>, rank: seq<nat>, a: Re, b: Re, k: int, w: seq<int>)
    requires Ranked(ss, rank)
    ensures Splits2(ss, rg, rank, a, b, k, w) <==> Splits(ss, rg, rank, Cat(a, b), k, w)
  {
    hide *;
    if Splits2(ss, rg, rank, a, b, k, w) {
      JoinSplits(ss, rg, rank, a, b, k, w);
    }
    if Splits(ss, rg, rank, Cat(a, b), k, w) {
      CutSplits(ss, rg, rank, a, b, k, w);
    }
  }

  lemma JoinSplits(ss: seq<State>, rg: seq<Range>, rank: seq<nat>, a: Re, b: Re, k: int, w: seq<int>)
    requires Ranked(ss, rank) && Splits2(ss, rg, rank, a, b, k, w)
    ensures Splits(ss, rg, rank, Cat(a, b), k, w)
  {
    hide Acc, In;
    var i :| 0 <= i <= |w| && In(a, w[..i]) && Splits(ss, rg, rank, b, k, w[i..]);
    var j :| 0 <= j <= |w[i..]| && In(b, w[i..][..j]) && Acc(ss, rg, rank, k, w[i..][j..]);
    Cuts(w, i, j);
    CatIntro(a, b, w[..i + j], i);
    SplitsIntro(ss, rg, rank, Cat(a, b), k, w, i + j);
  }

  lemma CutSplits(ss: seq<State>, rg: seq<Range>, rank: seq<nat>, a: Re, b: Re, k: int, w: seq<int>)
    requires Ranked(ss, rank) && Splits(ss, rg, rank, Cat(a, b), k, w)
    ensures Splits2(ss, rg, rank, a, b, k, w)
  {
    hide Acc, In;
    var n :| 0 <= n <= |w| && In(Cat(a, b), w[..n]) && Acc(ss, rg, rank, k, w[n..]);
    var i := CatElim(a, b, w[..n]);
    Cuts(w, i, n - i);
    SplitsIntro(ss, rg, rank, b, k, w[i..], n - i);
  }

  lemma {:induction false} FragmentTails(ss: seq<State>, rg: seq<Range>, rank: seq<nat>, e: Re, lo: nat, k: int, w: seq<int>)
    requires Ranked(ss, rank) && Wired(ss, rg, e, lo) && Linked(ss, lo, Outs(e), k) && 0 <= k
    requires Safe(e) && Text(w)
    ensures TailsAgree(ss, rg, rank, lo + Start(e), e, k, w)
    decreases e, |w|, 2
  {
    hide Acc, In, Splits, Wired, Linked, Outs, Start, Safe, Ranked;
    forall i | 0 <= i <= |w|
      ensures Acc(ss, rg, rank, lo + Start(e), w[i..]) <==> Splits(ss, rg, rank, e, k, w[i..])
    {
      FragmentAccepts(ss, rg, rank, e, lo, k, w[i..]);
    }
  }

  lemma {:induction false} CatAccepts(ss: seq<State>, rg: seq<Range>, rank: seq<nat>, a: Re, b: Re, lo: nat, k: int, w: seq<int>)
    requires Ranked(ss, rank) && Wired(ss, rg, Cat(a, b), lo) && Linked(ss, lo, Outs(Cat(a, b)), k) && 0 <= k
    requires Safe(Cat(a, b)) && Text(w)
    ensures Acc(ss, rg, rank, lo + Start(Cat(a, b)), w) <==> Splits(ss, rg, rank, Cat(a, b), k, w)
    decreases Cat(a, b), |w|, 0
  {
    hide *;
    SafePair(a, b);
    LayoutCat(a, b);
    WiredCat(ss, rg, a, b, lo);
    LinkedUp(ss, lo, Outs(b), Size(a), k);
    FragmentAccepts(ss, rg, rank, a, lo, lo + Size(a) + Start(b), w);
    FragmentTails(ss, rg, rank, b, lo + Size(a), k, w);
    SplitsThen(ss, rg, rank, a, b, lo + Size(a) + Start(b), k, w);
    SplitsCat(ss, rg, rank, a, b, k, w);
  }

  /** The exits of the second operand, seen from the start of the first. */
  lemma LinkedUp(ss: seq<State>, lo: nat, outs: seq<nat>, d: nat, k: int)
    ensures Linked(ss, lo, Up(outs, d), k) <==> Linked(ss, lo + d, outs, k)
  {
    var up := Up(outs, d);
    assert forall i | 0 <= i < |outs| :: lo + up[i] == lo + d + outs[i];
    if Linked(ss, lo, up, k) {
      forall i | 0 <= i < |outs| ensures lo + d + outs[i] < |ss| && ss[lo + d + outs[i]].out == k {
        assert lo + up[i] < |ss|;
      }
    }
  }

  lemma {:induction false} AltAccepts(ss: seq<State>, rg: seq<Range>, rank: seq<nat>, a: Re, b: Re, lo: nat, k: int, w: seq<int>)
    requires Ranked(ss, rank) && Wired(ss, rg, Alt(a, b), lo) && Linked(ss, lo, Outs(Alt(a, b)), k) && 0 <= k
    requires Safe(Alt(a, b)) && Text(w)
    ensures Acc(ss, rg, rank, lo + Start(Alt(a, b)), w) <==> Splits(ss, rg, rank, Alt(a, b), k, w)
    decreases Alt(a, b), |w|, 0
  {
    hide Acc, In, Wired, Linked, Safe, Size, Start, Outs, Splits, Ranked, Text;
    SafePair(a, b);
    LayoutAlt(a, b);
    WiredAlt(ss, rg, a, b, lo);
    LinkedSplit(ss, lo, Outs(a), Up(Outs(b), Size(a)), k);
    LinkedUp(ss, lo, Outs(b), Size(a), k);
    FragmentAccepts(ss, rg, rank, a, lo, k, w);
    FragmentAccepts(ss, rg, rank, b, lo + Size(a), k, w);
    AccSplit(ss, rg, rank, lo + Size(a) + Size(b), w);
    SplitsAlt(ss, rg, rank, a, b, k, w);
  }

  lemma SplitsAlt(ss: seq<State>, rg: seq<Range>, rank: seq<nat>, a: Re, b: Re, k: int, w: seq<int>)
    requires Ranked(ss, rank)
    ensures Splits(ss, rg, rank, Alt(a, b), k, w) <==> Splits(ss, rg, rank, a, k, w) || Splits(ss, rg, rank, b, k, w)
  {
    hide Acc;
  }

  lemma LinkedSplit(ss: seq<State>, lo: nat, outs: seq<nat>, outs': seq<nat>, k: int)
    ensures Linked(ss, lo, outs + outs', k) <==> Linked(ss, lo, outs, k) && Linked(ss, lo, outs', k)
  {
    var all := outs + outs';
    if Linked(ss, lo, all, k) {
      assert forall i | 0 <= i < |outs| :: all[i] == outs[i];
      forall i | 0 <= i < |outs'| ensures lo + outs'[i] < |ss| && ss[lo + outs'[i]].out == k {
        assert all[|outs| + i] == outs'[i];
      }
    }
  }

  /** A list of one exit. */
  lemma LinkedOne(ss: seq<State>, lo: nat, x: nat, k: int)
    ensures Linked(ss, lo, [x], k) <==> lo + x < |ss| && ss[lo + x].out == k
  {
    assert [x][0] == x;
  }

  lemma {:induction false} OptAccepts(ss: seq<State>, rg: seq<Range>, rank: seq<nat>, a: Re, lo: nat, k: int, w: seq<int>)
    requires Ranked(ss, rank) && Wired(ss, rg, Opt(a), lo) && Linked(ss, lo, Outs(Opt(a)), k) && 0 <= k
    requires Safe(Opt(a)) && Text(w)
    ensures Acc(ss, rg, rank, lo + Start(Opt(a)), w) <==> Splits(ss, rg, rank, Opt(a), k, w)
    decreases Opt(a), |w|, 0
  {
    hide Acc, In, Wired, Linked, Safe, Size, Start, Outs, Splits, Ranked, Text;
    SafeOne(a);
    LayoutOpt(a);
    WiredOpt(ss, rg, a, lo);
    LinkedSplit(ss, lo, Outs(a), [Size(a)], k);
    LinkedOne(ss, lo, Size(a), k);
    FragmentAccepts(ss, rg, rank, a, lo, k, w);
    AccSplit(ss, rg, rank, lo + Size(a), w);
    SplitsOpt(ss, rg, rank, a, k, w);
  }

  lemma SplitsOpt(ss: seq<State>, rg: seq<Range>, rank: seq<nat>, a: Re, k: int, w: seq<int>)
    requires Ranked(ss, rank)
    ensures Splits(ss, rg, rank, Opt(a), k, w) <==> Acc(ss, rg, rank, k, w) || Splits(ss, rg, rank, a, k, w)
  {
    hide Acc;
    assert w[..0] == [] && w[0..] == w;
    if Acc(ss, rg, rank, k, w) {
      SplitsIntro(ss, rg, rank, Opt(a), k, w, 0);
    }
    if Splits(ss, rg, rank, a, k, w) {
      var i :| 0 <= i <= |w| && In(a, w[..i]) && Acc(ss, rg, rank, k, w[i..]);
      SplitsIntro(ss, rg, rank, Opt(a), k, w, i);
    }
  }

  /** The loop state of `*` and `+`: it accepts zero or more words of a, then what k accepts. Since a word of a
      non-nullable body is not empty, the input shrinks with every round. */
  lemma {:induction false} LoopAccepts(ss: seq<State>, rg: seq<Range>, rank: seq<nat>, a: Re, lo: nat, k: int, w: seq<int>)
    requires Ranked(ss, rank) && Wired(ss, rg, Star(a), lo) && ss[lo + Size(a)].out == k && 0 <= k
    requires Safe(a) && !Nullable(a) && Text(w)
    ensures Acc(ss, rg, rank, lo + Size(a), w) <==> Splits(ss, rg, rank, Star(a), k, w)
    decreases a, |w|, 2
  {
    hide Acc, In, Wired, Linked, Safe, Size, Start, Outs, Splits, Splits2, Ranked;
    var s := lo + Size(a);
    WiredLoop(ss, rg, a, lo);
    FragmentAccepts(ss, rg, rank, a, lo, s, w);
    NullableCorrect(a);
    forall i | 0 < i <= |w|
      ensures Acc(ss, rg, rank, s, w[i..]) <==> Splits(ss, rg, rank, Star(a), k, w[i..])
    {
      LoopAccepts(ss, rg, rank, a, lo, k, w[i..]);
    }
    LoopThen(ss, rg, rank, a, s, k, w);
    AccSplit(ss, rg, rank, s, w);
    SplitsStar(ss, rg, rank, a, k, w);
  }

  lemma LoopThen(ss: seq<State>, rg: seq<Range>, rank: seq<nat>, a: Re, s: int, k: int, w: seq<int>)
    requires Ranked(ss, rank) && !In(a, [])
    requires forall i | 0 < i <= |w| :: Acc(ss, rg, rank, s, w[i..]) <==> Splits(ss, rg, rank, Star(a), k, w[i..])
    ensures Splits(ss, rg, rank, a, s, w) <==> Splits2(ss, rg, rank, a, Star(a), k, w)
  {
    hide Acc, In;
    assert w[..0] == [];
  }

  lemma SplitsStar(ss: seq<State>, rg: seq<Range>, rank: seq<nat>, a: Re, k: int, w: seq<int>)
    requires Ranked(ss, rank)
    ensures Splits(ss, rg, rank, Star(a), k, w) <==> Acc(ss, rg, rank, k, w) || Splits2(ss, rg, rank, a, Star(a), k, w)
  {
    hide Acc, In, Splits2;
    SplitsCat(ss, rg, rank, a, Star(a), k, w);
    assert w[..0] == [] && w[0..] == w;
    forall i | 0 <= i <= |w| ensures In(Star(a), w[..i]) <==> i == 0 || In(Cat(a, Star(a)), w[..i]) {
      StarUnfold(a, w[..i]);
    }
    if Acc(ss, rg, rank, k, w) {
      SplitsIntro(ss, rg, rank, Star(a), k, w, 0);
    }
  }

  lemma StarPower(a: Re, w: seq<int>) returns (n: nat)
    requires In(Star(a), w)
    ensures Power(a, n, w)
  {
    n :| Power(a, n, w);
  }

  lemma PowerStar(a: Re, n: nat, w: seq<int>)
    requires Power(a, n, w)
    ensures In(Star(a), w) && (n > 0 ==> In(Plus(a), w))
  {
  }

  lemma PowerUnfold(a: Re, n: nat, w: seq<int>)
    requires n > 0 && Power(a, n, w)
    ensures In(Cat(a, Star(a)), w)
  {
    hide In, Power;
    var i := PowerElim(a, n, w);
    PowerStar(a, n - 1, w[i..]);
    CatIntro(a, Star(a), w, i);
  }

  lemma PowerFold(a: Re, w: seq<int>) returns (n: nat)
    requires In(Cat(a, Star(a)), w)
    ensures n > 0 && Power(a, n, w)
  {
    hide In, Power;
    var i := CatElim(a, Star(a), w);
    var m := StarPower(a, w[i..]);
    PowerStep(a, m, w, i);
    n := m + 1;
  }

  lemma PlusPower(a: Re, w: seq<int>) returns (n: nat)
    requires In(Plus(a), w)
    ensures n > 0 && Power(a, n, w)
  {
    n :| n > 0 && Power(a, n, w);
  }

  lemma StarUnfold(a: Re, w: seq<int>)
    ensures In(Star(a), w) <==> w == [] || In(Cat(a, Star(a)), w)
    ensures In(Plus(a), w) <==> In(Cat(a, Star(a)), w)
  {
    assert Power(a, 0, []);
    assert Power(a, 0, w) ==> w == [];
    hide In, Power;
    PowerStar(a, 0, []);
    if In(Star(a), w) {
      var n := StarPower(a, w);
      if n > 0 { PowerUnfold(a, n, w); }
    }
    if In(Plus(a), w) {
      var n := PlusPower(a, w);
      PowerUnfold(a, n, w);
    }
    if In(Cat(a, Star(a)), w) {
      var n := PowerFold(a, w);
      PowerStar(a, n, w);
    }
  }

  lemma {:induction false} StarAccepts(ss: seq<State>, rg: seq<Range>, rank: seq<nat>, a: Re, lo: nat, k: int, w: seq<int>)
    requires Ranked(ss, rank) && Wired(ss, rg, Star(a), lo) && Linked(ss, lo, Outs(Star(a)), k) && 0 <= k
    requires Safe(Star(a)) && Text(w)
    ensures Acc(ss, rg, rank, lo + Start(Star(a)), w) <==> Splits(ss, rg, rank, Star(a), k, w)
    decreases Star(a), |w|, 0
  {
    hide *;
    SafeOne(a);
    LayoutLoop(a);
    LinkedOne(ss, lo, Size(a), k);
    LoopAccepts(ss, rg, rank, a, lo, k, w);
  }

  lemma {:induction false} LoopTails(ss: seq<State>, rg: seq<Range>, rank: seq<nat>, a: Re, lo: nat, k: int, w: seq<int>)
    requires Ranked(ss, rank) && Wired(ss, rg, Star(a), lo) && ss[lo + Size(a)].out == k && 0 <= k
    requires Safe(a) && !Nullable(a) && Text(w)
    ensures TailsAgree(ss, rg, rank, lo + Size(a), Star(a), k, w)
    decreases a, |w|, 3
  {
    hide Acc, In, Splits, Wired, Linked, Safe, Nullable, Size, Ranked;
    forall i | 0 <= i <= |w|
      ensures Acc(ss, rg, rank, lo + Size(a), w[i..]) <==> Splits(ss, rg, rank, Star(a), k, w[i..])
    {
      LoopAccepts(ss, rg, rank, a, lo, k, w[i..]);
    }
  }

  lemma {:induction false} PlusAccepts(ss: seq<State>, rg: seq<Range>, rank: seq<nat>, a: Re, lo: nat, k: int, w: seq<int>)
    requires Ranked(ss, rank) && Wired(ss, rg, Plus(a), lo) && Linked(ss, lo, Outs(Plus(a)), k) && 0 <= k
    requires Safe(Plus(a)) && Text(w)
    ensures Acc(ss, rg, rank, lo + Start(Plus(a)), w) <==> Splits(ss, rg, rank, Plus(a), k, w)
    decreases Plus(a), |w|, 0
  {
    hide *;
    SafeOne(a);
    LayoutLoop(a);
    WiredLoop(ss, rg, a, lo);
    LinkedOne(ss, lo, Size(a), k);
    FragmentAccepts(ss, rg, rank, a, lo, lo + Size(a), w);
    LoopTails(ss, rg, rank, a, lo, k, w);
    SplitsThen(ss, rg, rank, a, Star(a), lo + Size(a), k, w);
    SplitsPlus(ss, rg, rank, a, k, w);
  }

  lemma SplitsPlus(ss: seq<State>, rg: seq<Range>, rank: seq<nat>, a: Re, k: int, w: seq<int>)
    requires Ranked(ss, rank)
    ensures Splits(ss, rg, rank, Plus(a), k, w) <==> Splits2(ss, rg, rank, a, Star(a), k, w)
  {
    hide Acc, In, Splits2;
    SplitsCat(ss, rg, rank, a, Star(a), k, w);
    forall i | 0 <= i <= |w| ensures In(Plus(a), w[..i]) <==> In(Cat(a, Star(a)), w[..i]) {
      StarUnfold(a, w[..i]);
    }
  }
}
