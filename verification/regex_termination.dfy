/** `AddState` recurses along the epsilon graph without marking split states. It returns from every state
    exactly when no body under `*` or `+` is nullable. */
module RegexTermination {
  import opened RegexLanguage
  import opened RegexFragments
  import opened RegexAcceptance

  /** A whole automaton: the block of e, then the matching state all its exits lead to. */
  ghost predicate Compiled(ss: seq<State>, rg: seq<Range>, e: Re) {
    && |ss| == Size(e) + 1
    && Wired(ss, rg, e, 0)
    && Linked(ss, 0, Outs(e), Size(e))
    && ss[Size(e)] == State(INVALID, INVALID, INVALID, 0)
  }

  /** `AddState(i)` nests calls at least n deep. */
  ghost predicate Nests(ss: seq<State>, i: int, n: nat)
    decreases n
  {
    n == 0
    || (0 <= i < |ss| && IsSplit(ss[i]) && (Nests(ss, ss[i].out, n - 1) || Nests(ss, ss[i].out1, n - 1)))
  }

  /** `AddState(i)` returns: there is a bound on how deep its calls nest. */
  ghost predicate Returns(ss: seq<State>, i: int) {
    exists n: nat :: !Nests(ss, i, n)
  }

  /** ---- Safe expressions: an explicit rank ---- */

  function Max(a: nat, b: nat): nat {
    if a < b then b else a
  }

  /** Rank of the entry state when the continuation has rank r. */
  function RankStart(e: Re, r: nat): nat {
    match e
    case Leaf(_) => 0
    case Cat(a, b) => RankStart(a, RankStart(b, r))
    case Alt(a, b) => 1 + Max(RankStart(a, r), RankStart(b, r))
    case Opt(a) => 1 + Max(r, RankStart(a, r))
    case Star(a) => 1 + Max(r, RankStart(a, 0))
    case Plus(a) => RankStart(a, 0)
  }

  /** Rank of state j of the block at lo. */
  function RankOf(e: Re, lo: nat, r: nat, j: nat): nat {
    match e
    case Leaf(_) => 0
    case Cat(a, b) => if j < lo + Size(a) then RankOf(a, lo, RankStart(b, r), j) else RankOf(b, lo + Size(a), r, j)
    case Alt(a, b) =>
      if j < lo + Size(a) then RankOf(a, lo, r, j)
      else if j < lo + Size(a) + Size(b) then RankOf(b, lo + Size(a), r, j)
      else 1 + Max(RankStart(a, r), RankStart(b, r))
    case Opt(a) => if j < lo + Size(a) then RankOf(a, lo, r, j) else 1 + Max(r, RankStart(a, r))
    case Star(a) => var s := 1 + Max(r, RankStart(a, 0)); if j < lo + Size(a) then RankOf(a, lo, s, j) else s
    case Plus(a) => var s := 1 + Max(r, RankStart(a, 0)); if j < lo + Size(a) then RankOf(a, lo, s, j) else s
  }

  /** From a non-nullable expression, no epsilon path reaches the continuation. */
  lemma {:induction false} RankStartLocal(e: Re, r: nat, r': nat)
    requires Safe(e) && !Nullable(e)
    ensures RankStart(e, r) == RankStart(e, r')
  {
    match e
    case Leaf(_) =>
    case Cat(a, b) =>
      if !Nullable(a) {
        RankStartLocal(a, RankStart(b, r), RankStart(b, r'));
      } else {
        RankStartLocal(b, r, r');
      }
    case Alt(a, b) =>
      RankStartLocal(a, r, r');
      RankStartLocal(b, r, r');
    case Plus(a) =>
  }

  /** The block at lo carries the ranks of e. */
  ghost predicate HasRanks(rank: seq<nat>, e: Re, lo: nat, r: nat): (b: bool)
    ensures b ==> lo + Size(e) <= |rank|
    decreases e, 0
  {
    lo + Size(e) <= |rank| &&
    match e
    case Leaf(_) => rank[lo] == 0
    case Cat(a, b) => HasRanks(rank, a, lo, RankStart(b, r)) && HasRanks(rank, b, lo + Size(a), r)
    case Alt(a, b) =>
      && HasRanks(rank, a, lo, r) && HasRanks(rank, b, lo + Size(a), r)
      && rank[lo + Size(a) + Size(b)] == 1 + Max(RankStart(a, r), RankStart(b, r))
    case Opt(a) => HasRanks(rank, a, lo, r) && rank[lo + Size(a)] == 1 + Max(r, RankStart(a, r))
    case Star(a) => LoopHasRanks(rank, a, lo, r)
    case Plus(a) => LoopHasRanks(rank, a, lo, r)
  }

  ghost predicate LoopHasRanks(rank: seq<nat>, a: Re, lo: nat, r: nat)
    decreases a, 1
  {
    var s := 1 + Max(r, RankStart(a, 0));
    lo + Size(a) < |rank| && HasRanks(rank, a, lo, s) && rank[lo + Size(a)] == s
  }

  /** `HasRanks` of each operator, one level at a time. */
  lemma CatHas(rank: seq<nat>, a: Re, b: Re, lo: nat, r: nat)
    ensures HasRanks(rank, Cat(a, b), lo, r) <==> HasRanks(rank, a, lo, RankStart(b, r)) && HasRanks(rank, b, lo + Size(a), r)
  {
    hide Size, RankStart, LoopHasRanks;
    LayoutCat(a, b);
  }

  lemma AltHas(rank: seq<nat>, a: Re, b: Re, lo: nat, r: nat)
    ensures HasRanks(rank, Alt(a, b), lo, r) <==>
            && HasRanks(rank, a, lo, r) && HasRanks(rank, b, lo + Size(a), r) && lo + Size(a) + Size(b) < |rank|
            && rank[lo + Size(a) + Size(b)] == 1 + Max(RankStart(a, r), RankStart(b, r))
  {
    hide Size, RankStart, LoopHasRanks;
    LayoutAlt(a, b);
  }

  lemma OptHas(rank: seq<nat>, a: Re, lo: nat, r: nat)
    ensures HasRanks(rank, Opt(a), lo, r) <==>
            && HasRanks(rank, a, lo, r) && lo + Size(a) < |rank| && rank[lo + Size(a)] == 1 + Max(r, RankStart(a, r))
  {
  }

  lemma LoopHas(rank: seq<nat>, a: Re, lo: nat, r: nat)
    ensures HasRanks(rank, Star(a), lo, r) <==> LoopHasRanks(rank, a, lo, r)
    ensures HasRanks(rank, Plus(a), lo, r) <==> LoopHasRanks(rank, a, lo, r)
  {
  }

  /** The ranks of `RankOf`, over the block of e at lo. */
  ghost predicate GivesRanks(rank: seq<nat>, e: Re, lo: nat, r: nat) {
    lo + Size(e) <= |rank| && forall j | lo <= j < lo + Size(e) :: rank[j] == RankOf(e, lo, r, j)
  }

  lemma CatGives(rank: seq<nat>, a: Re, b: Re, lo: nat, r: nat)
    requires GivesRanks(rank, Cat(a, b), lo, r)
    ensures GivesRanks(rank, a, lo, RankStart(b, r)) && GivesRanks(rank, b, lo + Size(a), r)
  {
    hide Size, RankStart;
    LayoutCat(a, b);
  }

  lemma AltGives(rank: seq<nat>, a: Re, b: Re, lo: nat, r: nat)
    requires GivesRanks(rank, Alt(a, b), lo, r)
    ensures GivesRanks(rank, a, lo, r) && GivesRanks(rank, b, lo + Size(a), r) && lo + Size(a) + Size(b) < |rank|
    ensures rank[lo + Size(a) + Size(b)] == 1 + Max(RankStart(a, r), RankStart(b, r))
  {
    hide Size, RankStart;
    LayoutAlt(a, b);
  }

  lemma OptGives(rank: seq<nat>, a: Re, lo: nat, r: nat)
    requires GivesRanks(rank, Opt(a), lo, r)
    ensures GivesRanks(rank, a, lo, r) && lo + Size(a) < |rank| && rank[lo + Size(a)] == 1 + Max(r, RankStart(a, r))
  {
    hide Size, RankStart;
    LayoutOpt(a);
  }

  lemma LoopGives(rank: seq<nat>, e: Re, a: Re, lo: nat, r: nat)
    requires (e == Star(a) || e == Plus(a)) && GivesRanks(rank, e, lo, r)
    ensures var s := 1 + Max(r, RankStart(a, 0));
            GivesRanks(rank, a, lo, s) && lo + Size(a) < |rank| && rank[lo + Size(a)] == s
  {
    hide Size, RankStart;
    LayoutLoop(a);
  }

  lemma {:induction false} RanksHave(rank: seq<nat>, e: Re, lo: nat, r: nat)
    requires GivesRanks(rank, e, lo, r)
    ensures HasRanks(rank, e, lo, r)
    decreases e, 1
  {
    match e
    case Leaf(_) =>
    case Cat(a, b) => PairRanksHave(rank, e, a, b, lo, r);
    case Alt(a, b) => PairRanksHave(rank, e, a, b, lo, r);
    case Opt(a) => OneRanksHave(rank, e, a, lo, r);
    case Star(a) => OneRanksHave(rank, e, a, lo, r);
    case Plus(a) => OneRanksHave(rank, e, a, lo, r);
  }

  lemma {:induction false} PairRanksHave(rank: seq<nat>, e: Re, a: Re, b: Re, lo: nat, r: nat)
    requires (e == Cat(a, b) || e == Alt(a, b)) && GivesRanks(rank, e, lo, r)
    ensures HasRanks(rank, e, lo, r)
    decreases e, 0
  {
    hide *;
    if e == Cat(a, b) {
      CatGives(rank, a, b, lo, r);
      RanksHave(rank, a, lo, RankStart(b, r));
      CatHas(rank, a, b, lo, r);
    } else {
      AltGives(rank, a, b, lo, r);
      RanksHave(rank, a, lo, r);
      AltHas(rank, a, b, lo, r);
    }
    RanksHave(rank, b, lo + Size(a), r);
  }

  lemma {:induction false} OneRanksHave(rank: seq<nat>, e: Re, a: Re, lo: nat, r: nat)
    requires (e == Opt(a) || e == Star(a) || e == Plus(a)) && GivesRanks(rank, e, lo, r)
    ensures HasRanks(rank, e, lo, r)
    decreases e, 0
  {
    hide GivesRanks, HasRanks, Size, RankStart, Max;
    if e == Opt(a) {
      OptGives(rank, a, lo, r);
      RanksHave(rank, a, lo, r);
      OptHas(rank, a, lo, r);
    } else {
      LoopGives(rank, e, a, lo, r);
      RanksHave(rank, a, lo, 1 + Max(r, RankStart(a, 0)));
      LoopHas(rank, a, lo, r);
    }
  }

  lemma {:induction false} StartRank(rank: seq<nat>, e: Re, lo: nat, r: nat)
    requires Safe(e) && HasRanks(rank, e, lo, r)
    ensures rank[lo + Start(e)] == RankStart(e, r)
    decreases e, 1
  {
    match e
    case Leaf(_) =>
    case Cat(a, b) => StartRank(rank, a, lo, RankStart(b, r));
    case Alt(a, b) =>
    case Opt(a) =>
    case Star(a) =>
    case Plus(a) => PlusStartRank(rank, a, lo, r);
  }

  lemma {:induction false} PlusStartRank(rank: seq<nat>, a: Re, lo: nat, r: nat)
    requires Safe(Plus(a)) && HasRanks(rank, Plus(a), lo, r)
    ensures rank[lo + Start(Plus(a))] == RankStart(Plus(a), r)
    decreases Plus(a), 0
  {
    assert RankStart(Plus(a), r) == RankStart(a, 0);
    hide Safe, Size, Start, RankStart, HasRanks;
    SafeOne(a);
    LayoutLoop(a);
    LoopHas(rank, a, lo, r);
    var s := 1 + Max(r, RankStart(a, 0));
    StartRank(rank, a, lo, s);
    RankStartLocal(a, s, 0);
  }

  /** The ranges of a consuming state, if it has any, can be followed to their end. */
  predicate RangesEnd(rg: seq<Range>, s: State) {
    !IsSplit(s) && s.codepoint == RANGE_CHARACTER ==> ChainEnds(rg, s.rangeStart)
  }

  /** State i leads into the table, and ranks above both of its branches when it is a split. */
  ghost predicate Descends(ss: seq<State>, rg: seq<Range>, rank: seq<nat>, i: int) {
    && |rank| == |ss| && 0 <= i < |ss| && 0 <= ss[i].out < |ss| && RangesEnd(rg, ss[i])
    && (IsSplit(ss[i]) ==> 0 <= ss[i].out1 < |ss| && rank[ss[i].out] < rank[i] && rank[ss[i].out1] < rank[i])
  }

  ghost predicate AllDescend(ss: seq<State>, rg: seq<Range>, rank: seq<nat>, lo: nat, hi: nat) {
    forall i | lo <= i < hi :: Descends(ss, rg, rank, i)
  }

  lemma {:induction false} BlockRanked(ss: seq<State>, rg: seq<Range>, rank: seq<nat>, e: Re, lo: nat, k: nat)
    requires Wired(ss, rg, e, lo) && Linked(ss, lo, Outs(e), k) && Safe(e) && k < |ss| == |rank|
    requires HasRanks(rank, e, lo, rank[k])
    ensures AllDescend(ss, rg, rank, lo, lo + Size(e))
    decreases e, 1
  {
    hide *;
    match e
    case Leaf(a) => LeafRanked(ss, rg, rank, a, lo, k);
    case Cat(a, b) => CatRanked(ss, rg, rank, a, b, lo, k);
    case Alt(a, b) => AltRanked(ss, rg, rank, a, b, lo, k);
    case Opt(a) => OptRanked(ss, rg, rank, a, lo, k);
    case Star(a) => LoopRanked(ss, rg, rank, e, a, lo, k);
    case Plus(a) => LoopRanked(ss, rg, rank, e, a, lo, k);
  }

  lemma LeafRanked(ss: seq<State>, rg: seq<Range>, rank: seq<nat>, a: Atom, lo: nat, k: nat)
    requires Wired(ss, rg, Leaf(a), lo) && Linked(ss, lo, Outs(Leaf(a)), k) && k < |ss| == |rank|
    ensures AllDescend(ss, rg, rank, lo, lo + Size(Leaf(a)))
  {
    hide Wired;
    WiredLeaf(ss, rg, a, lo);
    LinkedOne(ss, lo, 0, k);
    if a.Class? {
      ChainIsFinite(rg, ss[lo].rangeStart, a.negated, a.ranges, 0);
    }
  }

  lemma {:induction false} CatRanked(ss: seq<State>, rg: seq<Range>, rank: seq<nat>, a: Re, b: Re, lo: nat, k: nat)
    requires Wired(ss, rg, Cat(a, b), lo) && Linked(ss, lo, Outs(Cat(a, b)), k) && Safe(Cat(a, b))
    requires k < |ss| == |rank| && HasRanks(rank, Cat(a, b), lo, rank[k])
    ensures AllDescend(ss, rg, rank, lo, lo + Size(Cat(a, b)))
    decreases Cat(a, b), 0
  {
    hide Wired, Linked, Safe, Size, Start, Outs, HasRanks, RankStart, Descends;
    SafePair(a, b);
    LayoutCat(a, b);
    WiredCat(ss, rg, a, b, lo);
    CatHas(rank, a, b, lo, rank[k]);
    var mid := lo + Size(a);
    StartRank(rank, b, mid, rank[k]);
    LinkedUp(ss, lo, Outs(b), Size(a), k);
    BlockRanked(ss, rg, rank, a, lo, mid + Start(b));
    BlockRanked(ss, rg, rank, b, mid, k);
  }

  lemma {:induction false} AltRanked(ss: seq<State>, rg: seq<Range>, rank: seq<nat>, a: Re, b: Re, lo: nat, k: nat)
    requires Wired(ss, rg, Alt(a, b), lo) && Linked(ss, lo, Outs(Alt(a, b)), k) && Safe(Alt(a, b))
    requires k < |ss| == |rank| && HasRanks(rank, Alt(a, b), lo, rank[k])
    ensures AllDescend(ss, rg, rank, lo, lo + Size(Alt(a, b)))
    decreases Alt(a, b), 0
  {
    hide Wired, Linked, Safe, Size, Start, Outs, HasRanks, RankStart;
    SafePair(a, b);
    LayoutAlt(a, b);
    WiredAlt(ss, rg, a, b, lo);
    var mid, r := lo + Size(a), rank[k];
    AltHas(rank, a, b, lo, r);
    LinkedSplit(ss, lo, Outs(a), Up(Outs(b), Size(a)), k);
    LinkedUp(ss, lo, Outs(b), Size(a), k);
    StartRank(rank, a, lo, r);
    StartRank(rank, b, mid, r);
    assert Descends(ss, rg, rank, mid + Size(b));
    hide Descends, Max;
    BlockRanked(ss, rg, rank, a, lo, k);
    BlockRanked(ss, rg, rank, b, mid, k);
  }

  lemma {:induction false} OptRanked(ss: seq<State>, rg: seq<Range>, rank: seq<nat>, a: Re, lo: nat, k: nat)
    requires Wired(ss, rg, Opt(a), lo) && Linked(ss, lo, Outs(Opt(a)), k) && Safe(Opt(a))
    requires k < |ss| == |rank| && HasRanks(rank, Opt(a), lo, rank[k])
    ensures AllDescend(ss, rg, rank, lo, lo + Size(Opt(a)))
    decreases Opt(a), 0
  {
    hide Wired, Linked, Safe, Size, Start, Outs, HasRanks, RankStart;
    SafeOne(a);
    LayoutOpt(a);
    WiredOpt(ss, rg, a, lo);
    OptHas(rank, a, lo, rank[k]);
    LinkedSplit(ss, lo, Outs(a), [Size(a)], k);
    LinkedOne(ss, lo, Size(a), k);
    StartRank(rank, a, lo, rank[k]);
    assert Descends(ss, rg, rank, lo + Size(a));
    hide Descends, Max;
    BlockRanked(ss, rg, rank, a, lo, k);
  }

  lemma {:induction false} LoopRanked(ss: seq<State>, rg: seq<Range>, rank: seq<nat>, e: Re, a: Re, lo: nat, k: nat)
    requires e == Star(a) || e == Plus(a)
    requires Wired(ss, rg, e, lo) && Linked(ss, lo, Outs(e), k) && Safe(e)
    requires k < |ss| == |rank| && HasRanks(rank, e, lo, rank[k])
    ensures AllDescend(ss, rg, rank, lo, lo + Size(e))
    decreases e, 0
  {
    hide Wired, Linked, Safe, Size, Start, Outs, HasRanks, RankStart;
    SafeOne(a);
    LayoutLoop(a);
    WiredLoop(ss, rg, a, lo);
    LoopHas(rank, a, lo, rank[k]);
    LinkedOne(ss, lo, Size(a), k);
    var s, r := lo + Size(a), 1 + Max(rank[k], RankStart(a, 0));
    StartRank(rank, a, lo, r);
    RankStartLocal(a, r, 0);
    assert Descends(ss, rg, rank, s);
    hide Descends, Max;
    BlockRanked(ss, rg, rank, a, lo, s);
  }

  /** A safe expression compiles to a ranked table whose states lead into the table, but for the matching one, and
      whose ranges can be followed. */
  lemma CompiledRanked(ss: seq<State>, rg: seq<Range>, e: Re) returns (rank: seq<nat>)
    requires Compiled(ss, rg, e) && Safe(e)
    ensures Ranked(ss, rank)
    ensures forall i | 0 <= i < Size(e) :: 0 <= ss[i].out < |ss|
    ensures forall i | 0 <= i < |ss| :: RangesEnd(rg, ss[i])
  {
    hide Wired, Linked, Safe, Size, Start, Outs, HasRanks, RankStart, RankOf;
    rank := seq(Size(e), j requires 0 <= j < Size(e) => RankOf(e, 0, 0, j)) + [0];
    assert GivesRanks(rank, e, 0, 0);
    RanksHave(rank, e, 0, 0);
    BlockRanked(ss, rg, rank, e, 0, Size(e));
    AllRanked(ss, rg, rank);
  }

  lemma AllRanked(ss: seq<State>, rg: seq<Range>, rank: seq<nat>)
    requires ss != [] && |rank| == |ss| && AllDescend(ss, rg, rank, 0, |ss| - 1)
    requires !IsSplit(ss[|ss| - 1]) && RangesEnd(rg, ss[|ss| - 1])
    ensures Ranked(ss, rank)
    ensures forall i | 0 <= i < |ss| - 1 :: 0 <= ss[i].out < |ss|
    ensures forall i | 0 <= i < |ss| :: RangesEnd(rg, ss[i])
  {
    hide RangesEnd, IsSplit;
    forall i | 0 <= i < |ss| - 1
      ensures 0 <= ss[i].out < |ss| && RangesEnd(rg, ss[i])
      ensures IsSplit(ss[i]) ==> 0 <= ss[i].out1 < |ss| && rank[ss[i].out] < rank[i] && rank[ss[i].out1] < rank[i]
    {
      assert Descends(ss, rg, rank, i);
    }
  }

  /** A rank bounds the nesting of calls. */
  lemma {:induction false} RankBoundsNesting(ss: seq<State>, rank: seq<nat>, i: int, n: nat)
    requires Ranked(ss, rank) && 0 <= i < |ss| && Nests(ss, i, n)
    ensures n <= rank[i]
    decreases n
  {
    if n > 0 {
      if Nests(ss, ss[i].out, n - 1) {
        RankBoundsNesting(ss, rank, ss[i].out, n - 1);
      } else {
        RankBoundsNesting(ss, rank, ss[i].out1, n - 1);
      }
    }
  }

  /** ---- Unsafe expressions: unbounded recursion ---- */

  lemma {:induction false} NestsLess(ss: seq<State>, i: int, n: nat)
    requires Nests(ss, i, n + 1)
    ensures Nests(ss, i, n)
    decreases n
  {
    if n > 0 {
      if Nests(ss, ss[i].out, n) {
        NestsLess(ss, ss[i].out, n - 1);
      } else {
        NestsLess(ss, ss[i].out1, n - 1);
      }
    }
  }

  lemma NestsSplit(ss: seq<State>, i: nat, n: nat)
    requires i < |ss| && IsSplit(ss[i])
    ensures Nests(ss, i, n + 1) <==> Nests(ss, ss[i].out, n) || Nests(ss, ss[i].out1, n)
  {
  }

  lemma NullableOne(a: Re)
    ensures Nullable(Opt(a)) && Nullable(Star(a)) && Nullable(Plus(a)) == Nullable(a)
  {
  }

  lemma NullablePair(a: Re, b: Re)
    ensures Nullable(Cat(a, b)) <==> Nullable(a) && Nullable(b)
    ensures Nullable(Alt(a, b)) <==> Nullable(a) || Nullable(b)
  {
  }

  /** From a nullable block the recursion runs through to the continuation. */
  lemma {:induction false} NullableNests(ss: seq<State>, rg: seq<Range>, e: Re, lo: nat, k: int, n: nat)
    requires Wired(ss, rg, e, lo) && Linked(ss, lo, Outs(e), k) && Nullable(e) && 0 <= k && Nests(ss, k, n)
    ensures Nests(ss, lo + Start(e), n + 1)
    decreases e, 1
  {
    hide Wired, Linked, Nests, Outs, Start;
    match e
    case Cat(a, b) => CatNests(ss, rg, a, b, lo, k, n);
    case Alt(a, b) => AltNests(ss, rg, a, b, lo, k, n);
    case Opt(a) => OptNests(ss, rg, a, lo, k, n);
    case Star(a) => LoopNests(ss, rg, a, lo, k, n);
    case Plus(a) => PlusNests(ss, rg, a, lo, k, n);
  }

  lemma {:induction false} CatNests(ss: seq<State>, rg: seq<Range>, a: Re, b: Re, lo: nat, k: int, n: nat)
    requires Wired(ss, rg, Cat(a, b), lo) && Linked(ss, lo, Outs(Cat(a, b)), k) && Nullable(Cat(a, b))
    requires 0 <= k && Nests(ss, k, n)
    ensures Nests(ss, lo + Start(Cat(a, b)), n + 1)
    decreases Cat(a, b), 0
  {
    hide *;
    NullablePair(a, b);
    LayoutCat(a, b);
    WiredCat(ss, rg, a, b, lo);
    LinkedUp(ss, lo, Outs(b), Size(a), k);
    NullableNests(ss, rg, b, lo + Size(a), k, n);
    NullableNests(ss, rg, a, lo, lo + Size(a) + Start(b), n + 1);
    NestsLess(ss, lo + Start(a), n + 1);
  }

  lemma {:induction false} AltNests(ss: seq<State>, rg: seq<Range>, a: Re, b: Re, lo: nat, k: int, n: nat)
    requires Wired(ss, rg, Alt(a, b), lo) && Linked(ss, lo, Outs(Alt(a, b)), k) && Nullable(Alt(a, b))
    requires 0 <= k && Nests(ss, k, n)
    ensures Nests(ss, lo + Start(Alt(a, b)), n + 1)
    decreases Alt(a, b), 0
  {
    hide Wired, Linked, Nests, Outs, Start, Size, Nullable;
    NullablePair(a, b);
    LayoutAlt(a, b);
    WiredAlt(ss, rg, a, b, lo);
    LinkedSplit(ss, lo, Outs(a), Up(Outs(b), Size(a)), k);
    LinkedUp(ss, lo, Outs(b), Size(a), k);
    if Nullable(a) {
      NullableNests(ss, rg, a, lo, k, n);
      NestsLess(ss, lo + Start(a), n);
    } else {
      NullableNests(ss, rg, b, lo + Size(a), k, n);
      NestsLess(ss, lo + Size(a) + Start(b), n);
    }
    NestsSplit(ss, lo + Size(a) + Size(b), n);
  }

  lemma OptNests(ss: seq<State>, rg: seq<Range>, a: Re, lo: nat, k: int, n: nat)
    requires Wired(ss, rg, Opt(a), lo) && Linked(ss, lo, Outs(Opt(a)), k) && 0 <= k && Nests(ss, k, n)
    ensures Nests(ss, lo + Start(Opt(a)), n + 1)
  {
    hide Wired, Linked, Nests, Outs, Start, Size;
    LayoutOpt(a);
    WiredOpt(ss, rg, a, lo);
    LinkedSplit(ss, lo, Outs(a), [Size(a)], k);
    LinkedOne(ss, lo, Size(a), k);
    NestsSplit(ss, lo + Size(a), n);
  }

  /** The state of a loop calls its continuation. */
  lemma LoopNests(ss: seq<State>, rg: seq<Range>, a: Re, lo: nat, k: int, n: nat)
    requires Wired(ss, rg, Star(a), lo) && Linked(ss, lo, Outs(Star(a)), k) && 0 <= k && Nests(ss, k, n)
    ensures Nests(ss, lo + Start(Star(a)), n + 1)
  {
    hide Wired, Linked, Nests, Outs, Start, Size;
    LayoutLoop(a);
    WiredLoop(ss, rg, a, lo);
    LinkedOne(ss, lo, Size(a), k);
    NestsSplit(ss, lo + Size(a), n);
  }

  lemma {:induction false} PlusNests(ss: seq<State>, rg: seq<Range>, a: Re, lo: nat, k: int, n: nat)
    requires Wired(ss, rg, Plus(a), lo) && Linked(ss, lo, Outs(Plus(a)), k) && Nullable(Plus(a)) && 0 <= k && Nests(ss, k, n)
    ensures Nests(ss, lo + Start(Plus(a)), n + 1)
    decreases Plus(a), 0
  {
    hide *;
    NullableOne(a);
    LayoutLoop(a);
    WiredLoop(ss, rg, a, lo);
    LoopNests(ss, rg, a, lo, k, n);
    NullableNests(ss, rg, a, lo, lo + Size(a), n + 1);
    NestsLess(ss, lo + Start(a), n + 1);
  }

  /** The loop state over a nullable body calls itself again. */
  lemma {:induction false} NullableLoopNests(ss: seq<State>, rg: seq<Range>, a: Re, lo: nat, n: nat)
    requires Wired(ss, rg, Star(a), lo) && Nullable(a)
    ensures Nests(ss, lo + Size(a), n)
  {
    hide Wired, Linked, Outs, Start, Size, Nullable;
    if n > 0 {
      NullableLoopNests(ss, rg, a, lo, n - 1);
      WiredLoop(ss, rg, a, lo);
      NullableNests(ss, rg, a, lo, lo + Size(a), n - 1);
      NestsLess(ss, lo + Start(a), n - 1);
      NestsSplit(ss, lo + Size(a), n - 1);
    }
  }

  lemma {:induction false} UnsafeNests(ss: seq<State>, rg: seq<Range>, e: Re, lo: nat) returns (i: nat)
    requires Wired(ss, rg, e, lo) && !Safe(e)
    ensures i < |ss| && !Returns(ss, i)
    decreases e, 1
  {
    hide *;
    match e
    case Leaf(a) => assert false by { SafeLeaf(a); }
    case Cat(a, b) => i := UnsafePair(ss, rg, e, a, b, lo);
    case Alt(a, b) => i := UnsafePair(ss, rg, e, a, b, lo);
    case Opt(a) => i := UnsafeOne(ss, rg, e, a, lo);
    case Star(a) => i := UnsafeOne(ss, rg, e, a, lo);
    case Plus(a) => i := UnsafeOne(ss, rg, e, a, lo);
  }

  lemma SafeLeaf(a: Atom)
    ensures Safe(Leaf(a))
  {
  }

  lemma {:induction false} UnsafePair(ss: seq<State>, rg: seq<Range>, e: Re, a: Re, b: Re, lo: nat) returns (i: nat)
    requires (e == Cat(a, b) || e == Alt(a, b)) && Wired(ss, rg, e, lo) && !Safe(e)
    ensures i < |ss| && !Returns(ss, i)
    decreases e, 0
  {
    hide *;
    SafePair(a, b);
    WiredCat(ss, rg, a, b, lo);
    WiredAlt(ss, rg, a, b, lo);
    if !Safe(a) {
      i := UnsafeNests(ss, rg, a, lo);
    } else {
      i := UnsafeNests(ss, rg, b, lo + Size(a));
    }
  }

  lemma {:induction false} UnsafeOne(ss: seq<State>, rg: seq<Range>, e: Re, a: Re, lo: nat) returns (i: nat)
    requires (e == Opt(a) || e == Star(a) || e == Plus(a)) && Wired(ss, rg, e, lo) && !Safe(e)
    ensures i < |ss| && !Returns(ss, i)
    decreases e, 0
  {
    hide *;
    SafeOne(a);
    WiredOpt(ss, rg, a, lo);
    WiredLoop(ss, rg, a, lo);
    if !Safe(a) {
      i := UnsafeNests(ss, rg, a, lo);
    } else {
      i := UnsafeLoop(ss, rg, a, lo);
    }
  }

  lemma UnsafeLoop(ss: seq<State>, rg: seq<Range>, a: Re, lo: nat) returns (i: nat)
    requires Wired(ss, rg, Star(a), lo) && Nullable(a)
    ensures i < |ss| && !Returns(ss, i)
  {
    hide Wired, Nests, Size;
    WiredLoop(ss, rg, a, lo);
    i := lo + Size(a);
    forall n: nat ensures Nests(ss, i, n) {
      NullableLoopNests(ss, rg, a, lo, n);
    }
  }

  /** `AddState` returns from every state of the automaton exactly when the expression is safe: then a rank
      bounds the nesting of its calls, and otherwise some state nests calls without bound. */
  lemma AddStateReturnsIffSafe(ss: seq<State>, rg: seq<Range>, e: Re)
    requires Compiled(ss, rg, e)
    ensures Safe(e) <==> exists rank :: Ranked(ss, rank)
    ensures Safe(e) <==> forall i | 0 <= i < |ss| :: Returns(ss, i)
  {
    hide Safe, Wired, Linked, Nests, Size;
    if Safe(e) {
      var rank := CompiledRanked(ss, rg, e);
      forall i | 0 <= i < |ss| ensures Returns(ss, i) {
        if Nests(ss, i, rank[i] + 1) {
          RankBoundsNesting(ss, rank, i, rank[i] + 1);
        }
      }
    } else {
      var i := UnsafeNests(ss, rg, e, 0);
      if rank :| Ranked(ss, rank) {
        assert Nests(ss, i, rank[i] + 1);
        RankBoundsNesting(ss, rank, i, rank[i] + 1);
      }
    }
  }
}
