/** The operand stack of internal/regex.h cuts the state table into contiguous self-contained blocks, and every
    operation of the construction keeps it so. */
module RegexConstruction {
  import opened RegexLanguage
  import opened RegexFragments
  import opened RegexAcceptance

  /** A finished block with its exits pending. */
  ghost predicate Block(ss: seq<State>, rg: seq<Range>, e: Re, lo: nat) {
    Wired(ss, rg, e, lo) && Threaded(ss, lo, Outs(e))
  }

  function FragOf(e: Re, lo: nat): Frag {
    Frag(lo + Start(e), lo + Outs(e)[0], lo)
  }

  /** The fragments describe blocks for the expressions es that tile the table from 0 up to hi. */
  ghost predicate Tiles(ss: seq<State>, rg: seq<Range>, frags: seq<Frag>, es: seq<Re>, hi: int)
    decreases |es|
  {
    var n := |es| - 1;
    |frags| == |es| && hi <= |ss| &&
    if es == [] then hi == 0
    else
      var lo := hi - Size(es[n]);
      lo >= 0 && frags[n] == FragOf(es[n], lo) && Block(ss, rg, es[n], lo) && Tiles(ss, rg, frags[..n], es[..n], lo)
  }

  /** Blocks below hi do not notice changes from hi on, nor more ranges. */
  lemma {:induction false} TilesFrame(ss: seq<State>, rg: seq<Range>, ss': seq<State>, rg': seq<Range>,
                                      frags: seq<Frag>, es: seq<Re>, hi: int)
    requires Tiles(ss, rg, frags, es, hi) && hi <= |ss'| && rg <= rg'
    requires forall j | 0 <= j < hi :: ss'[j] == ss[j]
    ensures Tiles(ss', rg', frags, es, hi)
    decreases |es|
  {
    hide Size, FragOf, Block;
    if es != [] {
      var n := |es| - 1;
      var lo := hi - Size(es[n]);
      BlockFrame(ss, rg, ss', rg', es[n], lo);
      TilesFrame(ss, rg, ss', rg', frags[..n], es[..n], lo);
    }
  }

  lemma ThreadedFrame(ss: seq<State>, ss': seq<State>, lo: nat, n: nat, outs: seq<nat>)
    requires Threaded(ss, lo, outs) && lo + n <= |ss| && lo + n <= |ss'|
    requires forall i | 0 <= i < |outs| :: outs[i] < n
    requires forall j | lo <= j < lo + n :: ss'[j] == ss[j]
    ensures Threaded(ss', lo, outs)
  {
    forall i | 0 <= i < |outs| ensures lo + outs[i] < |ss'| && ss'[lo + outs[i]].out == NextOut(lo, outs, i) {
      assert ss'[lo + outs[i]] == ss[lo + outs[i]];
    }
  }

  lemma BlockSize(ss: seq<State>, rg: seq<Range>, e: Re, lo: nat)
    requires Block(ss, rg, e, lo)
    ensures lo + Size(e) <= |ss|
  {
  }

  lemma BlockFrame(ss: seq<State>, rg: seq<Range>, ss': seq<State>, rg': seq<Range>, e: Re, lo: nat)
    requires Block(ss, rg, e, lo) && rg <= rg' && lo + Size(e) <= |ss'|
    requires forall j | lo <= j < lo + Size(e) :: ss'[j] == ss[j]
    ensures Block(ss', rg', e, lo)
  {
    hide Size, Wired, Outs, IsExit, Threaded;
    assert lo + Size(e) <= |ss|;
    ThreadedFrame(ss, ss', lo, Size(e), Outs(e));
    assert SameBut(ss, ss', e, lo);
    WiredFrame(ss, rg, ss', rg', e, lo);
  }

  /** One more block on top. */
  lemma TilesPush(ss: seq<State>, rg: seq<Range>, frags: seq<Frag>, es: seq<Re>, lo: nat, e: Re)
    requires Tiles(ss, rg, frags, es, lo) && Block(ss, rg, e, lo) && lo + Size(e) <= |ss|
    ensures Tiles(ss, rg, frags + [FragOf(e, lo)], es + [e], lo + Size(e))
  {
    hide Size, FragOf, Block;
    var frags', es' := frags + [FragOf(e, lo)], es + [e];
    assert frags'[..|frags|] == frags && es'[..|es|] == es;
  }

  /** ---- Patch and Append, as functions of the table ---- */

  function PatchAll(ss: seq<State>, lo: nat, outs: seq<nat>, k: int): (r: seq<State>)
    ensures |r| == |ss|
    ensures forall j | 0 <= j < |ss| :: r[j] == if j - lo in outs then ss[j].(out := k) else ss[j]
  {
    seq(|ss|, j requires 0 <= j < |ss| => if j - lo in outs then ss[j].(out := k) else ss[j])
  }

  /** Patching touches exits only. */
  lemma PatchSame(ss: seq<State>, e: Re, lo: nat, k: int)
    requires lo + Size(e) <= |ss|
    ensures SameBut(ss, PatchAll(ss, lo, Outs(e), k), e, lo)
  {
    hide Size, IsExit, Outs;
    var ss' := PatchAll(ss, lo, Outs(e), k);
    OutsAreExits(e, lo);
    forall j | lo <= j < lo + Size(e)
      ensures ss'[j] == ss[j] || (IsExit(e, lo, j) && ss'[j] == ss[j].(out := ss'[j].out))
    {
      if j - lo in Outs(e) {
        var i :| 0 <= i < |Outs(e)| && Outs(e)[i] == j - lo;
        assert IsExit(e, lo, lo + Outs(e)[i]);
      }
    }
  }

  lemma PatchLinks(ss: seq<State>, lo: nat, outs: seq<nat>, k: int)
    requires forall i | 0 <= i < |outs| :: lo + outs[i] < |ss|
    ensures Linked(PatchAll(ss, lo, outs, k), lo, outs, k)
  {
    var ss' := PatchAll(ss, lo, outs, k);
    forall i | 0 <= i < |outs| ensures lo + outs[i] < |ss'| && ss'[lo + outs[i]].out == k {
      assert (lo + outs[i]) - lo == outs[i];
    }
  }

  lemma PatchOutside(ss: seq<State>, lo: nat, n: nat, outs: seq<nat>, k: int)
    requires forall i | 0 <= i < |outs| :: outs[i] < n
    ensures forall j | 0 <= j < |ss| && !(lo <= j < lo + n) :: PatchAll(ss, lo, outs, k)[j] == ss[j]
  {
  }

  /** Redirecting the exits of a block links them. */
  lemma PatchBlock(ss: seq<State>, rg: seq<Range>, e: Re, lo: nat, k: int)
    requires Block(ss, rg, e, lo)
    ensures Wired(PatchAll(ss, lo, Outs(e), k), rg, e, lo)
    ensures Linked(PatchAll(ss, lo, Outs(e), k), lo, Outs(e), k)
    ensures forall j | 0 <= j < |ss| && !(lo <= j < lo + Size(e)) :: PatchAll(ss, lo, Outs(e), k)[j] == ss[j]
  {
    hide Size, Wired, Linked, PatchAll, SameBut;
    PatchSame(ss, e, lo, k);
    WiredFrame(ss, rg, PatchAll(ss, lo, Outs(e), k), rg, e, lo);
    PatchLinks(ss, lo, Outs(e), k);
    PatchOutside(ss, lo, Size(e), Outs(e), k);
  }

  lemma CatBlock(ss: seq<State>, rg: seq<Range>, a: Re, b: Re, lo: nat)
    requires Block(ss, rg, a, lo) && Block(ss, rg, b, lo + Size(a))
    ensures Block(PatchAll(ss, lo, Outs(a), lo + Size(a) + Start(b)), rg, Cat(a, b), lo)
  {
    hide Wired, Size, Outs, Start, PatchAll, Linked, Threaded;
    var k := lo + Size(a) + Start(b);
    PatchBlock(ss, rg, a, lo, k);
    CatJoin(ss, PatchAll(ss, lo, Outs(a), k), rg, a, b, lo);
  }

  lemma CatJoin(ss: seq<State>, ss': seq<State>, rg: seq<Range>, a: Re, b: Re, lo: nat)
    requires |ss'| == |ss| && Block(ss, rg, b, lo + Size(a))
    requires Wired(ss', rg, a, lo) && Linked(ss', lo, Outs(a), lo + Size(a) + Start(b))
    requires forall j | 0 <= j < |ss| && !(lo <= j < lo + Size(a)) :: ss'[j] == ss[j]
    ensures Block(ss', rg, Cat(a, b), lo)
  {
    hide Wired, Size, Outs, Start, Linked, Threaded;
    BlockFrame(ss, rg, ss', rg, b, lo + Size(a));
    ThreadedUp(ss', lo, Outs(b), Size(a));
    CatIntro(ss', rg, a, b, lo);
  }

  lemma CatIntro(ss: seq<State>, rg: seq<Range>, a: Re, b: Re, lo: nat)
    requires Wired(ss, rg, a, lo) && Wired(ss, rg, b, lo + Size(a))
    requires Linked(ss, lo, Outs(a), lo + Size(a) + Start(b)) && Threaded(ss, lo, Up(Outs(b), Size(a)))
    ensures Block(ss, rg, Cat(a, b), lo)
  {
    hide Wired, Size, Outs, Start, Linked, Threaded;
    LayoutCat(a, b);
    WiredCat(ss, rg, a, b, lo);
  }

  /** The list of the second operand, seen from the start of the first. */
  lemma ThreadedUp(ss: seq<State>, lo: nat, outs: seq<nat>, d: nat)
    requires Threaded(ss, lo + d, outs)
    ensures Threaded(ss, lo, Up(outs, d))
  {
    var up := Up(outs, d);
    forall i | 0 <= i < |up| ensures lo + up[i] < |ss| && ss[lo + up[i]].out == NextOut(lo, up, i) {
      assert lo + up[i] == lo + d + outs[i];
      assert NextOut(lo, up, i) == NextOut(lo + d, outs, i);
    }
  }

  /** Setting the last exit of one list to the head of another joins the lists. */
  lemma JoinLists(ss: seq<State>, ss': seq<State>, lo: nat, outs: seq<nat>, outs': seq<nat>)
    requires Threaded(ss, lo, outs) && Threaded(ss, lo, outs') && outs != [] && outs' != []
    requires |ss'| == |ss| && ss'[lo + outs[|outs| - 1]].out == lo + outs'[0]
    requires forall j | 0 <= j < |ss| && j != lo + outs[|outs| - 1] :: ss'[j] == ss[j]
    requires forall i | 0 <= i < |outs| - 1 :: outs[i] != outs[|outs| - 1]
    requires forall i | 0 <= i < |outs'| :: outs'[i] != outs[|outs| - 1]
    ensures Threaded(ss', lo, outs + outs')
  {
    var all, n := outs + outs', |outs|;
    forall i | 0 <= i < |all| ensures lo + all[i] < |ss'| && ss'[lo + all[i]].out == NextOut(lo, all, i) {
      if i < n - 1 {
        assert all[i] == outs[i] && NextOut(lo, all, i) == NextOut(lo, outs, i);
        assert ss'[lo + outs[i]] == ss[lo + outs[i]];
      } else if i == n - 1 {
        assert all[i] == outs[n - 1] && NextOut(lo, all, i) == lo + outs'[0];
      } else {
        assert all[i] == outs'[i - n] && NextOut(lo, all, i) == NextOut(lo, outs', i - n);
        assert ss'[lo + outs'[i - n]] == ss[lo + outs'[i - n]];
      }
    }
  }

  function LastOut(e: Re, lo: nat): nat {
    lo + Outs(e)[|Outs(e)| - 1]
  }

  /** A change to the last exit of a block keeps it wired. */
  lemma LastOutWired(ss: seq<State>, rg: seq<Range>, e: Re, lo: nat, k: int)
    requires Block(ss, rg, e, lo)
    ensures LastOut(e, lo) < lo + Size(e) <= |ss|
    ensures Wired(ss[LastOut(e, lo) := ss[LastOut(e, lo)].(out := k)], rg, e, lo)
  {
    hide Size, Wired, Outs, IsExit;
    OutsAreExits(e, lo);
    var at := LastOut(e, lo);
    assert IsExit(e, lo, at);
    WiredFrame(ss, rg, ss[at := ss[at].(out := k)], rg, e, lo);
  }

  lemma AltBlock(ss: seq<State>, rg: seq<Range>, a: Re, b: Re, lo: nat, s: State)
    requires Block(ss, rg, a, lo) && Block(ss, rg, b, lo + Size(a)) && |ss| == lo + Size(a) + Size(b)
    requires s.out == lo + Start(a) && s.out1 == lo + Size(a) + Start(b)
    ensures LastOut(a, lo) < |ss|
    ensures Block((ss + [s])[LastOut(a, lo) := (ss + [s])[LastOut(a, lo)].(out := lo + Size(a) + Outs(b)[0])], rg, Alt(a, b), lo)
  {
    hide Wired, Size, Outs, Start, Threaded, Block;
    var t := ss + [s];
    BlockSize(ss, rg, a, lo);
    BlockFrame(ss, rg, t, rg, a, lo);
    BlockFrame(ss, rg, t, rg, b, lo + Size(a));
    AltJoin(t, rg, a, b, lo);
  }

  lemma AltJoin(t: seq<State>, rg: seq<Range>, a: Re, b: Re, lo: nat)
    requires Block(t, rg, a, lo) && Block(t, rg, b, lo + Size(a)) && |t| == lo + Size(a) + Size(b) + 1
    requires t[lo + Size(a) + Size(b)].out == lo + Start(a) && t[lo + Size(a) + Size(b)].out1 == lo + Size(a) + Start(b)
    ensures LastOut(a, lo) < |t| - 1
    ensures Block(t[LastOut(a, lo) := t[LastOut(a, lo)].(out := lo + Size(a) + Outs(b)[0])], rg, Alt(a, b), lo)
  {
    hide Wired, Size, Outs, Start, Threaded;
    var at, k := LastOut(a, lo), lo + Size(a) + Outs(b)[0];
    LastOutWired(t, rg, a, lo, k);
    var t' := t[at := t[at].(out := k)];
    AltLists(t, t', a, b, lo);
    AltOther(t, t', rg, a, b, lo);
    AltIntro(t', rg, a, b, lo);
  }

  lemma AltOther(t: seq<State>, t': seq<State>, rg: seq<Range>, a: Re, b: Re, lo: nat)
    requires Block(t, rg, b, lo + Size(a)) && |t'| == |t| == lo + Size(a) + Size(b) + 1
    requires forall j | lo + Size(a) <= j < |t| :: t'[j] == t[j]
    ensures Wired(t', rg, b, lo + Size(a)) && t'[|t| - 1] == t[|t| - 1]
  {
    hide Wired, Size, Outs, Start, Threaded;
    BlockFrame(t, rg, t', rg, b, lo + Size(a));
  }

  lemma AltLists(t: seq<State>, t': seq<State>, a: Re, b: Re, lo: nat)
    requires Threaded(t, lo, Outs(a)) && Threaded(t, lo + Size(a), Outs(b)) && LastOut(a, lo) < |t| == |t'|
    requires t' == t[LastOut(a, lo) := t[LastOut(a, lo)].(out := lo + Size(a) + Outs(b)[0])]
    ensures Threaded(t', lo, Outs(a) + Up(Outs(b), Size(a)))
  {
    hide Size, Outs, Threaded;
    ThreadedUp(t, lo, Outs(b), Size(a));
    OutsDistinct(a);
    JoinLists(t, t', lo, Outs(a), Up(Outs(b), Size(a)));
  }

  lemma AltIntro(ss: seq<State>, rg: seq<Range>, a: Re, b: Re, lo: nat)
    requires Wired(ss, rg, a, lo) && Wired(ss, rg, b, lo + Size(a)) && lo + Size(a) + Size(b) < |ss|
    requires ss[lo + Size(a) + Size(b)].out == lo + Start(a) && ss[lo + Size(a) + Size(b)].out1 == lo + Size(a) + Start(b)
    requires Threaded(ss, lo, Outs(a) + Up(Outs(b), Size(a)))
    ensures Block(ss, rg, Alt(a, b), lo)
  {
    hide Wired, Size, Outs, Start, Linked, Threaded;
    LayoutAlt(a, b);
    WiredAlt(ss, rg, a, b, lo);
  }

  lemma OptBlock(ss: seq<State>, rg: seq<Range>, a: Re, lo: nat, s: State)
    requires Block(ss, rg, a, lo) && |ss| == lo + Size(a) && s.out == INVALID && s.out1 == lo + Start(a)
    ensures LastOut(a, lo) < |ss|
    ensures Block((ss + [s])[LastOut(a, lo) := (ss + [s])[LastOut(a, lo)].(out := |ss|)], rg, Opt(a), lo)
  {
    hide Wired, Size, Outs, Start, Threaded, Block;
    var t := ss + [s];
    BlockFrame(ss, rg, t, rg, a, lo);
    OptJoin(t, rg, a, lo);
  }

  lemma OptJoin(t: seq<State>, rg: seq<Range>, a: Re, lo: nat)
    requires Block(t, rg, a, lo) && |t| == lo + Size(a) + 1
    requires t[lo + Size(a)].out == INVALID && t[lo + Size(a)].out1 == lo + Start(a)
    ensures LastOut(a, lo) < |t| - 1
    ensures Block(t[LastOut(a, lo) := t[LastOut(a, lo)].(out := lo + Size(a))], rg, Opt(a), lo)
  {
    hide Wired, Size, Outs, Start, Threaded;
    var at := LastOut(a, lo);
    LastOutWired(t, rg, a, lo, lo + Size(a));
    var t' := t[at := t[at].(out := lo + Size(a))];
    OutsDistinct(a);
    OneExit(t, lo, Size(a));
    JoinLists(t, t', lo, Outs(a), [Size(a)]);
    OptIntro(t', rg, a, lo);
  }

  lemma OneExit(t: seq<State>, lo: nat, n: nat)
    requires lo + n < |t| && t[lo + n].out == INVALID
    ensures Threaded(t, lo, [n])
  {
  }

  lemma OptIntro(t: seq<State>, rg: seq<Range>, a: Re, lo: nat)
    requires Wired(t, rg, a, lo) && lo + Size(a) < |t| && t[lo + Size(a)].out1 == lo + Start(a)
    requires Threaded(t, lo, Outs(a) + [Size(a)])
    ensures Block(t, rg, Opt(a), lo)
  {
    hide Wired, Size, Outs, Start, Linked, Threaded;
    LayoutOpt(a);
    WiredOpt(t, rg, a, lo);
  }

  lemma LoopBlock(ss: seq<State>, rg: seq<Range>, a: Re, lo: nat, s: State)
    requires Block(ss, rg, a, lo) && |ss| == lo + Size(a) && s.out == INVALID && s.out1 == lo + Start(a)
    ensures Block(PatchAll(ss + [s], lo, Outs(a), |ss|), rg, Star(a), lo)
    ensures Block(PatchAll(ss + [s], lo, Outs(a), |ss|), rg, Plus(a), lo)
  {
    hide Wired, Size, Outs, Start, Threaded, Block, Linked, PatchAll;
    var t := ss + [s];
    BlockFrame(ss, rg, t, rg, a, lo);
    PatchBlock(t, rg, a, lo, |ss|);
    assert t[|ss|] == s;
    LoopIntro(PatchAll(t, lo, Outs(a), |ss|), rg, a, lo);
  }

  lemma LoopIntro(t: seq<State>, rg: seq<Range>, a: Re, lo: nat)
    requires Wired(t, rg, a, lo) && Linked(t, lo, Outs(a), lo + Size(a)) && lo + Size(a) < |t|
    requires t[lo + Size(a)].out == INVALID && t[lo + Size(a)].out1 == lo + Start(a)
    ensures Block(t, rg, Star(a), lo) && Block(t, rg, Plus(a), lo)
  {
    hide Wired, Size, Outs, Start, Linked, Threaded;
    OneExit(t, lo, Size(a));
    LayoutLoop(a);
    WiredLoop(t, rg, a, lo);
  }

  lemma LeafBlock(ss: seq<State>, rg: seq<Range>, a: Atom, s: State)
    requires AtomState(rg, s, a) && s.out == INVALID
    ensures Block(ss + [s], rg, Leaf(a), |ss|)
  {
    hide Wired;
    WiredLeaf(ss + [s], rg, a, |ss|);
  }

  lemma ThreadedShift(ss: seq<State>, ss': seq<State>, lo: nat, n: nat, d: nat, outs: seq<nat>)
    requires Threaded(ss, lo, outs) && Shifted(ss, ss', lo, n, d)
    requires forall i | 0 <= i < |outs| :: outs[i] < n
    ensures Threaded(ss', lo + d, outs)
  {
    forall i | 0 <= i < |outs| ensures lo + d + outs[i] < |ss'| && ss'[lo + d + outs[i]].out == NextOut(lo + d, outs, i) {
      assert ss'[(lo + outs[i]) + d] == Shift(ss[lo + outs[i]], d);
      assert ShiftIndex(NextOut(lo, outs, i), d) == NextOut(lo + d, outs, i);
    }
  }

  /** The copy of a block, appended by index shift, is a block for the same expression. */
  lemma CloneBlock(ss: seq<State>, ss': seq<State>, rg: seq<Range>, e: Re, lo: nat)
    requires Block(ss, rg, e, lo) && Shifted(ss, ss', lo, Size(e), Size(e))
    ensures Block(ss', rg, e, lo + Size(e))
  {
    hide Wired, Size, Outs, Threaded, Shifted;
    var d, outs := Size(e), Outs(e);
    WiredShift(ss, ss', rg, e, lo, d);
    ThreadedShift(ss, ss', lo, d, d, outs);
  }

  /** ---- The operations on the whole stack ---- */

  lemma TilesCount(ss: seq<State>, rg: seq<Range>, frags: seq<Frag>, es: seq<Re>, hi: nat)
    requires Tiles(ss, rg, frags, es, hi)
    ensures |frags| == |es|
  {
  }

  /** The top block of a tiling ends where the tiling ends. */
  lemma TilesTop(ss: seq<State>, rg: seq<Range>, frags: seq<Frag>, es: seq<Re>, hi: nat) returns (lo: nat)
    requires Tiles(ss, rg, frags, es, hi) && es != []
    ensures |frags| == |es| && lo + Size(es[|es| - 1]) == hi <= |ss|
    ensures frags[|es| - 1] == FragOf(es[|es| - 1], lo) && Block(ss, rg, es[|es| - 1], lo)
    ensures Tiles(ss, rg, frags[..|es| - 1], es[..|es| - 1], lo)
  {
    lo := hi - Size(es[|es| - 1]);
  }

  lemma TilesTopTwo(ss: seq<State>, rg: seq<Range>, frags: seq<Frag>, es: seq<Re>, hi: nat) returns (lo: nat)
    requires Tiles(ss, rg, frags, es, hi) && |es| >= 2
    ensures |frags| == |es| && lo + Size(es[|es| - 2]) + Size(es[|es| - 1]) == hi <= |ss|
    ensures frags[|es| - 2] == FragOf(es[|es| - 2], lo) && Block(ss, rg, es[|es| - 2], lo)
    ensures frags[|es| - 1] == FragOf(es[|es| - 1], lo + Size(es[|es| - 2]))
    ensures Block(ss, rg, es[|es| - 1], lo + Size(es[|es| - 2]))
    ensures Tiles(ss, rg, frags[..|es| - 2], es[..|es| - 2], lo)
  {
    hide Tiles, Size, FragOf, Block;
    var n := |es|;
    var mid := TilesTop(ss, rg, frags, es, hi);
    assert frags[..n - 1][..n - 2] == frags[..n - 2] && es[..n - 1][..n - 2] == es[..n - 2];
    lo := TilesTop(ss, rg, frags[..n - 1], es[..n - 1], mid);
  }

  /** A new block for e in place of everything from lo on. */
  lemma TilesReplace(ss: seq<State>, rg: seq<Range>, ss': seq<State>, rg': seq<Range>, frags: seq<Frag>, es: seq<Re>, lo: nat, e: Re)
    requires Tiles(ss, rg, frags, es, lo) && rg <= rg' && Block(ss', rg', e, lo) && |ss'| == lo + Size(e)
    requires forall j | 0 <= j < lo :: ss'[j] == ss[j]
    ensures Tiles(ss', rg', frags + [FragOf(e, lo)], es + [e], |ss'|)
  {
    hide Tiles, Size, FragOf, Block;
    TilesFrame(ss, rg, ss', rg', frags, es, lo);
    TilesPush(ss', rg', frags, es, lo, e);
  }

  /** Exits of a block at lo or above do not reach below it. */
  lemma PatchBelow(ss: seq<State>, lo: nat, outs: seq<nat>, k: int)
    ensures forall j | 0 <= j < |ss| && j < lo :: PatchAll(ss, lo, outs, k)[j] == ss[j]
  {
  }

  lemma BlockExits(ss: seq<State>, rg: seq<Range>, e: Re, lo: nat)
    requires Block(ss, rg, e, lo)
    ensures Threaded(ss, lo, Outs(e)) && Distinct(Outs(e)) && FragOf(e, lo) == Frag(lo + Start(e), lo + Outs(e)[0], lo)
  {
    OutsDistinct(e);
  }

  lemma CatTiles(ss: seq<State>, rg: seq<Range>, frags: seq<Frag>, es: seq<Re>, lo: nat, a: Re, b: Re)
    requires Tiles(ss, rg, frags, es, lo) && Block(ss, rg, a, lo) && Block(ss, rg, b, lo + Size(a))
    requires lo + Size(a) + Size(b) == |ss|
    ensures var ss' := PatchAll(ss, lo, Outs(a), lo + Size(a) + Start(b));
            Tiles(ss', rg, frags + [Frag(lo + Start(a), lo + Size(a) + Outs(b)[0], lo)], es + [Cat(a, b)], |ss'|)
  {
    hide Tiles, Size, Block, Outs, Start, PatchAll;
    var k := lo + Size(a) + Start(b);
    CatBlock(ss, rg, a, b, lo);
    PatchBelow(ss, lo, Outs(a), k);
    LayoutCat(a, b);
    TilesReplace(ss, rg, PatchAll(ss, lo, Outs(a), k), rg, frags, es, lo, Cat(a, b));
  }

  lemma AltTiles(ss: seq<State>, rg: seq<Range>, frags: seq<Frag>, es: seq<Re>, lo: nat, a: Re, b: Re, s: State)
    requires Tiles(ss, rg, frags, es, lo) && Block(ss, rg, a, lo) && Block(ss, rg, b, lo + Size(a))
    requires lo + Size(a) + Size(b) == |ss|
    requires s.out == lo + Start(a) && s.out1 == lo + Size(a) + Start(b)
    ensures LastOut(a, lo) < |ss|
    ensures var ss' := (ss + [s])[LastOut(a, lo) := (ss + [s])[LastOut(a, lo)].(out := lo + Size(a) + Outs(b)[0])];
            Tiles(ss', rg, frags + [Frag(|ss|, lo + Outs(a)[0], lo)], es + [Alt(a, b)], |ss'|)
  {
    hide Tiles, Size, Block, Outs, Start;
    AltBlock(ss, rg, a, b, lo, s);
    LayoutAlt(a, b);
    var ss' := (ss + [s])[LastOut(a, lo) := (ss + [s])[LastOut(a, lo)].(out := lo + Size(a) + Outs(b)[0])];
    TilesReplace(ss, rg, ss', rg, frags, es, lo, Alt(a, b));
  }

  lemma OptTiles(ss: seq<State>, rg: seq<Range>, frags: seq<Frag>, es: seq<Re>, lo: nat, a: Re, s: State)
    requires Tiles(ss, rg, frags, es, lo) && Block(ss, rg, a, lo) && lo + Size(a) == |ss|
    requires s.out == INVALID && s.out1 == lo + Start(a)
    ensures LastOut(a, lo) < |ss|
    ensures var ss' := (ss + [s])[LastOut(a, lo) := (ss + [s])[LastOut(a, lo)].(out := |ss|)];
            Tiles(ss', rg, frags + [Frag(|ss|, lo + Outs(a)[0], lo)], es + [Opt(a)], |ss'|)
  {
    hide Tiles, Size, Block, Outs, Start;
    OptBlock(ss, rg, a, lo, s);
    LayoutOpt(a);
    var ss' := (ss + [s])[LastOut(a, lo) := (ss + [s])[LastOut(a, lo)].(out := |ss|)];
    TilesReplace(ss, rg, ss', rg, frags, es, lo, Opt(a));
  }

  lemma LoopTiles(ss: seq<State>, rg: seq<Range>, frags: seq<Frag>, es: seq<Re>, lo: nat, a: Re, s: State)
    requires Tiles(ss, rg, frags, es, lo) && Block(ss, rg, a, lo) && lo + Size(a) == |ss|
    requires s.out == INVALID && s.out1 == lo + Start(a)
    ensures var ss' := PatchAll(ss + [s], lo, Outs(a), |ss|);
            && Tiles(ss', rg, frags + [Frag(|ss|, |ss|, lo)], es + [Star(a)], |ss'|)
            && Tiles(ss', rg, frags + [Frag(lo + Start(a), |ss|, lo)], es + [Plus(a)], |ss'|)
  {
    hide Tiles, Size, Block, Outs, Start, PatchAll;
    LoopBlock(ss, rg, a, lo, s);
    LayoutLoop(a);
    PatchBelow(ss + [s], lo, Outs(a), |ss|);
    var ss' := PatchAll(ss + [s], lo, Outs(a), |ss|);
    TilesReplace(ss, rg, ss', rg, frags, es, lo, Star(a));
    TilesReplace(ss, rg, ss', rg, frags, es, lo, Plus(a));
  }

  lemma LeafTiles(ss: seq<State>, rg: seq<Range>, rg': seq<Range>, frags: seq<Frag>, es: seq<Re>, a: Atom, s: State)
    requires Tiles(ss, rg, frags, es, |ss|) && rg <= rg' && AtomState(rg', s, a) && s.out == INVALID
    ensures Tiles(ss + [s], rg', frags + [Frag(|ss|, |ss|, |ss|)], es + [Leaf(a)], |ss| + 1)
  {
    hide Tiles, Block, AtomState;
    LeafBlock(ss, rg', a, s);
    WiredLeaf(ss, rg', a, |ss|);
    TilesReplace(ss, rg, ss + [s], rg', frags, es, |ss|, Leaf(a));
  }

  /** A copy of the top block, shifted, is a block of its own. */
  lemma CloneTiles(ss: seq<State>, ss': seq<State>, rg: seq<Range>, frags: seq<Frag>, es: seq<Re>, lo: nat)
    requires Tiles(ss, rg, frags, es, |ss|) && es != []
    requires var e := es[|es| - 1]; lo + Size(e) == |ss| && Block(ss, rg, e, lo) && frags[|frags| - 1] == FragOf(e, lo)
    requires |ss'| == |ss| + (|ss| - lo) && ss'[..|ss|] == ss && Shifted(ss, ss', lo, |ss| - lo, |ss| - lo)
    ensures var f, d := frags[|frags| - 1], |ss| - lo;
            Tiles(ss', rg, frags + [Frag(f.start + d, f.out + d, f.minIndex + d)], es + [es[|es| - 1]], |ss'|)
  {
    hide Tiles, Size, Block, Outs, Start, Shifted;
    var e := es[|es| - 1];
    CloneBlock(ss, ss', rg, e, lo);
    assert forall j | 0 <= j < |ss| :: ss'[j] == ss'[..|ss|][j];
    TilesReplace(ss, rg, ss', rg, frags, es, |ss|, e);
  }
}
