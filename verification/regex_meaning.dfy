/** The expression built for a pattern has the pattern's language, and is safe exactly when no part of the pattern
    under an unbounded quantifier matches the empty text. */
module RegexMeaning {
  import opened RegexLanguage
  import opened RegexParser
  import opened RegexSyntax

  /** j copies followed by k copies are j + k copies, and back. */
  lemma {:induction false} PowerJoin(e: Re, j: nat, k: nat, w: seq<int>, n: nat)
    requires n <= |w| && Power(e, j, w[..n]) && Power(e, k, w[n..])
    ensures Power(e, j + k, w)
    decreases j
  {
    hide In, Power;
    if j == 0 {
      PowerZero(e, w[..n]);
      assert w[n..] == w;
    } else {
      var i := PowerElim(e, j, w[..n]);
      Cuts(w, i, n - i);
      PowerJoin(e, j - 1, k, w[i..], n - i);
      PowerStep(e, j - 1 + k, w, i);
    }
  }

  lemma {:induction false} PowerCut(e: Re, j: nat, k: nat, w: seq<int>) returns (n: nat)
    requires Power(e, j + k, w)
    ensures n <= |w| && Power(e, j, w[..n]) && Power(e, k, w[n..])
    decreases j
  {
    hide In, Power;
    if j == 0 {
      n := 0;
      PowerZero(e, w[..0]);
      assert w[0..] == w;
    } else {
      var i := PowerElim(e, j + k, w);
      var m := PowerCut(e, j - 1, k, w[i..]);
      n := i + m;
      Cuts(w, i, m);
      PowerStep(e, j - 1, w[..n], i);
    }
  }

  /** n copies of e followed by a word of t, and back. */
  lemma {:induction false} PrefixedJoin(e: Re, n: nat, t: Re, w: seq<int>, j: nat)
    requires j <= |w| && Power(e, n, w[..j]) && In(t, w[j..])
    ensures In(Prefixed(e, n, t), w)
    decreases n
  {
    hide In, Power;
    if n == 0 {
      PowerZero(e, w[..j]);
      assert w[j..] == w;
    } else {
      var i := PowerElim(e, n, w[..j]);
      Cuts(w, i, j - i);
      PrefixedJoin(e, n - 1, t, w[i..], j - i);
      CatIntro(e, Prefixed(e, n - 1, t), w, i);
    }
  }

  lemma {:induction false} PrefixedCut(e: Re, n: nat, t: Re, w: seq<int>) returns (j: nat)
    requires In(Prefixed(e, n, t), w)
    ensures j <= |w| && Power(e, n, w[..j]) && In(t, w[j..])
    decreases n
  {
    hide In, Power;
    if n == 0 {
      j := 0;
      PowerZero(e, w[..0]);
      assert w[0..] == w;
    } else {
      var i := CatElim(e, Prefixed(e, n - 1, t), w);
      var m := PrefixedCut(e, n - 1, t, w[i..]);
      j := i + m;
      Cuts(w, i, m);
      PowerStep(e, n - 1, w[..j], i);
    }
  }

  ghost predicate AtMost(e: Re, n: nat, w: seq<int>) {
    exists k: nat :: k <= n && Power(e, k, w)
  }

  lemma {:induction false} OptionsMeaning(e: Re, n: nat, w: seq<int>)
    requires n > 0
    ensures In(Options(e, n), w) <==> AtMost(e, n, w)
    decreases n
  {
    assert w == [] ==> Power(e, 0, w);
    if n == 1 {
      OnePower(e, w);
    } else {
      if In(Options(e, n), w) {
        OptionsAtMost(e, n, w);
      }
      if AtMost(e, n, w) {
        AtMostOptions(e, n, w);
      }
    }
  }

  lemma {:induction false} OptionsAtMost(e: Re, n: nat, w: seq<int>)
    requires n > 1 && In(Cat(Opt(e), Options(e, n - 1)), w)
    ensures AtMost(e, n, w)
    decreases n, 0
  {
    var i :| 0 <= i <= |w| && In(Opt(e), w[..i]) && In(Options(e, n - 1), w[i..]);
    OptionsMeaning(e, n - 1, w[i..]);
    var k: nat :| k <= n - 1 && Power(e, k, w[i..]);
    if In(e, w[..i]) {
      PowerStep(e, k, w, i);
    } else {
      assert w[i..] == w;
    }
  }

  lemma OptIn(e: Re, w: seq<int>)
    ensures In(Opt(e), w) <==> w == [] || In(e, w)
  {
  }

  lemma {:induction false} AtMostOptions(e: Re, n: nat, w: seq<int>)
    requires n > 1 && AtMost(e, n, w)
    ensures In(Cat(Opt(e), Options(e, n - 1)), w)
    decreases n, 0
  {
    hide In, Power, Options;
    var k: nat :| k <= n && Power(e, k, w);
    if k == 0 {
      PowerZero(e, w);
      assert w[..0] == [] && w[0..] == w;
      OptIn(e, w[..0]);
      OptionsMeaning(e, n - 1, w);
      CatIntro(Opt(e), Options(e, n - 1), w, 0);
    } else {
      var i := PowerElim(e, k, w);
      OptIn(e, w[..i]);
      OptionsMeaning(e, n - 1, w[i..]);
      CatIntro(Opt(e), Options(e, n - 1), w, i);
    }
  }

  lemma OnePower(e: Re, w: seq<int>)
    ensures Power(e, 1, w) <==> In(e, w)
  {
    assert w[..|w|] == w && w[|w|..] == [];
    if In(e, w) {
      assert Power(e, 0, w[|w|..]);
      PowerStep(e, 0, w, |w|);
    }
    if Power(e, 1, w) {
      var i :| 0 <= i <= |w| && In(e, w[..i]) && Power(e, 0, w[i..]);
      assert w[i..] == [] && w[..i] == w;
    }
  }

  /** `e{n,m}` is between n and m copies; m == INFINITY stands for no upper bound. */
  ghost predicate Between(e: Re, n: nat, m: nat, w: seq<int>) {
    exists k: nat :: n <= k && (k <= m || m == INFINITY) && Power(e, k, w)
  }

  lemma RepeatedMeaning(e: Re, n: nat, m: nat, w: seq<int>)
    requires n <= m && 0 < m <= INFINITY && (m == INFINITY ==> n < INFINITY)
    ensures In(Repeated(e, n, m), w) <==> Between(e, n, m, w)
  {
    if n == 0 {
      if m != INFINITY {
        OptionsMeaning(e, m, w);
      }
    } else if m == INFINITY {
      RepeatedTail(e, n - 1, Plus(e), 1, INFINITY, w);
    } else if m > n {
      RepeatedTail(e, n, Options(e, m - n), 0, m - n, w);
    } else {
      RepeatedTail(e, n - 1, e, 1, 1, w);
    }
  }

  /** p copies of e in front of a t that is between lo and hi copies. */
  lemma RepeatedTail(e: Re, p: nat, t: Re, lo: nat, hi: nat, w: seq<int>)
    requires (t == e && lo == hi == 1)
             || (t == Plus(e) && lo == 1 && hi == INFINITY)
             || (0 < hi < INFINITY && t == Options(e, hi) && lo == 0)
    requires hi != INFINITY ==> p + hi < INFINITY
    ensures In(Prefixed(e, p, t), w) <==> Between(e, p + lo, if hi == INFINITY then hi else p + hi, w)
  {
    hide In, Power, Prefixed;
    var top := if hi == INFINITY then hi else p + hi;
    if In(Prefixed(e, p, t), w) {
      TailJoins(e, p, t, lo, hi, w);
    }
    if Between(e, p + lo, top, w) {
      var k: nat :| p + lo <= k && (k <= top || top == INFINITY) && Power(e, k, w);
      var i := PowerCut(e, p, k - p, w);
      TailMeaning(e, t, lo, hi, w[i..]);
      PrefixedJoin(e, p, t, w, i);
    }
  }

  lemma TailJoins(e: Re, p: nat, t: Re, lo: nat, hi: nat, w: seq<int>)
    requires (t == e && lo == hi == 1)
             || (t == Plus(e) && lo == 1 && hi == INFINITY)
             || (0 < hi < INFINITY && t == Options(e, hi) && lo == 0)
    requires hi != INFINITY ==> p + hi < INFINITY
    requires In(Prefixed(e, p, t), w)
    ensures Between(e, p + lo, if hi == INFINITY then hi else p + hi, w)
  {
    hide In, Power, Prefixed;
    var i := PrefixedCut(e, p, t, w);
    TailMeaning(e, t, lo, hi, w[i..]);
    var k: nat :| lo <= k && (k <= hi || hi == INFINITY) && Power(e, k, w[i..]);
    PowerJoin(e, p, k, w, i);
  }

  lemma TailMeaning(e: Re, t: Re, lo: nat, hi: nat, w: seq<int>)
    requires (t == e && lo == hi == 1)
             || (t == Plus(e) && lo == 1 && hi == INFINITY)
             || (0 < hi < INFINITY && t == Options(e, hi) && lo == 0)
    ensures In(t, w) <==> Between(e, lo, hi, w)
  {
    if t == e && lo == hi == 1 {
      OnePower(e, w);
    } else if t == Plus(e) && lo == 1 {
    } else {
      OptionsMeaning(e, hi, w);
    }
  }

  /** ---- Patterns ---- */

  lemma {:induction false} CoreMeaning(p: Pattern, w: seq<int>)
    requires WellFormed(p)
    ensures Denotes(p, w) <==> In(Core(p), w)
    decreases p, 0
  {
    match p
    case Literal(ch) =>
    case Dot =>
    case Bracket(negated, items, dash) => if |w| == 1 { BracketMeaning(negated, items, dash, w[0]); }
    case Group(r) => CoreMeaning(r, w);
    case Quantified(r, q) => QuantifiedMeaning(r, q, w);
    case Sequence(r, s) =>
      forall i | 0 <= i <= |w|
        ensures Denotes(r, w[..i]) <==> In(Core(r), w[..i])
        ensures Denotes(s, w[i..]) <==> In(Core(s), w[i..])
      {
        CoreMeaning(r, w[..i]);
        CoreMeaning(s, w[i..]);
      }
    case Choice(r, s) =>
      CoreMeaning(r, w);
      CoreMeaning(s, w);
  }

  lemma BracketMeaning(negated: bool, items: seq<ClassItem>, trailingDash: bool, c: int)
    requires OkItems(items, false)
    ensures Matches(BracketAtom(negated, items, trailingDash), c) <==> BracketHas(negated, items, trailingDash, c)
  {
    var rs := ItemRanges(items, false);
    var all := BracketAtom(negated, items, trailingDash).ranges;
    assert all == if trailingDash then rs + [('-' as int, '-' as int)] else rs;
    forall i | 0 <= i < |items| ensures ItemHas(items[i], c) <==> all[i].0 <= c <= all[i].1 {
      assert all[i] == rs[i] == ItemRange(items[i]);
    }
    if trailingDash {
      assert all[|items|] == ('-' as int, '-' as int);
    }
  }

  lemma {:induction false} TimesMeaning(p: Pattern, k: nat, w: seq<int>)
    requires WellFormed(p)
    ensures DenotesTimes(p, k, w) <==> Power(Core(p), k, w)
    decreases p, 1, k
  {
    if k > 0 {
      forall i | 0 <= i <= |w|
        ensures Denotes(p, w[..i]) <==> In(Core(p), w[..i])
        ensures DenotesTimes(p, k - 1, w[i..]) <==> Power(Core(p), k - 1, w[i..])
      {
        CoreMeaning(p, w[..i]);
        TimesMeaning(p, k - 1, w[i..]);
      }
    }
  }

  lemma {:induction false} QuantifiedMeaning(p: Pattern, q: Quantifier, w: seq<int>)
    requires WellFormed(p) && OkQuantifier(q) && WellFormed(Quantified(p, q))
    ensures Denotes(Quantified(p, q), w) <==> In(QuantifiedCore(Core(p), q), w)
    decreases p, 2
  {
    var e := Core(p);
    forall k: nat ensures DenotesTimes(p, k, w) <==> Power(e, k, w) {
      TimesMeaning(p, k, w);
    }
    assert Denotes(Quantified(p, q), w) <==> exists k: nat :: Allows(q, k) && Power(e, k, w);
    CoreCounts(e, q, w);
  }

  /** The engine's form of a quantifier allows the documented counts. */
  lemma CoreCounts(e: Re, q: Quantifier, w: seq<int>)
    requires OkQuantifier(q)
    ensures In(QuantifiedCore(e, q), w) <==> exists k: nat :: Allows(q, k) && Power(e, k, w)
  {
    match q
    case Optional =>
      OnePower(e, w);
      assert Power(e, 0, w) <==> w == [];
      if k: nat :| Allows(q, k) && Power(e, k, w) { assert k == 0 || k == 1; }
      if In(Opt(e), w) { assert Allows(q, 0) && Allows(q, 1); }
    case Many => if k: nat :| Power(e, k, w) { assert Allows(q, k); }
    case AtLeastOnce => if k: nat :| k > 0 && Power(e, k, w) { assert Allows(q, k); }
    case Exactly(n) => BoundedCounts(e, q, n, n, w);
    case AtLeast(n) => BoundedCounts(e, q, n, INFINITY, w);
    case Between(n, m) => BoundedCounts(e, q, n, m, w);
  }

  lemma BoundedCounts(e: Re, q: Quantifier, n: nat, m: nat, w: seq<int>)
    requires OkQuantifier(q) && (q == Exactly(n) || q == AtLeast(n) || q == Quantifier.Between(n, m))
    requires m == if q.Exactly? then n else if q.AtLeast? then INFINITY else q.m
    ensures In(Repeated(e, n, m), w) <==> exists k: nat :: Allows(q, k) && Power(e, k, w)
  {
    RepeatedMeaning(e, n, m, w);
    if k: nat :| n <= k && (k <= m || m == INFINITY) && Power(e, k, w) { assert Allows(q, k); }
  }

  /** ---- Safety ---- */

  lemma {:induction false} SafePrefixed(e: Re, n: nat, t: Re)
    ensures Safe(Prefixed(e, n, t)) <==> (n > 0 ==> Safe(e)) && Safe(t)
  {
    if n > 0 {
      SafePrefixed(e, n - 1, t);
    }
  }

  lemma {:induction false} SafeOptions(e: Re, n: nat)
    requires n > 0
    ensures Safe(Options(e, n)) <==> Safe(e)
  {
    if n > 1 {
      SafeOptions(e, n - 1);
    }
  }

  lemma SafeRepeated(e: Re, n: nat, m: nat)
    requires n <= m && 0 < m
    ensures Safe(Repeated(e, n, m)) <==> Safe(e) && (m == INFINITY ==> !Nullable(e))
  {
    if n == 0 {
      SafeOptions(e, m);
    } else if m == INFINITY {
      SafePrefixed(e, n - 1, Plus(e));
    } else if m > n {
      SafePrefixed(e, n, Options(e, m - n));
      SafeOptions(e, m - n);
    } else {
      SafePrefixed(e, n - 1, e);
    }
  }

  /** The condition under which the automaton is usable, read off the pattern. */
  lemma {:induction false} CoreSafe(p: Pattern)
    requires WellFormed(p)
    ensures NoEmptyLoop(p) <==> Safe(Core(p))
  {
    match p
    case Literal(_) =>
    case Dot =>
    case Bracket(_, _, _) =>
    case Group(r) => CoreSafe(r);
    case Quantified(r, q) =>
      CoreSafe(r);
      CoreMeaning(r, []);
      NullableCorrect(Core(r));
      QuantifiedSafe(Core(r), q);
    case Sequence(r, s) =>
      CoreSafe(r);
      CoreSafe(s);
    case Choice(r, s) =>
      CoreSafe(r);
      CoreSafe(s);
  }

  lemma QuantifiedSafe(e: Re, q: Quantifier)
    requires OkQuantifier(q)
    ensures Safe(QuantifiedCore(e, q)) <==> Safe(e) && (Unbounded(q) ==> !Nullable(e))
  {
    match q
    case Optional =>
    case Many =>
    case AtLeastOnce =>
    case Exactly(n) => SafeRepeated(e, n, n);
    case AtLeast(n) => SafeRepeated(e, n, INFINITY);
    case Between(n, m) => SafeRepeated(e, n, m);
  }
}
