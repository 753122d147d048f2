/** The set-of-states simulation of internal/regex.h on values: what the current set of states stands for, and how
    one round of `SearchWithAnchoring` moves it. */
module RegexSimulation {
  import opened RegexLanguage
  import opened RegexFragments
  import opened RegexAcceptance
  import opened RegexTermination

  /** A ranked table whose states lead into the table, but for matching states, which consume nothing. */
  ghost predicate Usable(ss: seq<State>, rank: seq<nat>) {
    Ranked(ss, rank) && forall i | 0 <= i < |ss| :: LeadsOn(ss, i)
  }

  predicate LeadsOn(ss: seq<State>, i: int)
    requires 0 <= i < |ss|
  {
    0 <= ss[i].out < |ss| || (ss[i].out == INVALID && ss[i].codepoint == 0 && !IsSplit(ss[i]))
  }

  /** The states `AddState(i)` adds: those reached through splits. */
  ghost function Eps(ss: seq<State>, rank: seq<nat>, i: int): (r: set<int>)
    requires Ranked(ss, rank) && 0 <= i < |ss|
    ensures Consuming(ss, r) && r != {}
    decreases rank[i]
  {
    if IsSplit(ss[i]) then Eps(ss, rank, ss[i].out) + Eps(ss, rank, ss[i].out1) else {i}
  }

  ghost predicate Consuming(ss: seq<State>, cur: set<int>) {
    forall s | s in cur :: 0 <= s < |ss| && !IsSplit(ss[s])
  }

  /** Some state of the set accepts v. */
  ghost predicate AccAny(ss: seq<State>, rg: seq<Range>, rank: seq<nat>, cur: set<int>, v: seq<int>)
    requires Ranked(ss, rank)
  {
    exists s | s in cur :: Acc(ss, rg, rank, s, v)
  }

  ghost predicate Matching(ss: seq<State>, cur: set<int>) {
    exists s | s in cur :: 0 <= s < |ss| && ss[s].out == INVALID
  }

  lemma AccAnyUnion(ss: seq<State>, rg: seq<Range>, rank: seq<nat>, a: set<int>, b: set<int>, v: seq<int>)
    requires Ranked(ss, rank)
    ensures AccAny(ss, rg, rank, a + b, v) <==> AccAny(ss, rg, rank, a, v) || AccAny(ss, rg, rank, b, v)
  {
    hide Acc;
  }

  /** Following the splits loses nothing. */
  lemma {:induction false} EpsAcc(ss: seq<State>, rg: seq<Range>, rank: seq<nat>, i: int, v: seq<int>)
    requires Ranked(ss, rank) && 0 <= i < |ss|
    ensures AccAny(ss, rg, rank, Eps(ss, rank, i), v) <==> Acc(ss, rg, rank, i, v)
    decreases rank[i]
  {
    hide Acc;
    if IsSplit(ss[i]) {
      EpsAcc(ss, rg, rank, ss[i].out, v);
      EpsAcc(ss, rg, rank, ss[i].out1, v);
      AccAnyUnion(ss, rg, rank, Eps(ss, rank, ss[i].out), Eps(ss, rank, ss[i].out1), v);
      AccSplit(ss, rg, rank, i, v);
    }
  }

  /** The empty word is accepted exactly from sets with a matching state. */
  lemma AccAnyEmpty(ss: seq<State>, rg: seq<Range>, rank: seq<nat>, cur: set<int>)
    requires Ranked(ss, rank) && Consuming(ss, cur)
    ensures AccAny(ss, rg, rank, cur, []) <==> Matching(ss, cur)
  {
    forall s | s in cur ensures Acc(ss, rg, rank, s, []) <==> ss[s].out == INVALID {
    }
  }

  /** ---- One round ---- */

  ghost predicate InTable(ss: seq<State>, l: seq<int>) {
    forall j | 0 <= j < |l| :: 0 <= l[j] < |ss| && !IsSplit(ss[l[j]])
  }

  function Members(l: seq<int>): set<int> {
    set x | x in l
  }

  /** State s consumes c; then it leads on. */
  predicate Advances(ss: seq<State>, rg: seq<Range>, s: int, c: int) {
    0 <= s < |ss| && Consumes(rg, ss[s], c) && 0 <= ss[s].out < |ss|
  }

  /** What one entry of the list adds to the next one. */
  ghost function Moved(ss: seq<State>, rg: seq<Range>, rank: seq<nat>, root: int, s: int, c: int, ab: bool): (r: set<int>)
    requires Ranked(ss, rank) && 0 <= root < |ss|
    ensures Consuming(ss, r)
  {
    (if Advances(ss, rg, s, c) then Eps(ss, rank, ss[s].out) else {}) + (if ab then {} else Eps(ss, rank, root))
  }

  /** The next list after k entries of the current one. */
  ghost function Moves(ss: seq<State>, rg: seq<Range>, rank: seq<nat>, root: int, l: seq<int>, k: nat, c: int, ab: bool): (r: set<int>)
    requires Ranked(ss, rank) && 0 <= root < |ss| && k <= |l|
    ensures Consuming(ss, r)
  {
    if k == 0 then {} else Moves(ss, rg, rank, root, l, k - 1, c, ab) + Moved(ss, rg, rank, root, l[k - 1], c, ab)
  }

  /** Whether a matching state was added by a transition among the first k entries. */
  ghost predicate Hits(ss: seq<State>, rg: seq<Range>, rank: seq<nat>, l: seq<int>, k: nat, c: int)
    requires Ranked(ss, rank) && k <= |l|
  {
    k > 0 && (Hits(ss, rg, rank, l, k - 1, c) || HitsOne(ss, rg, rank, l[k - 1], c))
  }

  ghost predicate HitsOne(ss: seq<State>, rg: seq<Range>, rank: seq<nat>, s: int, c: int)
    requires Ranked(ss, rank)
  {
    Advances(ss, rg, s, c) && Matching(ss, Eps(ss, rank, ss[s].out))
  }

  /** One entry: c followed by v. */
  lemma AdvanceAcc(ss: seq<State>, rg: seq<Range>, rank: seq<nat>, s: int, c: int, v: seq<int>)
    requires Usable(ss, rank) && 0 <= s < |ss| && !IsSplit(ss[s]) && 0 < c < RANGE_CHARACTER
    ensures Acc(ss, rg, rank, s, [c] + v) <==> Advances(ss, rg, s, c) && Acc(ss, rg, rank, ss[s].out, v)
  {
    assert LeadsOn(ss, s);
    assert ([c] + v)[1..] == v;
    if ss[s].out == INVALID {
      assert !Acc(ss, rg, rank, s, [c] + v);
    } else {
      hide Acc, Consumes;
      AccConsume(ss, rg, rank, s, [c] + v);
    }
  }

  /** A round on the first k entries accounts for every word that starts with c, and, unanchored, for a match that
      starts after c. */
  lemma {:induction false} MovesAcc(ss: seq<State>, rg: seq<Range>, rank: seq<nat>, root: int, l: seq<int>, k: nat, c: int, ab: bool, v: seq<int>)
    requires Usable(ss, rank) && 0 <= root < |ss| && k <= |l| && InTable(ss, l) && 0 < c < RANGE_CHARACTER
    ensures AccAny(ss, rg, rank, Moves(ss, rg, rank, root, l, k, c, ab), v)
       <==> AccAny(ss, rg, rank, Members(l[..k]), [c] + v) || (!ab && k > 0 && Acc(ss, rg, rank, root, v))
  {
    hide Acc, Eps, LeadsOn, Advances;
    if k > 0 {
      MovesAcc(ss, rg, rank, root, l, k - 1, c, ab, v);
      MovedAcc(ss, rg, rank, root, l[k - 1], c, ab, v);
      AccAnyUnion(ss, rg, rank, Moves(ss, rg, rank, root, l, k - 1, c, ab), Moved(ss, rg, rank, root, l[k - 1], c, ab), v);
      MembersPush(l, k);
      AccAnyUnion(ss, rg, rank, Members(l[..k - 1]), {l[k - 1]}, [c] + v);
    }
  }

  lemma MembersPush(l: seq<int>, k: nat)
    requires 0 < k <= |l|
    ensures Members(l[..k]) == Members(l[..k - 1]) + {l[k - 1]}
  {
    assert l[..k] == l[..k - 1] + [l[k - 1]];
  }

  lemma MovedAcc(ss: seq<State>, rg: seq<Range>, rank: seq<nat>, root: int, s: int, c: int, ab: bool, v: seq<int>)
    requires Usable(ss, rank) && 0 <= root < |ss| && 0 <= s < |ss| && !IsSplit(ss[s]) && 0 < c < RANGE_CHARACTER
    ensures AccAny(ss, rg, rank, Moved(ss, rg, rank, root, s, c, ab), v)
       <==> Acc(ss, rg, rank, s, [c] + v) || (!ab && Acc(ss, rg, rank, root, v))
  {
    hide Acc, Eps, AccAny, Consumes;
    AdvanceAcc(ss, rg, rank, s, c, v);
    var a := if Advances(ss, rg, s, c) then Eps(ss, rank, ss[s].out) else {};
    var b := if ab then {} else Eps(ss, rank, root);
    AccAnyUnion(ss, rg, rank, a, b, v);
    if Advances(ss, rg, s, c) {
      EpsAcc(ss, rg, rank, ss[s].out, v);
    }
    EpsAcc(ss, rg, rank, root, v);
    NoneAcc(ss, rg, rank, v);
  }

  lemma NoneAcc(ss: seq<State>, rg: seq<Range>, rank: seq<nat>, v: seq<int>)
    requires Ranked(ss, rank)
    ensures !AccAny(ss, rg, rank, {}, v)
  {
  }

  /** A round reports a match exactly when some entry accepts the one-character word c. */
  lemma {:induction false} HitsAcc(ss: seq<State>, rg: seq<Range>, rank: seq<nat>, l: seq<int>, k: nat, c: int)
    requires Usable(ss, rank) && k <= |l| && InTable(ss, l) && 0 < c < RANGE_CHARACTER
    ensures Hits(ss, rg, rank, l, k, c) <==> AccAny(ss, rg, rank, Members(l[..k]), [c])
  {
    hide Acc, Eps, Advances, Matching, LeadsOn;
    if k > 0 {
      HitsAcc(ss, rg, rank, l, k - 1, c);
      HitAcc(ss, rg, rank, l[k - 1], c);
      MembersPush(l, k);
      AccAnyUnion(ss, rg, rank, Members(l[..k - 1]), {l[k - 1]}, [c]);
    }
  }

  lemma HitAcc(ss: seq<State>, rg: seq<Range>, rank: seq<nat>, s: int, c: int)
    requires Usable(ss, rank) && 0 <= s < |ss| && !IsSplit(ss[s]) && 0 < c < RANGE_CHARACTER
    ensures HitsOne(ss, rg, rank, s, c) <==> Acc(ss, rg, rank, s, [c])
  {
    hide Acc, Eps, AccAny, Matching, Consumes;
    AdvanceAcc(ss, rg, rank, s, c, []);
    assert [c] + [] == [c];
    if Advances(ss, rg, s, c) {
      AccAnyEmpty(ss, rg, rank, Eps(ss, rank, ss[s].out));
      EpsAcc(ss, rg, rank, ss[s].out, []);
    }
  }

  /** ---- The whole text ---- */

  /** A match in progress: some start j within p (the first, if anchored) such that p[j..] + v is accepted. */
  ghost predicate Started(ss: seq<State>, rg: seq<Range>, rank: seq<nat>, root: int, p: seq<int>, v: seq<int>, ab: bool)
    requires Ranked(ss, rank)
  {
    exists j | 0 <= j <= |p| && (ab ==> j == 0) :: Acc(ss, rg, rank, root, p[j..] + v)
  }

  /** After p, the current set stands for all matches in progress. */
  ghost predicate Tracks(ss: seq<State>, rg: seq<Range>, rank: seq<nat>, root: int, cur: set<int>, p: seq<int>, ab: bool)
    requires Ranked(ss, rank)
  {
    forall v: seq<int> :: AccAny(ss, rg, rank, cur, v) <==> Started(ss, rg, rank, root, p, v, ab)
  }

  /** A non-empty match that ends where p ends. */
  ghost predicate Found(ss: seq<State>, rg: seq<Range>, rank: seq<nat>, root: int, p: seq<int>, ab: bool)
    requires Ranked(ss, rank)
  {
    exists j | 0 <= j < |p| && (ab ==> j == 0) :: Acc(ss, rg, rank, root, p[j..])
  }

  lemma StartedPush(ss: seq<State>, rg: seq<Range>, rank: seq<nat>, root: int, p: seq<int>, c: int, v: seq<int>, ab: bool)
    requires Ranked(ss, rank)
    ensures Started(ss, rg, rank, root, p + [c], v, ab)
       <==> Started(ss, rg, rank, root, p, [c] + v, ab) || (!ab && Acc(ss, rg, rank, root, v))
  {
    hide Acc;
    forall j | 0 <= j <= |p| ensures (p + [c])[j..] + v == p[j..] + ([c] + v) {
    }
    assert (p + [c])[|p| + 1..] + v == v;
  }

  lemma FoundPush(ss: seq<State>, rg: seq<Range>, rank: seq<nat>, root: int, p: seq<int>, c: int, ab: bool)
    requires Ranked(ss, rank)
    ensures Found(ss, rg, rank, root, p + [c], ab) <==> Started(ss, rg, rank, root, p, [c], ab)
  {
    hide Acc;
    forall j | 0 <= j <= |p| ensures (p + [c])[j..] == p[j..] + [c] {
    }
  }

  lemma TracksStart(ss: seq<State>, rg: seq<Range>, rank: seq<nat>, root: int, ab: bool)
    requires Ranked(ss, rank) && 0 <= root < |ss|
    ensures Tracks(ss, rg, rank, root, Eps(ss, rank, root), [], ab)
  {
    hide Acc, AccAny, Eps;
    var none: seq<int> := [];
    forall v: seq<int> ensures AccAny(ss, rg, rank, Eps(ss, rank, root), v) <==> Started(ss, rg, rank, root, [], v, ab) {
      EpsAcc(ss, rg, rank, root, v);
      assert none[0..] + v == v;
    }
  }

  /** ONE ROUND. From a set that stands for the matches in progress after p, a round on c yields the set that stands
      for those after p + [c], and reports a match exactly when a non-empty one ends there. */
  lemma RoundTracks(ss: seq<State>, rg: seq<Range>, rank: seq<nat>, root: int, l: seq<int>, p: seq<int>, c: int, ab: bool)
    requires Usable(ss, rank) && 0 <= root < |ss| && InTable(ss, l) && l != [] && 0 < c < RANGE_CHARACTER
    requires Tracks(ss, rg, rank, root, Members(l), p, ab)
    ensures Tracks(ss, rg, rank, root, Moves(ss, rg, rank, root, l, |l|, c, ab), p + [c], ab)
    ensures Hits(ss, rg, rank, l, |l|, c) <==> Found(ss, rg, rank, root, p + [c], ab)
  {
    hide Acc, AccAny, Eps, Started, Found, Moves, Hits, Members, InTable;
    assert l[..|l|] == l;
    forall v: seq<int>
      ensures AccAny(ss, rg, rank, Moves(ss, rg, rank, root, l, |l|, c, ab), v) <==> Started(ss, rg, rank, root, p + [c], v, ab)
    {
      MovesAcc(ss, rg, rank, root, l, |l|, c, ab, v);
      StartedPush(ss, rg, rank, root, p, c, v, ab);
    }
    HitsAcc(ss, rg, rank, l, |l|, c);
    FoundPush(ss, rg, rank, root, p, c, ab);
  }

  /** Once no state is left, no anchored match ends later. */
  lemma NothingLeft(ss: seq<State>, rg: seq<Range>, rank: seq<nat>, root: int, p: seq<int>, u: seq<int>)
    requires Ranked(ss, rank) && Tracks(ss, rg, rank, root, {}, p, true) && u != []
    ensures !Found(ss, rg, rank, root, p + u, true)
  {
    hide Acc;
    NoneAcc(ss, rg, rank, u);
    assert !Started(ss, rg, rank, root, p, u, true);
    assert (p + u)[0..] == p[0..] + u;
  }

  /** ---- In terms of the language ---- */

  /** The automaton of e accepts the words of e. */
  lemma AccLanguage(ss: seq<State>, rg: seq<Range>, rank: seq<nat>, e: Re, x: seq<int>)
    requires Compiled(ss, rg, e) && Safe(e) && Ranked(ss, rank) && Text(x)
    ensures Acc(ss, rg, rank, Start(e), x) <==> In(e, x)
  {
    hide In, Wired, Linked, Safe, Size, Outs;
    FragmentAccepts(ss, rg, rank, e, 0, Size(e), x);
    forall y ensures Acc(ss, rg, rank, Size(e), y) <==> y == [] {
    }
    hide Acc;
    assert x[..|x|] == x;
  }

  /** Some part of w, from i up to j, is a word of e; at the ends of w where the search is anchored. */
  ghost predicate PartMatches(e: Re, w: seq<int>, i: int, j: int, ab: bool, ae: bool) {
    0 <= i <= j <= |w| && (ab ==> i == 0) && (ae ==> j == |w|) && In(e, w[i..j])
  }

  /** What a search reports: on the empty text, whether e has the empty word; otherwise whether a NON-EMPTY part
      matches. */
  ghost predicate Reported(e: Re, w: seq<int>, ab: bool, ae: bool) {
    if w == [] then In(e, []) else exists i, j | i < j :: PartMatches(e, w, i, j, ab, ae)
  }

  ghost predicate EndsAt(e: Re, w: seq<int>, j: int, ab: bool) {
    exists i | i < j :: PartMatches(e, w, i, j, ab, false)
  }

  lemma FoundMeaning(ss: seq<State>, rg: seq<Range>, rank: seq<nat>, e: Re, w: seq<int>, j: nat, ab: bool)
    requires Compiled(ss, rg, e) && Safe(e) && Ranked(ss, rank) && Text(w) && j <= |w|
    ensures Found(ss, rg, rank, Start(e), w[..j], ab) <==> EndsAt(e, w, j, ab)
  {
    hide In, Acc, Compiled, Safe, Ranked, Start;
    forall i | 0 <= i < j
      ensures Acc(ss, rg, rank, Start(e), w[..j][i..]) <==> In(e, w[i..j])
    {
      assert w[..j][i..] == w[i..j];
      AccLanguage(ss, rg, rank, e, w[i..j]);
    }
    if EndsAt(e, w, j, ab) {
      var i :| i < j && PartMatches(e, w, i, j, ab, false);
      assert Acc(ss, rg, rank, Start(e), w[..j][i..]);
    }
    if Found(ss, rg, rank, Start(e), w[..j], ab) {
      var i :| 0 <= i < |w[..j]| && (ab ==> i == 0) && Acc(ss, rg, rank, Start(e), w[..j][i..]);
      assert PartMatches(e, w, i, j, ab, false);
    }
  }

  /** A fully anchored search is a match of the whole text. */
  lemma ReportedWhole(e: Re, w: seq<int>)
    ensures Reported(e, w, true, true) <==> In(e, w)
  {
    hide In;
    assert w[0..|w|] == w;
    if w != [] && In(e, w) {
      assert PartMatches(e, w, 0, |w|, true, true);
    }
  }

  /** Some part of w, empty or not, matches: what a search is to tell. */
  ghost predicate SomePart(e: Re, w: seq<int>, ab: bool, ae: bool) {
    exists i, j :: PartMatches(e, w, i, j, ab, ae)
  }

  /** WHEN A SEARCH IS RIGHT. The match of the initial states is overwritten before it is looked at. So the result is
      right on every text exactly when the search is anchored at both ends, or e lacks the empty word, or every text of
      one character is in e. */
  lemma SearchRightIff(e: Re, ab: bool, ae: bool)
    ensures (forall w | Text(w) :: Reported(e, w, ab, ae) <==> SomePart(e, w, ab, ae))
       <==> ((ab && ae) || !Nullable(e) || forall c | 0 < c < RANGE_CHARACTER :: HasCharacter(e, c))
  {
    hide Nullable, HasCharacter, PartMatches, Reported, SomePart;
    if (ab && ae) || !Nullable(e) || forall c | 0 < c < RANGE_CHARACTER :: HasCharacter(e, c) {
      forall w | Text(w) ensures Reported(e, w, ab, ae) <==> SomePart(e, w, ab, ae) {
        SearchRightAt(e, w, ab, ae);
        if w != [] && !(ab && ae) && Nullable(e) {
          OneCharacterPart(e, w, ab, ae);
        }
      }
    } else {
      var c :| 0 < c < RANGE_CHARACTER && !HasCharacter(e, c);
      assert Text([c]);
      SearchRightAt(e, [c], ab, ae);
      OnlyCharacter(e, c, ab, ae);
    }
  }

  lemma OneCharacterPart(e: Re, w: seq<int>, ab: bool, ae: bool)
    requires w != [] && !(ab && ae) && Text(w) && forall c | 0 < c < RANGE_CHARACTER :: HasCharacter(e, c)
    ensures Reported(e, w, ab, ae)
  {
    hide HasCharacter, In;
    var i := if ae then |w| - 1 else 0;
    CharacterCorrect(e, w[i]);
    assert w[i..i + 1] == [w[i]];
    assert PartMatches(e, w, i, i + 1, ab, ae);
  }

  lemma OnlyCharacter(e: Re, c: int, ab: bool, ae: bool)
    requires !HasCharacter(e, c)
    ensures !Reported(e, [c], ab, ae)
  {
    hide HasCharacter, In;
    CharacterCorrect(e, c);
    assert [c][0..1] == [c];
  }

  /** On one text the result is right exactly when the text is empty, or the search is anchored at both ends, or e lacks
      the empty word, or a non-empty part matches as well. */
  lemma SearchRightAt(e: Re, w: seq<int>, ab: bool, ae: bool)
    ensures (Reported(e, w, ab, ae) <==> SomePart(e, w, ab, ae))
       <==> (w == [] || (ab && ae) || !Nullable(e) || Reported(e, w, ab, ae))
  {
    hide In, Nullable;
    NullableCorrect(e);
    if w == [] {
      assert w[0..0] == [];
      assert In(e, []) ==> PartMatches(e, w, 0, 0, ab, ae);
    } else {
      var at := if ae then |w| else 0;
      assert w[at..at] == [];
      assert Nullable(e) && !(ab && ae) ==> PartMatches(e, w, at, at, ab, ae);
      if SomePart(e, w, ab, ae) {
        var i, j :| PartMatches(e, w, i, j, ab, ae);
        assert i == j ==> w[i..j] == [];
      }
    }
  }

  lemma RunOfOne(c: int, w: seq<int>)
    requires In(Star(Leaf(Char(c))), w) && w != []
    ensures w[0] == c
  {
    hide In, Power;
    var n: nat := StarPower(Leaf(Char(c)), w);
    PowerZero(Leaf(Char(c)), w);
    var i := PowerElim(Leaf(Char(c)), n, w);
    LeafWord(c, w[..i]);
  }

  lemma LeafWord(c: int, w: seq<int>)
    requires In(Leaf(Char(c)), w)
    ensures w == [c]
  {
  }

  /** `a*` searched for in "b": the empty match at the start is not reported. */
  lemma SearchMissesEmptyMatch()
    ensures var e, w := Star(Leaf(Char('a' as int))), ['b' as int];
            Safe(e) && PartMatches(e, w, 0, 0, false, false) && !Reported(e, w, false, false)
  {
    var e, w := Star(Leaf(Char('a' as int))), ['b' as int];
    NullableCorrect(e);
    assert w[0..0] == [];
    SafeOne(Leaf(Char('a' as int)));
    hide In;
    forall i, j | i < j ensures !PartMatches(e, w, i, j, false, false) {
      if PartMatches(e, w, i, j, false, false) {
        RunOfOne('a' as int, w[i..j]);
      }
    }
  }
}
