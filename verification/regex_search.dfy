/** The search of internal/regex.h: two lists of states and a set of marks, advanced one code point at a time. */
module RegexSearching {
  import opened RegexLanguage
  import opened RegexFragments
  import opened RegexAcceptance
  import opened RegexTermination
  import opened RegexSimulation
  import opened Regex

  /** Distinct indices below n are at most n. */
  lemma {:induction false} DistinctBounded(l: seq<int>, n: nat)
    requires forall i | 0 <= i < |l| :: 0 <= l[i] < n
    requires forall i, j | 0 <= i < j < |l| :: l[i] != l[j]
    ensures |l| <= n
    decreases n
  {
    if l != [] {
      assert 0 <= l[0] < n;
      if k :| 0 <= k < |l| && l[k] == n - 1 {
        DistinctBounded(l[..k] + l[k + 1..], n - 1);
      } else {
        DistinctBounded(l, n - 1);
      }
    }
  }

  /** A list of consuming states without repetition, with exactly its members marked. */
  ghost predicate Marked(ss: seq<State>, l: seq<int>, marks: seq<bool>) {
    && InTable(ss, l) && |marks| == |ss|
    && (forall i, j | 0 <= i < j < |l| :: l[i] != l[j])
    && (forall i | 0 <= i < |marks| :: marks[i] <==> i in l)
  }

  lemma MarkOne(ss: seq<State>, l: seq<int>, marks: seq<bool>, i: int)
    requires Marked(ss, l, marks) && 0 <= i < |ss| && !IsSplit(ss[i])
    ensures !marks[i] ==> Marked(ss, l + [i], marks[i := true]) && Members(l + [i]) == Members(l) + {i}
    ensures marks[i] ==> Members(l) == Members(l) + {i}
  {
  }

  class GenericRegexSearch {
    const regex: GenericRegex
    var state0: seq<int>
    var state1: seq<int>
    const stateSet: array<bool>

    constructor (regex: GenericRegex)
      requires regex.IsValid()
      ensures this.regex == regex && fresh(stateSet) && stateSet.Length == |regex.states|
    {
      this.regex := regex;
      state0, state1 := [], [];
      stateSet := new bool[|regex.states|];
    }

    /** Adds the states reached from index through splits to the list, each once; the rank shows that following the
        splits ends. The list never outgrows the room reserved for it. */
    method AddState(l: seq<int>, index: int, ghost rank: seq<nat>) returns (l': seq<int>, matched: bool)
      requires Ranked(regex.states, rank) && 0 <= index < |regex.states|
      requires Marked(regex.states, l, stateSet[..])
      modifies stateSet
      ensures Marked(regex.states, l', stateSet[..]) && |l'| <= |regex.states|
      ensures Members(l') == Members(l) + Eps(regex.states, rank, index)
      ensures matched <==> Matching(regex.states, Eps(regex.states, rank, index))
      decreases rank[index]
    {
      hide Eps, Marked, Matching, InTable;
      EpsUnfold(regex.states, rank, index);
      var s := regex.states[index];
      if IsSplit(s) {
        l', matched := AddState(l, s.out, rank);
        var other;
        l', other := AddState(l', s.out1, rank);
        matched := other || matched;
        return;
      }
      MarkOne(regex.states, l, stateSet[..], index);
      MarkedLength(regex.states, l, stateSet[..]);
      l' := l;
      if !stateSet[index] {
        stateSet[index] := true;
        assert stateSet[..] == old(stateSet[..])[index := true];
        l' := l + [index];
      }
      MarkedLength(regex.states, l', stateSet[..]);
      matched := s.out == INVALID;
    }

    /** Whether the ranges from rangeIndex on admit the code point, or, negated, do not. */
    method MatchRange(rangeIndex: int, codepoint: int) returns (r: bool)
      requires ChainEnds(regex.ranges, rangeIndex)
      ensures r <==> InChain(regex.ranges, rangeIndex, codepoint) == (regex.ranges[rangeIndex].start < NEGATION_FLAG)
    {
      var yes := regex.ranges[rangeIndex].start < NEGATION_FLAG;
      var i := rangeIndex;
      while i != INVALID
        invariant i != INVALID ==> ChainEnds(regex.ranges, i)
        invariant InChain(regex.ranges, rangeIndex, codepoint) == (i != INVALID && InChain(regex.ranges, i, codepoint))
        decreases if i == INVALID then 0 else |regex.ranges| - i
      {
        var range := regex.ranges[i];
        if range.start % NEGATION_FLAG <= codepoint <= range.end {
          return yes;
        }
        i := range.next;
      }
      return !yes;
    }

    ghost predicate Ready()
      reads this, regex
    {
      && regex.IsValid() && regex.Consistent() && Safe(regex.expression)
      && stateSet.Length == |regex.states|
    }

    method ClearMarks()
      modifies stateSet
      ensures forall i | 0 <= i < stateSet.Length :: !stateSet[i]
    {
      for i := 0 to stateSet.Length
        invariant forall j | 0 <= j < i :: !stateSet[j]
      {
        stateSet[i] := false;
      }
    }

    method Consume(s: int, codepoint: int) returns (r: bool)
      requires 0 <= s < |regex.states| && RangesEnd(regex.ranges, regex.states[s]) && !IsSplit(regex.states[s])
      ensures r <==> Consumes(regex.ranges, regex.states[s], codepoint)
    {
      hide ChainEnds, InChain;
      var sr := regex.states[s];
      r := sr.codepoint == codepoint || sr.codepoint == ANY_CHARACTER;
      if !r && sr.codepoint == RANGE_CHARACTER {
        RangeStart(regex.ranges, sr.rangeStart);
        r := MatchRange(sr.rangeStart, codepoint);
      }
    }

    /** One round on a code point: state1 becomes what state0 moves to. Unanchored at the end, it stops at a match. */
    method Round(codepoint: int, anchorBegin: bool, anchorEnd: bool, ghost rank: seq<nat>) returns (matched: bool, done: bool)
      requires Ready() && Usable(regex.states, rank) && 0 <= regex.root < |regex.states|
      requires InTable(regex.states, state0) && 0 < codepoint < RANGE_CHARACTER
      requires forall i | 0 <= i < |regex.states| :: RangesEnd(regex.ranges, regex.states[i])
      modifies this`state1, stateSet
      ensures done ==> !anchorEnd && Hits(regex.states, regex.ranges, rank, state0, |state0|, codepoint)
      ensures !done ==>
              && InTable(regex.states, state1)
              && Members(state1) == Moves(regex.states, regex.ranges, rank, regex.root, state0, |state0|, codepoint, anchorBegin)
              && (matched <==> Hits(regex.states, regex.ranges, rank, state0, |state0|, codepoint))
              && (!anchorEnd ==> !matched)
    {
      hide Marked, Eps, Matching, Consumes, Ranked, Compiled, InTable, Hits, Moves, Members;
      ClearMarks();
      state1, matched, done := [], false, false;
      ghost var ss, rg := regex.states, regex.ranges;
      NothingMarked(ss, stateSet[..]);
      NoMoves(ss, rg, rank, regex.root, state0, codepoint, anchorBegin);
      for k := 0 to |state0|
        invariant Marked(ss, state1, stateSet[..])
        invariant Members(state1) == Moves(ss, rg, rank, regex.root, state0, k, codepoint, anchorBegin)
        invariant matched <==> Hits(ss, rg, rank, state0, k, codepoint)
        invariant !anchorEnd ==> !matched
      {
        var s := state0[k];
        OneMove(ss, rg, rank, regex.root, state0, k, codepoint, anchorBegin);
        var consumed := Consume(s, codepoint);
        if consumed {
          var hit;
          state1, hit := AddState(state1, regex.states[s].out, rank);
          matched := hit || matched;
          if !anchorEnd && matched {
            HitsLater(ss, rg, rank, state0, k + 1, codepoint);
            done := true;
            return;
          }
        }
        if !anchorBegin {
          var unused;
          state1, unused := AddState(state1, regex.root, rank);
        }
      }
      MarkedTable(ss, state1, stateSet[..]);
    }

    /** THE SIMULATION IS CORRECT. The result is exactly what `Reported` says of the language of the expression. */
    method SearchWithAnchoring(text: seq<int>, anchorBegin: bool, anchorEnd: bool) returns (r: bool)
      requires Ready() && Text(text)
      modifies this, stateSet
      ensures r <==> Reported(regex.expression, text, anchorBegin, anchorEnd)
    {
      hide Marked, Eps, Matching, Members, InTable, Moves, Hits, Safe, Found, Tracks, Acc;
      ghost var ss, rg, e := regex.states, regex.ranges, regex.expression;
      ghost var rank := CompiledRanked(ss, rg, e);
      CompiledUsable(ss, rg, e, rank);
      var ds := new DecodedStream(text);
      ClearMarks();
      NothingMarked(ss, stateSet[..]);
      var matched;
      state0, matched := AddState([], regex.root, rank);
      Initially(ss, rg, rank, regex.root, state0, stateSet[..], anchorBegin);
      ghost var p: seq<int> := [];
      while state0 != [] && ds.Peek() != 0
        invariant text == p + ds.rest && Ready()
        invariant InTable(ss, state0) && Tracks(ss, rg, rank, regex.root, Members(state0), p, anchorBegin)
        invariant matched <==> if p == [] then Acc(ss, rg, rank, regex.root, []) else Found(ss, rg, rank, regex.root, p, anchorBegin)
        invariant !anchorEnd ==> NoneFound(ss, rg, rank, regex.root, text, |p|, anchorBegin)
        invariant state0 == [] ==> anchorBegin && p != []
        decreases |ds.rest|
      {
        ghost var rest := ds.rest;
        var codepoint := ds.Take();
        TextSplit(text, p, codepoint, ds.rest);
        RoundTracks(ss, rg, rank, regex.root, state0, p, codepoint, anchorBegin);
        MovesSome(ss, rg, rank, regex.root, state0, codepoint, anchorBegin);
        var done;
        matched, done := Round(codepoint, anchorBegin, anchorEnd, rank);
        p := p + [codepoint];
        if done {
          FoundReported(ss, rg, rank, e, text, |p|, anchorBegin);
          return true;
        }
        NoneFoundPush(ss, rg, rank, regex.root, text, |p|, anchorBegin);
        EmptyMembers(state1);
        state0, state1 := state1, state0;
      }
      r := matched;
      RestOfText(p, ds.rest);
      Finally(ss, rg, rank, e, text, p, ds.rest, state0, matched, anchorBegin, anchorEnd);
    }

    /** `Match`: the whole text is a word of the expression. */
    method Match(text: seq<int>) returns (r: bool)
      requires Ready() && Text(text)
      modifies this, stateSet
      ensures r <==> In(regex.expression, text)
    {
      hide In, Safe, Compiled;
      r := SearchWithAnchoring(text, true, true);
      ReportedWhole(regex.expression, text);
    }

    method Search(text: seq<int>) returns (r: bool)
      requires Ready() && Text(text)
      modifies this, stateSet
      ensures r <==> Reported(regex.expression, text, regex.anchorBegin, regex.anchorEnd)
    {
      r := SearchWithAnchoring(text, regex.anchorBegin, regex.anchorEnd);
    }
  }

  lemma NothingMarked(ss: seq<State>, marks: seq<bool>)
    requires |marks| == |ss| && forall i | 0 <= i < |marks| :: !marks[i]
    ensures Marked(ss, [], marks) && Members([]) == {}
  {
  }

  lemma MarkedTable(ss: seq<State>, l: seq<int>, marks: seq<bool>)
    requires Marked(ss, l, marks)
    ensures InTable(ss, l)
  {
  }

  lemma EmptyMembers(l: seq<int>)
    ensures Members(l) == {} <==> l == []
  {
    if l != [] {
      assert l[0] in Members(l);
    }
  }

  lemma NoMoves(ss: seq<State>, rg: seq<Range>, rank: seq<nat>, root: int, l: seq<int>, c: int, ab: bool)
    requires Ranked(ss, rank) && 0 <= root < |ss|
    ensures Moves(ss, rg, rank, root, l, 0, c, ab) == {} && !Hits(ss, rg, rank, l, 0, c)
  {
  }

  /** What entry k of the list adds. */
  lemma OneMove(ss: seq<State>, rg: seq<Range>, rank: seq<nat>, root: int, l: seq<int>, k: nat, c: int, ab: bool)
    requires Usable(ss, rank) && 0 <= root < |ss| && k < |l| && InTable(ss, l) && 0 < c < RANGE_CHARACTER
    ensures var s := l[k]; var before := Moves(ss, rg, rank, root, l, k, c, ab);
            && 0 <= s < |ss| && !IsSplit(ss[s])
            && (Consumes(rg, ss[s], c) ==> 0 <= ss[s].out < |ss|)
            && Moves(ss, rg, rank, root, l, k + 1, c, ab)
               == before + (if Consumes(rg, ss[s], c) then Eps(ss, rank, ss[s].out) else {}) + (if ab then {} else Eps(ss, rank, root))
            && (Hits(ss, rg, rank, l, k + 1, c) <==>
                Hits(ss, rg, rank, l, k, c) || (Consumes(rg, ss[s], c) && Matching(ss, Eps(ss, rank, ss[s].out))))
  {
    hide Eps, Matching, InChain;
    assert LeadsOn(ss, l[k]);
  }

  lemma {:induction false} HitsLater(ss: seq<State>, rg: seq<Range>, rank: seq<nat>, l: seq<int>, k: nat, c: int)
    requires Ranked(ss, rank) && k <= |l| && Hits(ss, rg, rank, l, k, c)
    ensures Hits(ss, rg, rank, l, |l|, c)
    decreases |l| - k
  {
    if k < |l| {
      HitsLater(ss, rg, rank, l, k + 1, c);
    }
  }

  lemma CompiledUsable(ss: seq<State>, rg: seq<Range>, e: Re, rank: seq<nat>)
    requires Compiled(ss, rg, e) && Ranked(ss, rank)
    requires forall i | 0 <= i < Size(e) :: 0 <= ss[i].out < |ss|
    ensures Usable(ss, rank) && Start(e) < |ss|
  {
    hide Size, Start, Wired, Linked, Outs;
  }

  lemma Initially(ss: seq<State>, rg: seq<Range>, rank: seq<nat>, root: int, l: seq<int>, marks: seq<bool>, ab: bool)
    requires Usable(ss, rank) && 0 <= root < |ss| && Marked(ss, l, marks) && Members(l) == Members([]) + Eps(ss, rank, root)
    ensures InTable(ss, l) && l != [] && Tracks(ss, rg, rank, root, Members(l), [], ab)
    ensures Matching(ss, Eps(ss, rank, root)) <==> Acc(ss, rg, rank, root, [])
    ensures forall text: seq<int> :: NoneFound(ss, rg, rank, root, text, 0, ab)
  {
    hide Acc, Eps, Tracks, Found;
    assert Members([]) == {};
    assert Members(l) == Eps(ss, rank, root);
    EmptyMembers(l);
    TracksStart(ss, rg, rank, root, ab);
    AccAnyEmpty(ss, rg, rank, Eps(ss, rank, root));
    EpsAcc(ss, rg, rank, root, []);
  }

  /** No non-empty match ends within the first n code points. */
  ghost predicate NoneFound(ss: seq<State>, rg: seq<Range>, rank: seq<nat>, root: int, text: seq<int>, n: nat, ab: bool)
    requires Ranked(ss, rank)
  {
    n <= |text| ==> forall j | 0 < j <= n :: !Found(ss, rg, rank, root, text[..j], ab)
  }

  lemma NoneFoundPush(ss: seq<State>, rg: seq<Range>, rank: seq<nat>, root: int, text: seq<int>, n: nat, ab: bool)
    requires Ranked(ss, rank) && 0 < n <= |text|
    ensures NoneFound(ss, rg, rank, root, text, n, ab)
       <==> NoneFound(ss, rg, rank, root, text, n - 1, ab) && !Found(ss, rg, rank, root, text[..n], ab)
  {
    hide Found;
  }

  lemma TextSplit(text: seq<int>, p: seq<int>, c: int, rest: seq<int>)
    requires Text(text) && text == p + ([c] + rest)
    ensures 0 < c < RANGE_CHARACTER && text == (p + [c]) + rest && text[..|p| + 1] == p + [c]
  {
    assert text[|p|] == c;
  }

  lemma RestOfText(p: seq<int>, rest: seq<int>)
    requires Text(p + rest)
    ensures rest != [] ==> rest[0] != 0
  {
    if rest != [] {
      assert (p + rest)[|p|] == rest[0];
    }
  }

  /** Unanchored, the next list holds the initial states at least. */
  lemma MovesSome(ss: seq<State>, rg: seq<Range>, rank: seq<nat>, root: int, l: seq<int>, c: int, ab: bool)
    requires Ranked(ss, rank) && 0 <= root < |ss| && l != []
    ensures !ab ==> Moves(ss, rg, rank, root, l, |l|, c, ab) != {}
  {
    if !ab {
      assert Eps(ss, rank, root) <= Moves(ss, rg, rank, root, l, |l|, c, ab);
    }
  }

  lemma FoundReported(ss: seq<State>, rg: seq<Range>, rank: seq<nat>, e: Re, w: seq<int>, j: nat, ab: bool)
    requires Compiled(ss, rg, e) && Safe(e) && Ranked(ss, rank) && Text(w) && 0 < j <= |w|
    requires Found(ss, rg, rank, Start(e), w[..j], ab)
    ensures Reported(e, w, ab, false)
  {
    hide Compiled, Safe, Ranked, Start, In, Found;
    FoundMeaning(ss, rg, rank, e, w, j, ab);
  }

  /** The result after the loop. */
  lemma Finally(ss: seq<State>, rg: seq<Range>, rank: seq<nat>, e: Re, w: seq<int>, p: seq<int>, rest: seq<int>,
                l: seq<int>, matched: bool, ab: bool, ae: bool)
    requires Compiled(ss, rg, e) && Safe(e) && Ranked(ss, rank) && Text(w) && w == p + rest
    requires Tracks(ss, rg, rank, Start(e), Members(l), p, ab)
    requires matched <==> if p == [] then Acc(ss, rg, rank, Start(e), []) else Found(ss, rg, rank, Start(e), p, ab)
    requires !ae ==> NoneFound(ss, rg, rank, Start(e), w, |p|, ab)
    requires (l == [] && ab && p != []) || rest == []
    ensures matched <==> Reported(e, w, ab, ae)
  {
    hide Compiled, Safe, Ranked, Start, In, Found, Acc, Tracks;
    if w == [] {
      AccLanguage(ss, rg, rank, e, []);
    } else if rest == [] {
      assert p == w && w[..|w|] == w;
      FoundMeaning(ss, rg, rank, e, w, |w|, ab);
      AtTheEnd(e, w, ab);
      if !ae {
        NoneReported(ss, rg, rank, e, w, ab);
      }
    } else {
      EmptyMembers(l);
      NothingFound(ss, rg, rank, e, w, p, rest);
      if !ae {
        NoneReported(ss, rg, rank, e, w, ab);
      }
      assert w[..|w|] == w;
      FoundMeaning(ss, rg, rank, e, w, |w|, ab);
      AtTheEnd(e, w, ab);
    }
  }

  lemma AtTheEnd(e: Re, w: seq<int>, ab: bool)
    requires w != []
    ensures Reported(e, w, ab, true) <==> EndsAt(e, w, |w|, ab)
  {
    hide In;
    forall i | 0 <= i <= |w| ensures PartMatches(e, w, i, |w|, ab, true) <==> PartMatches(e, w, i, |w|, ab, false) {
    }
  }

  lemma NoneReported(ss: seq<State>, rg: seq<Range>, rank: seq<nat>, e: Re, w: seq<int>, ab: bool)
    requires Compiled(ss, rg, e) && Safe(e) && Ranked(ss, rank) && Text(w) && w != []
    requires NoneFound(ss, rg, rank, Start(e), w, |w|, ab)
    ensures !Reported(e, w, ab, false)
  {
    hide Compiled, Safe, Ranked, Start, In, Found;
    forall i, j | i < j ensures !PartMatches(e, w, i, j, ab, false) {
      if PartMatches(e, w, i, j, ab, false) {
        assert EndsAt(e, w, j, ab);
        FoundMeaning(ss, rg, rank, e, w, j, ab);
      }
    }
  }

  /** With no state left, nothing ends at p or later. */
  lemma NothingFound(ss: seq<State>, rg: seq<Range>, rank: seq<nat>, e: Re, w: seq<int>, p: seq<int>, rest: seq<int>)
    requires Ranked(ss, rank) && w == p + rest && p != []
    requires Tracks(ss, rg, rank, Start(e), {}, p, true)
    ensures forall j | |p| <= j <= |w| :: !Found(ss, rg, rank, Start(e), w[..j], true)
    ensures NoneFound(ss, rg, rank, Start(e), w, |p|, true) ==> NoneFound(ss, rg, rank, Start(e), w, |w|, true)
    ensures w[..|p|] == p
  {
    hide Acc, Found;
    forall j | |p| <= j <= |w| ensures !Found(ss, rg, rank, Start(e), w[..j], true) {
      if j == |p| {
        assert w[..j] == p;
        NothingEnds(ss, rg, rank, Start(e), p);
      } else {
        assert w[..j] == p + rest[..j - |p|];
        NothingLeft(ss, rg, rank, Start(e), p, rest[..j - |p|]);
      }
    }
  }

  lemma NothingEnds(ss: seq<State>, rg: seq<Range>, rank: seq<nat>, root: int, p: seq<int>)
    requires Ranked(ss, rank) && Tracks(ss, rg, rank, root, {}, p, true)
    ensures !Found(ss, rg, rank, root, p, true)
  {
    hide Acc;
    NoneAcc(ss, rg, rank, []);
    assert !Started(ss, rg, rank, root, p, [], true);
    assert p[0..] + [] == p[0..];
  }

  lemma RangeStart(rg: seq<Range>, index: int)
    requires ChainEnds(rg, index)
    ensures 0 <= index < |rg|
  {
  }

  lemma MarkedLength(ss: seq<State>, l: seq<int>, marks: seq<bool>)
    requires Marked(ss, l, marks)
    ensures |l| <= |ss| == |marks|
  {
    DistinctBounded(l, |ss|);
  }

  lemma EpsUnfold(ss: seq<State>, rank: seq<nat>, i: int)
    requires Ranked(ss, rank) && 0 <= i < |ss|
    ensures IsSplit(ss[i]) ==> Eps(ss, rank, i) == Eps(ss, rank, ss[i].out) + Eps(ss, rank, ss[i].out1)
    ensures IsSplit(ss[i]) ==>
            (Matching(ss, Eps(ss, rank, i)) <==> Matching(ss, Eps(ss, rank, ss[i].out)) || Matching(ss, Eps(ss, rank, ss[i].out1)))
    ensures !IsSplit(ss[i]) ==> Eps(ss, rank, i) == {i} && (Matching(ss, Eps(ss, rank, i)) <==> ss[i].out == INVALID)
  {
    if !IsSplit(ss[i]) {
      assert i in Eps(ss, rank, i);
    }
  }
}
