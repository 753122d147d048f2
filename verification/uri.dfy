/** uri.h: removing dot segments from an absolute path, in place, against the algorithm of section 5.2.4 of RFC 3986. */
module Uris {

  const SLASH := '/' as int
  const DOT := '.' as int

  /** ---- Section 5.2.4 of RFC 3986 ---- */

  /** Where the first segment ends: at the first slash from i on, or at the end. */
  function SegmentEnd(s: seq<int>, i: nat): (e: nat)
    requires i <= |s|
    ensures i <= e <= |s| && SLASH !in s[i..e] && (e < |s| ==> s[e] == SLASH)
    decreases |s| - i
  {
    if i == |s| || s[i] == SLASH then i
    else
      var e := SegmentEnd(s, i + 1);
      assert s[i..e] == [s[i]] + s[i + 1..e];
      e
  }

  /** The last segment and its preceding slash, if any, removed. */
  function RemoveLast(output: seq<int>): (r: seq<int>)
    ensures |r| <= |output| && r == output[..|r|]
  {
    if output == [] then []
    else
      var front := output[..|output| - 1];
      if output[|output| - 1] == SLASH then front else RemoveLast(front)
  }

  predicate StartsWith(s: seq<int>, prefix: seq<int>) {
    |prefix| <= |s| && s[..|prefix|] == prefix
  }

  /** Steps 2A to 2E, until the input is empty. */
  function Remove(input: seq<int>, output: seq<int>): seq<int>
    decreases |input|
  {
    if input == [] then output
    else if StartsWith(input, [DOT, DOT, SLASH]) then Remove(input[3..], output)
    else if StartsWith(input, [DOT, SLASH]) then Remove(input[2..], output)
    else if StartsWith(input, [SLASH, DOT, SLASH]) then Remove(input[2..], output)
    else if input == [SLASH, DOT] then Remove([SLASH], output)
    else if StartsWith(input, [SLASH, DOT, DOT, SLASH]) then Remove(input[3..], RemoveLast(output))
    else if input == [SLASH, DOT, DOT] then Remove([SLASH], RemoveLast(output))
    else if input == [DOT] || input == [DOT, DOT] then Remove([], output)
    else
      var e := SegmentEnd(input, 1);
      Remove(input[e..], output + input[..e])
  }

  /** ---- One segment of the code's loop ---- */

  /** A slash, a segment, and what follows it: nothing, or a slash and more. */
  function Input(segment: seq<int>, tail: seq<int>): seq<int> {
    [SLASH] + segment + tail
  }

  predicate IsTail(tail: seq<int>) {
    tail == [] || tail[0] == SLASH
  }

  /** What is left to read after a dot segment. */
  function Rest(tail: seq<int>): seq<int> {
    if tail == [] then [SLASH] else tail
  }

  lemma DotSegment(tail: seq<int>, output: seq<int>)
    requires IsTail(tail)
    ensures Remove(Input([DOT], tail), output) == Remove(Rest(tail), output)
  {
    var input := Input([DOT], tail);
    assert input[0] == SLASH && input[1] == DOT;
    if tail == [] {
      assert input == [SLASH, DOT];
    } else {
      assert input[..3] == [SLASH, DOT, SLASH] && input[2..] == tail;
    }
  }

  lemma DotDotSegment(tail: seq<int>, output: seq<int>)
    requires IsTail(tail)
    ensures Remove(Input([DOT, DOT], tail), output) == Remove(Rest(tail), RemoveLast(output))
  {
    var input := Input([DOT, DOT], tail);
    assert input[0] == SLASH && input[1] == DOT && input[2] == DOT;
    if tail == [] {
      assert input == [SLASH, DOT, DOT];
    } else {
      assert input[..4] == [SLASH, DOT, DOT, SLASH] && input[3..] == tail;
    }
  }

  lemma OtherSegment(segment: seq<int>, tail: seq<int>, output: seq<int>)
    requires IsTail(tail) && SLASH !in segment && segment != [DOT] && segment != [DOT, DOT]
    ensures Remove(Input(segment, tail), output) == Remove(tail, output + [SLASH] + segment)
  {
    hide Remove;
    var input := Input(segment, tail);
    OtherUnfolds(segment, tail, output);
    InputEnd(segment, tail);
    assert input[|segment| + 1..] == tail;
    assert output + input[..|segment| + 1] == output + [SLASH] + segment by {
      assert input[..|segment| + 1] == [SLASH] + segment;
    }
  }

  lemma {:induction false} FirstSlash(s: seq<int>, i: nat, e: nat)
    requires i <= e <= |s| && SLASH !in s[i..e] && (e < |s| ==> s[e] == SLASH)
    ensures SegmentEnd(s, i) == e
    decreases e - i
  {
    if i < e {
      assert s[i..e] == [s[i]] + s[i + 1..e];
      FirstSlash(s, i + 1, e);
    }
  }

  lemma InputEnd(segment: seq<int>, tail: seq<int>)
    requires IsTail(tail) && SLASH !in segment
    ensures SegmentEnd(Input(segment, tail), 1) == |segment| + 1
  {
    var input := Input(segment, tail);
    assert input[1..|segment| + 1] == segment;
    FirstSlash(input, 1, |segment| + 1);
  }

  lemma OtherUnfolds(segment: seq<int>, tail: seq<int>, output: seq<int>)
    requires IsTail(tail) && SLASH !in segment && segment != [DOT] && segment != [DOT, DOT]
    ensures var input := Input(segment, tail);
            Remove(input, output) == Remove(input[SegmentEnd(input, 1)..], output + input[..SegmentEnd(input, 1)])
  {
    var input := Input(segment, tail);
    assert input[0] == SLASH;
    NotDots(segment, tail);
  }

  lemma NotDots(segment: seq<int>, tail: seq<int>)
    requires IsTail(tail) && SLASH !in segment && segment != [DOT] && segment != [DOT, DOT]
    ensures var input := Input(segment, tail);
            && !StartsWith(input, [SLASH, DOT, SLASH]) && input != [SLASH, DOT]
            && !StartsWith(input, [SLASH, DOT, DOT, SLASH]) && input != [SLASH, DOT, DOT]
  {
    hide StartsWith, SegmentEnd, Input;
    var input := Input(segment, tail);
    if StartsWith(input, [SLASH, DOT, SLASH]) || input == [SLASH, DOT] {
      DotInput(input);
      SameSegment(segment, tail, [DOT], input[2..]);
    }
    if StartsWith(input, [SLASH, DOT, DOT, SLASH]) || input == [SLASH, DOT, DOT] {
      DotDotInput(input);
      SameSegment(segment, tail, [DOT, DOT], input[3..]);
    }
  }

  lemma DotInput(input: seq<int>)
    requires StartsWith(input, [SLASH, DOT, SLASH]) || input == [SLASH, DOT]
    ensures |input| >= 2 && IsTail(input[2..]) && input == Input([DOT], input[2..])
  {
    if |input| > 2 {
      assert input == input[..3] + input[3..];
    }
  }

  lemma DotDotInput(input: seq<int>)
    requires StartsWith(input, [SLASH, DOT, DOT, SLASH]) || input == [SLASH, DOT, DOT]
    ensures |input| >= 3 && IsTail(input[3..]) && input == Input([DOT, DOT], input[3..])
  {
    if |input| > 3 {
      assert input == input[..4] + input[4..];
    }
  }

  /** An input has one first segment. */
  lemma SameSegment(segment: seq<int>, tail: seq<int>, segment': seq<int>, tail': seq<int>)
    requires IsTail(tail) && SLASH !in segment && IsTail(tail') && SLASH !in segment'
    requires Input(segment, tail) == Input(segment', tail')
    ensures segment == segment'
  {
    hide SegmentEnd;
    InputEnd(segment, tail);
    InputEnd(segment', tail');
    assert segment == Input(segment, tail)[1..|segment| + 1];
    assert segment' == Input(segment', tail')[1..|segment'| + 1];
  }

  /** ---- The code's loop ---- */

  predicate Absolute(p: seq<int>) {
    p == [] || p[0] == SLASH
  }

  /** Between segments: what is read is output and a slash, what is unread is as it was, and writing is behind reading. */
  ghost predicate Between(p: seq<int>, buf: seq<int>, pathpos: nat, newpos: nat) {
    && newpos <= pathpos <= |p| + 1 && |p| < |buf|
    && (pathpos <= |p| ==> buf[pathpos..|p|] == p[pathpos..])
    && (pathpos == |p| + 1 ==> newpos <= |p|)
    && if pathpos == 0 then newpos == 0
       else if pathpos <= |p| then newpos > 0 && buf[newpos - 1] == SLASH && Absolute(buf[..newpos - 1])
                                   && Remove(p, []) == Remove([SLASH] + p[pathpos..], buf[..newpos - 1])
       else Remove(p, []) == buf[..newpos]
  }

  lemma SlashOnly(output: seq<int>)
    ensures Remove([SLASH], output) == output + [SLASH]
  {
    assert [SLASH][..1] == [SLASH];
    assert output + [SLASH] + [] == output + [SLASH];
  }

  /** A segment of the path, and the tail after it. */
  lemma Cut(p: seq<int>, pathpos: nat, e: nat)
    requires pathpos <= |p| && e == SegmentEnd(p, pathpos)
    ensures IsTail(p[e..]) && SLASH !in p[pathpos..e] && [SLASH] + p[pathpos..] == Input(p[pathpos..e], p[e..])
    ensures e < |p| ==> p[e..] == [SLASH] + p[e + 1..]
  {
    hide SegmentEnd;
    SegmentIs(p, pathpos);
    Split(p, pathpos, e);
  }

  lemma Split(p: seq<int>, i: nat, e: nat)
    requires i <= e <= |p|
    ensures [SLASH] + p[i..] == [SLASH] + p[i..e] + p[e..] && (e < |p| && p[e] == SLASH ==> p[e..] == [SLASH] + p[e + 1..])
  {
    assert p[i..] == p[i..e] + p[e..];
  }

  lemma SegmentIs(p: seq<int>, i: nat)
    requires i <= |p|
    ensures var e := SegmentEnd(p, i); i <= e <= |p| && SLASH !in p[i..e] && (e < |p| ==> p[e] == SLASH)
  {
  }

  /** What remains to be removed after a segment, with the output and a slash in the buffer. */
  lemma AfterDots(p: seq<int>, e: nat, output: seq<int>, buf: seq<int>, newpos: nat)
    requires e <= |p| && (e < |p| ==> p[e] == SLASH) && 0 < newpos <= |buf| && buf[newpos - 1] == SLASH && buf[..newpos - 1] == output
    ensures Remove(Rest(p[e..]), output) == if e < |p| then Remove([SLASH] + p[e + 1..], buf[..newpos - 1]) else buf[..newpos]
  {
    hide Remove;
    if e < |p| {
      assert p[e..] == [SLASH] + p[e + 1..];
    } else {
      SlashOnly(output);
      assert buf[..newpos] == buf[..newpos - 1] + [SLASH];
    }
  }

  lemma DotStep(p: seq<int>, buf: seq<int>, pathpos: nat, newpos: nat, e: nat)
    requires pathpos <= |p| && Between(p, buf, pathpos, newpos) && 0 < pathpos && e == SegmentEnd(p, pathpos) && p[pathpos..e] == [DOT]
    ensures Between(p, buf, e + 1, newpos)
  {
    hide Remove, SegmentEnd, Input;
    Cut(p, pathpos, e);
    DotSegment(p[e..], buf[..newpos - 1]);
    AfterDots(p, e, buf[..newpos - 1], buf, newpos);
    Later(p, buf, pathpos, e + 1);
  }

  lemma Later(p: seq<int>, buf: seq<int>, i: nat, j: nat)
    requires i <= |p| < |buf| && i <= j && buf[i..|p|] == p[i..]
    ensures j <= |p| ==> buf[j..|p|] == p[j..]
  {
    if j <= |p| {
      assert buf[j..|p|] == buf[i..|p|][j - i..];
    }
  }

  lemma DotDotStep(p: seq<int>, buf: seq<int>, pathpos: nat, newpos: nat, e: nat, r: nat)
    requires pathpos <= |p| && Between(p, buf, pathpos, newpos) && 0 < pathpos && e == SegmentEnd(p, pathpos) && p[pathpos..e] == [DOT, DOT]
    requires 0 < r <= newpos && buf[r - 1] == SLASH && buf[..r - 1] == RemoveLast(buf[..newpos - 1])
    ensures Between(p, buf, e + 1, r)
  {
    hide Remove, SegmentEnd, Input;
    Cut(p, pathpos, e);
    DotDotSegment(p[e..], buf[..newpos - 1]);
    AfterDots(p, e, buf[..r - 1], buf, r);
    Later(p, buf, pathpos, e + 1);
    assert Absolute(buf[..r - 1]) by {
      if r > 1 {
        assert buf[..r - 1][0] == buf[..newpos - 1][0];
      }
    }
  }

  /** Any other segment moved down, with a slash unless it is the last. */
  ghost predicate Moved(p: seq<int>, buf: seq<int>, buf': seq<int>, pathpos: nat, newpos: nat, e: nat, r: nat)
    requires pathpos <= e <= |p| < |buf|
  {
    && |buf'| == |buf| && r == newpos + (e - pathpos) + (if e < |p| then 1 else 0) && r <= |buf'|
    && buf'[..r] == buf[..newpos] + p[pathpos..e] + (if e < |p| then [SLASH] else [])
    && (e < |p| ==> buf'[e + 1..|p|] == buf[e + 1..|p|])
  }

  lemma OtherStep(p: seq<int>, buf: seq<int>, buf': seq<int>, pathpos: nat, newpos: nat, e: nat, r: nat)
    requires pathpos <= |p| && Between(p, buf, pathpos, newpos) && 0 < pathpos && e == SegmentEnd(p, pathpos)
    requires p[pathpos..e] != [DOT] && p[pathpos..e] != [DOT, DOT] && Moved(p, buf, buf', pathpos, newpos, e, r)
    ensures Between(p, buf', e + 1, r)
  {
    hide Remove, SegmentEnd, Input, Absolute;
    Cut(p, pathpos, e);
    var segment, output := p[pathpos..e], buf[..newpos - 1];
    OtherSegment(segment, p[e..], output);
    assert buf[..newpos] == output + [SLASH];
    Later(p, buf, pathpos, e + 1);
    if e < |p| {
      assert buf'[..r][r - 1] == SLASH;
      assert buf'[..r - 1] == output + [SLASH] + segment by {
        assert buf'[..r - 1] == buf'[..r][..r - 1];
      }
      StillAbsolute(output, segment);
    } else {
      EmptyInput(output + [SLASH] + segment);
      assert p[e..] == [];
    }
  }

  lemma EmptyInput(output: seq<int>)
    ensures Remove([], output) == output
  {
  }

  lemma StillAbsolute(output: seq<int>, segment: seq<int>)
    requires Absolute(output)
    ensures Absolute(output + [SLASH] + segment)
  {
  }

  /** The path's leading slash: an empty first segment. */
  lemma FirstStep(p: seq<int>, buf: seq<int>, buf': seq<int>)
    requires Between(p, buf, 0, 0) && p != [] && p[0] == SLASH && |buf'| == |buf| && buf'[0] == SLASH && buf'[1..|p|] == buf[1..|p|]
    ensures Between(p, buf', 1, 1)
  {
    hide Remove;
    assert [SLASH] + p[1..] == p;
    assert buf'[..0] == [];
    Later(p, buf, 0, 1);
  }

  /** The loop that looks for the next slash. */
  method FindSlash(path: array<int>, pathpos: nat, pathlen: nat, ghost p: seq<int>) returns (slashpos: nat)
    requires pathpos <= pathlen == |p| < path.Length && path[pathpos..pathlen] == p[pathpos..]
    ensures pathpos + slashpos == SegmentEnd(p, pathpos)
  {
    slashpos := 0;
    while pathpos + slashpos < pathlen
      invariant pathpos + slashpos <= pathlen && SegmentEnd(p, pathpos) == SegmentEnd(p, pathpos + slashpos)
    {
      assert path[pathpos + slashpos] == path[pathpos..pathlen][slashpos];
      if path[pathpos + slashpos] == SLASH {
        break;
      }
      slashpos := slashpos + 1;
    }
  }

  /** The loop that backs up to the slash before the last segment. */
  method BackUp(path: array<int>, newpos: nat) returns (r: nat)
    requires 0 < newpos <= path.Length && path[newpos - 1] == SLASH && Absolute(path[..newpos - 1])
    ensures 0 < r <= newpos && path[r - 1] == SLASH && path[..r - 1] == RemoveLast(path[..newpos - 1])
  {
    r := newpos;
    if r > 1 {
      r := r - 1;
      while r > 0
        invariant 0 < r < newpos && RemoveLast(path[..newpos - 1]) == RemoveLast(path[..r])
      {
        assert path[..r][..r - 1] == path[..r - 1] && path[..r][r - 1] == path[r - 1];
        if path[r - 1] == SLASH {
          break;
        }
        assert path[0] == path[..newpos - 1][0] == SLASH;
        r := r - 1;
      }
    }
  }

  /** `memmove` towards the front. */
  method MemMove(path: array<int>, to: nat, from: nat, n: nat)
    requires to <= from && from + n <= path.Length
    modifies path
    ensures path[to..to + n] == old(path[from..from + n])
    ensures forall i | 0 <= i < path.Length && !(to <= i < to + n) :: path[i] == old(path[i])
  {
    ghost var was := path[..];
    forall k | 0 <= k < n {
      path[to + k] := path[from + k];
    }
    SliceMoved(was, path[..], to, from, n);
    assert path[to..to + n] == path[..][to..to + n] && was[from..from + n] == old(path[from..from + n]);
  }

  /** The move, and the slash after it. */
  method MoveDown(path: array<int>, newpos: nat, pathpos: nat, slashpos: nat, pathlen: nat, ghost p: seq<int>) returns (r: nat)
    requires newpos <= pathpos && pathpos + slashpos <= pathlen == |p| < path.Length && path[pathpos..pathlen] == p[pathpos..]
    modifies path
    ensures Moved(p, old(path[..]), path[..], pathpos, newpos, pathpos + slashpos, r)
    ensures forall i | pathlen <= i < path.Length :: path[i] == old(path[i])
  {
    hide Moved;
    ghost var was := path[..];
    SubSlice(was, p, pathpos, pathpos + slashpos);
    assert was[pathpos..pathpos + slashpos] == path[pathpos..pathpos + slashpos];
    MemMove(path, newpos, pathpos, slashpos);
    ghost var moved := path[..];
    assert moved[newpos..newpos + slashpos] == path[newpos..newpos + slashpos];
    r := newpos + slashpos;
    if pathpos + slashpos < pathlen {
      path[r] := SLASH;
      r := r + 1;
      assert path[..] == moved[r - 1 := SLASH];
      Kept(moved, newpos, slashpos, SLASH);
    }
    MovedIs(p, was, path[..], pathpos, newpos, pathpos + slashpos, r);
  }

  lemma Kept(s: seq<int>, at: nat, n: nat, x: int)
    requires at + n < |s|
    ensures s[at + n := x][at..at + n] == s[at..at + n]
  {
  }

  lemma SubSlice(buf: seq<int>, p: seq<int>, i: nat, e: nat)
    requires i <= e <= |p| <= |buf| && buf[i..|p|] == p[i..]
    ensures buf[i..e] == p[i..e]
  {
    assert buf[i..e] == buf[i..|p|][..e - i];
    assert p[i..e] == p[i..][..e - i];
  }

  lemma SliceMoved(s: seq<int>, t: seq<int>, to: nat, from: nat, n: nat)
    requires to <= from && from + n <= |s| == |t| && forall k | to <= k < to + n :: t[k] == s[from + (k - to)]
    ensures t[to..to + n] == s[from..from + n]
  {
  }

  lemma MovedIs(p: seq<int>, buf: seq<int>, buf': seq<int>, pathpos: nat, newpos: nat, e: nat, r: nat)
    requires newpos <= pathpos <= e <= |p| < |buf| == |buf'| && r == newpos + (e - pathpos) + (if e < |p| then 1 else 0)
    requires forall i | 0 <= i < newpos :: buf'[i] == buf[i]
    requires buf'[newpos..newpos + (e - pathpos)] == p[pathpos..e]
    requires e < |p| ==> buf'[r - 1] == SLASH && forall i | e < i < |p| :: buf'[i] == buf[i]
    ensures Moved(p, buf, buf', pathpos, newpos, e, r)
  {
    var n := e - pathpos;
    assert buf'[..newpos] == buf[..newpos];
    assert buf'[..newpos + n] == buf'[..newpos] + buf'[newpos..newpos + n];
    if e < |p| {
      assert buf'[..r] == buf'[..newpos + n] + [SLASH];
      assert buf'[e + 1..|p|] == buf[e + 1..|p|];
    }
  }

  /** IN-PLACE `RemoveDotSegments` IS THE ALGORITHM OF SECTION 5.2.4 on every absolute path; it writes only within the
      path and its terminator. */
  method RemoveDotSegments(path: array<int>, pathlen: nat) returns (newlen: nat)
    requires 0 < pathlen < path.Length && path[0] == SLASH
    modifies path
    ensures newlen <= pathlen && path[..newlen] == Remove(old(path[..pathlen]), []) && path[newlen] == 0
    ensures forall i | pathlen < i < path.Length :: path[i] == old(path[i])
  {
    hide Remove, Between, SegmentEnd, RemoveLast, Moved;
    ghost var p := path[..pathlen];
    var pathpos: nat, newpos: nat := 0, 0;
    BetweenStart(p, path[..]);
    while pathpos < pathlen
      invariant pathpos <= pathlen + 1 && Between(p, path[..], pathpos, newpos) && (pathpos == 0 ==> newpos == 0)
      invariant forall i | pathlen <= i < path.Length :: path[i] == old(path[i])
      decreases pathlen + 1 - pathpos
    {
      BetweenIs(p, path[..], pathpos, newpos);
      assert path[pathpos..pathlen] == path[..][pathpos..pathlen];
      var slashpos := FindSlash(path, pathpos, pathlen, p);
      SegmentStart(p, pathpos);
      ghost var e, was := pathpos + slashpos, path[..];
      SubSlice(was, p, pathpos, e);
      SegmentDots(was, p, pathpos, e);
      if slashpos == 2 && path[pathpos] == DOT && path[pathpos + 1] == DOT {
        var last := BackUp(path, newpos);
        DotDotStep(p, was, pathpos, newpos, e, last);
        newpos := last;
      } else if slashpos == 1 && path[pathpos] == DOT {
        DotStep(p, was, pathpos, newpos, e);
      } else {
        var r := MoveDown(path, newpos, pathpos, slashpos, pathlen, p);
        if pathpos == 0 {
          FirstMoved(p, was, path[..], r);
          FirstStep(p, was, path[..]);
        } else {
          OtherStep(p, was, path[..], pathpos, newpos, e, r);
        }
        newpos := r;
      }
      pathpos := pathpos + slashpos + 1;
    }
    BetweenEnd(p, path[..], pathpos, newpos);
    path[newpos] := 0;
    newlen := newpos;
  }

  lemma BetweenStart(p: seq<int>, buf: seq<int>)
    requires |p| < |buf| && buf[..|p|] == p
    ensures Between(p, buf, 0, 0)
  {
  }

  lemma BetweenIs(p: seq<int>, buf: seq<int>, pathpos: nat, newpos: nat)
    requires Between(p, buf, pathpos, newpos) && pathpos <= |p|
    ensures newpos <= pathpos && |p| < |buf| && buf[pathpos..|p|] == p[pathpos..]
    ensures pathpos > 0 ==> newpos > 0 && buf[newpos - 1] == SLASH && Absolute(buf[..newpos - 1])
  {
    hide Remove;
  }

  /** An absolute path starts with an empty segment. */
  lemma SegmentStart(p: seq<int>, pathpos: nat)
    requires pathpos < |p| && p[0] == SLASH
    ensures pathpos <= SegmentEnd(p, pathpos) <= |p| && (pathpos == 0 ==> SegmentEnd(p, pathpos) == 0)
  {
  }

  /** Reading one or two characters of the segment. */
  lemma SegmentDots(buf: seq<int>, p: seq<int>, i: nat, e: nat)
    requires i <= e <= |p| <= |buf| && buf[i..e] == p[i..e]
    ensures p[i..e] == [DOT] <==> e - i == 1 && buf[i] == DOT
    ensures p[i..e] == [DOT, DOT] <==> e - i == 2 && buf[i] == DOT && buf[i + 1] == DOT
  {
    if e - i >= 1 {
      assert buf[i..e][0] == buf[i];
    }
    if e - i >= 2 {
      assert buf[i..e][1] == buf[i + 1];
    }
  }

  lemma FirstMoved(p: seq<int>, buf: seq<int>, buf': seq<int>, r: nat)
    requires 0 < |p| < |buf| && Moved(p, buf, buf', 0, 0, 0, r)
    ensures r == 1 && |buf'| == |buf| && buf'[0] == SLASH && buf'[1..|p|] == buf[1..|p|]
  {
    assert buf'[..r][0] == SLASH;
  }

  lemma BetweenEnd(p: seq<int>, buf: seq<int>, pathpos: nat, newpos: nat)
    requires |p| > 0 && Between(p, buf, pathpos, newpos) && pathpos >= |p|
    ensures newpos <= |p| && buf[..newpos] == Remove(p, [])
  {
    hide Remove;
    if pathpos == |p| {
      assert [SLASH] + p[pathpos..] == [SLASH];
      SlashOnly(buf[..newpos - 1]);
      assert buf[..newpos] == buf[..newpos - 1] + [SLASH];
    }
  }

  /** ---- What is left has no dot segment ---- */

  /** An absolute path, or nothing, none of whose segments is "." or "..". */
  predicate Clean(p: seq<int>)
    decreases |p|
  {
    p == [] || (p[0] == SLASH && var e := SegmentEnd(p, 1); p[1..e] != [DOT] && p[1..e] != [DOT, DOT] && Clean(p[e..]))
  }

  lemma CleanCut(p: seq<int>)
    requires p != [] && p[0] == SLASH
    ensures var e := SegmentEnd(p, 1);
            p == Input(p[1..e], p[e..]) && IsTail(p[e..]) && SLASH !in p[1..e] && p == p[..e] + p[e..] && p[..e] == [SLASH] + p[1..e]
  {
    hide SegmentEnd;
    SegmentIs(p, 1);
  }

  lemma CleanOne(segment: seq<int>, tail: seq<int>)
    requires IsTail(tail) && SLASH !in segment
    ensures Clean(Input(segment, tail)) <==> segment != [DOT] && segment != [DOT, DOT] && Clean(tail)
  {
    hide SegmentEnd;
    InputEnd(segment, tail);
    assert Input(segment, tail)[1..|segment| + 1] == segment && Input(segment, tail)[|segment| + 1..] == tail;
  }

  lemma {:induction false} CleanJoin(a: seq<int>, b: seq<int>)
    requires Clean(a) && Clean(b)
    ensures Clean(a + b)
    decreases |a|
  {
    hide Clean, Input, SegmentEnd;
    CleanAbsolute(a);
    CleanAbsolute(b);
    if a == [] {
      assert a + b == b;
    } else {
      CleanCut(a);
      var e := SegmentEnd(a, 1);
      SegmentIs(a, 1);
      CleanOne(a[1..e], a[e..]);
      CleanJoin(a[e..], b);
      CleanOne(a[1..e], a[e..] + b);
      InputJoin(a[1..e], a[e..], b);
    }
  }

  lemma CleanAbsolute(p: seq<int>)
    requires Clean(p)
    ensures IsTail(p)
  {
  }

  lemma InputJoin(segment: seq<int>, tail: seq<int>, b: seq<int>)
    ensures Input(segment, tail) + b == Input(segment, tail + b)
  {
    assert [SLASH] + segment + tail + b == [SLASH] + segment + (tail + b);
  }

  lemma {:induction false} RemoveLastJoin(a: seq<int>, b: seq<int>)
    requires b != [] && b[0] == SLASH
    ensures RemoveLast(a + b) == a + RemoveLast(b)
    decreases |b|
  {
    assert (a + b)[..|a + b| - 1] == a + b[..|b| - 1];
    if b[|b| - 1] != SLASH {
      RemoveLastJoin(a, b[..|b| - 1]);
    }
  }

  /** One segment alone. */
  lemma {:induction false} RemoveLastOne(segment: seq<int>)
    requires SLASH !in segment
    ensures RemoveLast([SLASH] + segment) == []
    decreases |segment|
  {
    var s := [SLASH] + segment;
    if segment != [] {
      assert s[..|s| - 1] == [SLASH] + segment[..|segment| - 1];
      RemoveLastOne(segment[..|segment| - 1]);
    } else {
      assert s[..0] == [];
    }
  }

  lemma {:induction false} CleanRemoveLast(p: seq<int>)
    requires Clean(p)
    ensures Clean(RemoveLast(p))
    decreases |p|
  {
    hide Clean, Input, SegmentEnd, RemoveLast;
    CleanAbsolute(p);
    RemoveLastNone();
    if p != [] {
      CleanCut(p);
      var e := SegmentEnd(p, 1);
      SegmentIs(p, 1);
      CleanOne(p[1..e], p[e..]);
      if p[e..] == [] {
        RemoveLastOne(p[1..e]);
        CleanNone();
        assert p == [SLASH] + p[1..e];
      } else {
        RemoveLastJoin(p[..e], p[e..]);
        CleanRemoveLast(p[e..]);
        CleanNone();
        CleanOne(p[1..e], []);
        InputAlone(p[1..e]);
        CleanJoin(p[..e], RemoveLast(p[e..]));
      }
    }
  }

  lemma RemoveLastNone()
    ensures RemoveLast([]) == []
  {
  }

  lemma CleanNone()
    ensures Clean([])
  {
  }

  lemma InputAlone(segment: seq<int>)
    ensures Input(segment, []) == [SLASH] + segment
  {
  }

  /** THE OUTPUT HAS NO DOT SEGMENT. */
  lemma {:induction false} RemoveClean(input: seq<int>, output: seq<int>)
    requires IsTail(input) && Clean(output)
    ensures Clean(Remove(input, output))
    decreases |input|
  {
    hide Clean, Input, SegmentEnd, RemoveLast, Remove;
    if input == [] {
      EmptyInput(output);
    } else {
      CleanCut(input);
      SegmentIs(input, 1);
      var e := SegmentEnd(input, 1);
      var segment, tail := input[1..e], input[e..];
      if segment == [DOT] {
        DotSegment(tail, output);
        RemoveClean(Rest(tail), output);
      } else if segment == [DOT, DOT] {
        DotDotSegment(tail, output);
        CleanRemoveLast(output);
        RemoveClean(Rest(tail), RemoveLast(output));
      } else {
        OtherSegment(segment, tail, output);
        CleanNone();
        CleanOne(segment, []);
        InputAlone(segment);
        CleanJoin(output, [SLASH] + segment);
        assert output + ([SLASH] + segment) == output + [SLASH] + segment;
        RemoveClean(tail, output + [SLASH] + segment);
      }
    }
  }

  /** A path without dot segments stays as it is. */
  lemma {:induction false} CleanStays(input: seq<int>, output: seq<int>)
    requires Clean(input)
    ensures Remove(input, output) == output + input
    decreases |input|
  {
    hide Clean, Input, SegmentEnd, RemoveLast, Remove;
    CleanAbsolute(input);
    if input == [] {
      EmptyInput(output);
      assert output + [] == output;
    } else {
      CleanCut(input);
      SegmentIs(input, 1);
      var e := SegmentEnd(input, 1);
      var segment, tail := input[1..e], input[e..];
      CleanOne(segment, tail);
      OtherSegment(segment, tail, output);
      CleanStays(tail, output + [SLASH] + segment);
      assert output + input == output + [SLASH] + segment + tail;
    }
  }

  /** REMOVING DOT SEGMENTS AGAIN CHANGES NOTHING, and from an absolute path it leaves one. */
  lemma Idempotent(p: seq<int>)
    requires p != [] && p[0] == SLASH
    ensures Clean(Remove(p, [])) && Remove(Remove(p, []), []) == Remove(p, [])
  {
    hide Clean, Remove;
    CleanNone();
    RemoveClean(p, []);
    CleanStays(Remove(p, []), []);
    assert [] + Remove(p, []) == Remove(p, []);
  }
}
