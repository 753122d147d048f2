/** What the parser accepts is a JSON text of RFC 8259, with what the flags add to it. */
module JsonRecognition {
  import opened Decimals
  import opened JsonEvents
  import opened JsonGrammar
  import opened JsonNumbers
  import opened JsonReading
  import opened JsonSpelling
  import opened JsonStrings
  import opened JsonSyntax
  import opened JsonValues
  import opened Wrappers
  import JsonBuilding
  import JsonRoundTrip
  import Utf8

  /** A parse that reads integers only. */
  ghost predicate Recognizes(env: Env, d: Dialect) {
    && Parses(env, d)
    && forall pos: nat | pos < |env.src| && env.scanNumber(pos).Read? :: IntegerAt(env.src, pos).Integral?
  }

  /** ---- Blanks ---- */

  lemma {:induction false} BlockBody(src: seq<int>, pos: nat)
    requires pos <= |src| && BlockComment(src, pos).Read?
    ensures var end := BlockComment(src, pos).end;
            && pos + 2 <= end <= |src| && src[end - 2] == '*' as int && src[end - 1] == '/' as int
            && (forall i | pos <= i < end - 2 :: src[i] != 0)
            && (forall i | pos <= i < end - 2 && src[i] == '*' as int :: src[i + 1] != '/' as int)
    decreases |src| - pos
  {
    if !(src[pos] == '*' as int && At(src, pos + 1) == '/' as int) {
      BlockBody(src, pos + 1);
    }
  }

  lemma {:induction false} LineBody(src: seq<int>, pos: nat)
    requires pos <= |src|
    ensures var end := LineComment(src, pos);
            || (pos < end <= |src| && src[end - 1] == 0x0A && forall i | pos <= i < end - 1 :: src[i] != 0 && src[i] != 0x0A)
            || (pos <= end <= |src| && At(src, end) == 0 && forall i | pos <= i < end :: src[i] != 0 && src[i] != 0x0A)
    decreases |src| - pos
  {
    if At(src, pos) != 0 && src[pos] != 0x0A {
      LineBody(src, pos + 1);
    }
  }

  /** What is skipped: blanks, and perhaps a line comment that the end of the text cuts off. */
  lemma {:induction false} SkippedBlanks(src: seq<int>, pos: nat, d: Dialect) returns (bs: seq<Blank>, open: Maybe<seq<int>>)
    requires pos <= |src| && SkipFrom(src, d.comments, pos).Read?
    ensures OkBlanks(bs, d) && Stands(src, pos, BlanksText(bs))
    ensures Stands(src, pos + |BlanksText(bs)|, OpenText(open))
    ensures SkipFrom(src, d.comments, pos).end == pos + |BlanksText(bs)| + |OpenText(open)|
    ensures open.Some? ==> d.comments && 0 !in open.value && 0x0A !in open.value && At(src, SkipFrom(src, d.comments, pos).end) == 0
    decreases |src| - pos
  {
    hide OkBlank, Stands, BlanksText, BlankText, SkipFrom, BlockComment, LineComment, OpenText, OkBlanks, IsSpace;
    bs, open := [], None;
    SkipCases(src, pos, d.comments);
    if pos < |src| && IsSpace(src[pos]) {
      SpaceFirst(src, pos, d);
      SpaceSkipped(src, d.comments, pos, src[pos]);
      bs, open := SkippedBlanks(src, pos + 1, d);
      bs := BlankFirst(src, pos, Space(src[pos]), bs, d);
    } else if d.comments && At(src, pos) == '/' as int && At(src, pos + 1) == '*' as int {
      var b := BlockFirst(src, pos, d);
      bs, open := SkippedBlanks(src, pos + |BlankText(b)|, d);
      bs := BlankFirst(src, pos, b, bs, d);
    } else if d.comments && At(src, pos) == '/' as int && At(src, pos + 1) == '/' as int {
      LineStep(src, pos);
      var end := LineComment(src, pos + 2);
      if pos + 2 < end && src[end - 1] == 0x0A {
        var b := LineFirst(src, pos, d);
        bs, open := SkippedBlanks(src, end, d);
        bs := BlankFirst(src, pos, b, bs, d);
      } else {
        open := Some(src[pos + 2..end]);
        OpenLast(src, pos, end, d);
      }
    } else {
      NothingThere(src, pos, d);
    }
  }

  lemma SkipCases(src: seq<int>, pos: nat, comments: bool)
    requires pos <= |src| && SkipFrom(src, comments, pos).Read?
    ensures comments && At(src, pos) == '/' as int ==> At(src, pos + 1) == '*' as int || At(src, pos + 1) == '/' as int
    ensures comments && At(src, pos) == '/' as int && At(src, pos + 1) == '*' as int ==> BlockComment(src, pos + 2).Read?
    ensures !(pos < |src| && IsSpace(src[pos])) && !(comments && At(src, pos) == '/' as int) ==> SkipFrom(src, comments, pos).end == pos
  {
    hide BlockComment, LineComment;
  }

  lemma NothingThere(src: seq<int>, pos: nat, d: Dialect)
    requires pos <= |src|
    ensures OkBlanks([], d) && BlanksText([]) == [] && OpenText(None) == [] && Stands(src, pos, [])
  {
  }

  lemma SpaceFirst(src: seq<int>, pos: nat, d: Dialect)
    requires pos < |src| && IsSpace(src[pos])
    ensures src[pos] == 0x20 || src[pos] == 0x09 || src[pos] == 0x0A || src[pos] == 0x0D
    ensures OkBlank(Space(src[pos]), d) && Stands(src, pos, BlankText(Space(src[pos]))) && |BlankText(Space(src[pos]))| == 1
  {
    assert src[pos..pos + 1] == [src[pos]];
  }

  lemma BlankFirst(src: seq<int>, pos: nat, b: Blank, rest: seq<Blank>, d: Dialect) returns (bs: seq<Blank>)
    requires OkBlank(b, d) && OkBlanks(rest, d) && Stands(src, pos, BlankText(b)) && Stands(src, pos + |BlankText(b)|, BlanksText(rest))
    ensures OkBlanks(bs, d) && Stands(src, pos, BlanksText(bs)) && |BlanksText(bs)| == |BlankText(b)| + |BlanksText(rest)|
  {
    hide OkBlank, Stands, BlankText;
    bs := [b] + rest;
    assert bs[1..] == rest;
    StandsJoin(src, pos, BlankText(b), BlanksText(rest));
  }

  lemma BlockFirst(src: seq<int>, pos: nat, d: Dialect) returns (b: Blank)
    requires pos + 2 <= |src| && d.comments && src[pos] == '/' as int && src[pos + 1] == '*' as int && BlockComment(src, pos + 2).Read?
    ensures OkBlank(b, d) && Stands(src, pos, BlankText(b)) && SkipFrom(src, d.comments, pos) == SkipFrom(src, d.comments, pos + |BlankText(b)|)
  {
    hide BlockComment, SkipFrom;
    BlockBody(src, pos + 2);
    var end := BlockComment(src, pos + 2).end;
    BlockStep(src, pos, end);
    b := Block(src[pos + 2..end - 2]);
    BlockOf(src, pos, end, d);
  }

  lemma BlockOf(src: seq<int>, pos: nat, end: nat, d: Dialect)
    requires pos + 4 <= end <= |src| && d.comments && src[pos] == '/' as int && src[pos + 1] == '*' as int
    requires src[end - 2] == '*' as int && src[end - 1] == '/' as int && (forall i | pos + 2 <= i < end - 2 :: src[i] != 0)
    requires forall i | pos + 2 <= i < end - 2 && src[i] == '*' as int :: src[i + 1] != '/' as int
    ensures var b := Block(src[pos + 2..end - 2]); OkBlank(b, d) && Stands(src, pos, BlankText(b)) && |BlankText(b)| == end - pos
  {
    var body := src[pos + 2..end - 2];
    BodyIs(src, pos + 2, end - 2);
    hide Stands;
    StandsTwo(src, pos, '/' as int, '*' as int);
    StandsSlice(src, pos + 2, end - 2);
    StandsTwo(src, end - 2, '*' as int, '/' as int);
    StandsJoin(src, pos, ['/' as int, '*' as int], body);
    StandsJoin(src, pos, ['/' as int, '*' as int] + body, ['*' as int, '/' as int]);
  }

  lemma BodyIs(src: seq<int>, from: nat, to: nat)
    requires from <= to <= |src|
    ensures var body := src[from..to];
            && |body| == to - from && ((forall i | from <= i < to :: src[i] != 0) ==> 0 !in body)
            && ((forall i | from <= i < to :: src[i] != 0x0A) ==> 0x0A !in body)
            && ((forall i | from <= i < to && src[i] == '*' as int :: i + 1 < |src| && src[i + 1] != '/' as int) ==> ClosesOnce(body))
  {
    var body := src[from..to];
    assert forall i | 0 <= i < |body| :: body[i] == src[from + i];
  }

  lemma LineFirst(src: seq<int>, pos: nat, d: Dialect) returns (b: Blank)
    requires pos + 2 <= |src| && d.comments && src[pos] == '/' as int && src[pos + 1] == '/' as int
    requires var end := LineComment(src, pos + 2);
             pos + 2 < end <= |src| && src[end - 1] == 0x0A
    ensures OkBlank(b, d) && Stands(src, pos, BlankText(b)) && pos + |BlankText(b)| == LineComment(src, pos + 2)
  {
    hide LineComment, Stands, OkBlank;
    LineBody(src, pos + 2);
    var end := LineComment(src, pos + 2);
    b := Line(src[pos + 2..end - 1]);
    LineOf(src, pos, end, d);
  }

  lemma LineOf(src: seq<int>, pos: nat, end: nat, d: Dialect)
    requires pos + 3 <= end <= |src| && d.comments && src[pos] == '/' as int && src[pos + 1] == '/' as int && src[end - 1] == 0x0A
    requires forall i | pos + 2 <= i < end - 1 :: src[i] != 0 && src[i] != 0x0A
    ensures var b := Line(src[pos + 2..end - 1]); OkBlank(b, d) && Stands(src, pos, BlankText(b)) && |BlankText(b)| == end - pos
  {
    var body := src[pos + 2..end - 1];
    BodyIs(src, pos + 2, end - 1);
    assert src[end - 1..end] == [0x0A];
    hide Stands;
    StandsTwo(src, pos, '/' as int, '/' as int);
    StandsSlice(src, pos + 2, end - 1);
    StandsSlice(src, end - 1, end);
    StandsJoin(src, pos, ['/' as int, '/' as int], body);
    StandsJoin(src, pos, ['/' as int, '/' as int] + body, [0x0A]);
  }

  lemma OpenLast(src: seq<int>, pos: nat, end: nat, d: Dialect)
    requires pos + 2 <= |src| && src[pos] == '/' as int && src[pos + 1] == '/' as int
    requires end == LineComment(src, pos + 2) && !(pos + 2 < end && src[end - 1] == 0x0A)
    ensures pos + 2 <= end <= |src| && At(src, end) == 0
    ensures var open := Some(src[pos + 2..end]);
            && Stands(src, pos, OpenText(open)) && |OpenText(open)| == end - pos && 0 !in open.value && 0x0A !in open.value
    ensures OkBlanks([], d) && BlanksText([]) == [] && Stands(src, pos, []) && SkipFrom(src, d.comments, end) == Read((), end)
  {
    hide LineComment;
    LineBody(src, pos + 2);
    assert src[pos..end] == OpenText(Some(src[pos + 2..end]));
  }

  /** Where something follows, what was skipped is blanks. */
  lemma SkippedTo(env: Env, c: Cursor, d: Dialect) returns (bs: seq<Blank>)
    requires Parses(env, d) && c.pos <= |env.src| && Skip(env, c).Done? && Peek(env, Skip(env, c).at) != 0
    ensures OkBlanks(bs, d) && Stands(env.src, c.pos, BlanksText(bs)) && Skip(env, c).at.pos == c.pos + |BlanksText(bs)|
  {
    hide SkipFrom, Stands, OkBlanks, BlanksText;
    ParsesDialect(env, d);
    var open;
    bs, open := SkippedBlanks(env.src, c.pos, d);
  }

  /** ---- Scalars ---- */

  /** The tree t stands at c and is what `Value` reads there. */
  ghost predicate TreeAt(env: Env, c: Cursor, t: Tree, d: Dialect)
    requires Forward(env) && c.pos <= |env.src|
  {
    OkTree(t, d) && Stands(env.src, c.pos, TreeText(t)) && Value(env, c).Done? && Value(env, c).at.pos == c.pos + |TreeText(t)|
  }

  lemma StandsOne(src: seq<int>, pos: nat)
    requires pos < |src|
    ensures Stands(src, pos, [src[pos]])
  {
    assert src[pos..pos + 1] == [src[pos]];
  }

  lemma {:induction false} MatchedStands(src: seq<int>, pos: nat, word: string)
    requires pos <= |src| && Matched(src, pos, word) == |word|
    ensures pos + |word| <= |src| && forall i | 0 <= i < |word| :: src[pos + i] == word[i] as int
    decreases |word|
  {
    if word != "" {
      MatchedStands(src, pos + 1, word[1..]);
      forall i | 0 <= i < |word| ensures src[pos + i] == word[i] as int {
        if i > 0 {
          assert src[pos + 1 + (i - 1)] == word[1..][i - 1] as int;
        }
      }
    }
  }

  lemma WordStands(src: seq<int>, pos: nat, t: seq<int>, word: string)
    requires pos < |src| && |t| == |word| + 1 && src[pos] == t[0] && forall i | 0 <= i < |word| :: t[i + 1] == word[i] as int
    requires Matched(src, pos + 1, word) == |word|
    ensures Stands(src, pos, t)
  {
    MatchedStands(src, pos + 1, word);
    assert forall i | 0 < i < |t| :: src[pos + i] == src[pos + 1 + (i - 1)] == word[i - 1] as int == t[i];
    assert src[pos..pos + |t|] == t;
  }

  lemma WordAt(env: Env, c: Cursor, d: Dialect) returns (t: Tree)
    requires Recognizes(env, d) && c.pos <= |env.src| && Value(env, c).Done?
    requires Peek(env, c) == 'n' as int || Peek(env, c) == 't' as int || Peek(env, c) == 'f' as int
    ensures TreeAt(env, c, t, d)
  {
    hide Stands, Matched, Forward;
    WordDone(env, c);
    if Peek(env, c) == 'n' as int {
      t := NullTree;
      WordStands(env.src, c.pos, NULL_TEXT, "ull");
    } else if Peek(env, c) == 't' as int {
      t := TrueTree;
      WordStands(env.src, c.pos, TRUE_TEXT, "rue");
    } else {
      t := FalseTree;
      WordStands(env.src, c.pos, FALSE_TEXT, "alse");
    }
  }

  lemma WordDone(env: Env, c: Cursor)
    requires Forward(env) && c.pos <= |env.src| && Value(env, c).Done?
    ensures Peek(env, c) == 'n' as int ==> Matched(env.src, c.pos + 1, "ull") == 3 && Value(env, c).at.pos == c.pos + 4
    ensures Peek(env, c) == 't' as int ==> Matched(env.src, c.pos + 1, "rue") == 3 && Value(env, c).at.pos == c.pos + 4
    ensures Peek(env, c) == 'f' as int ==> Matched(env.src, c.pos + 1, "alse") == 4 && Value(env, c).at.pos == c.pos + 5
  {
    hide Matched, Forward, Object, Array, JsonGrammar.Text, Numeral;
  }

  /** The pieces of a string that is scanned. */
  lemma StringAt(env: Env, pos: nat, d: Dialect) returns (ps: seq<Piece>)
    requires Parses(env, d) && pos < |env.src| && env.src[pos] == '"' as int && env.scanString(pos).Read?
    ensures OkPieces(ps, d) && Stands(env.src, pos, StringText(ps)) && env.scanString(pos).end == pos + |StringText(ps)|
  {
    hide *;
    ScansString(env, pos, d);
    ps := DecodedPieces(env.src, pos + 1, d);
    StringStands(env.src, pos, ps);
  }

  lemma StringStands(src: seq<int>, pos: nat, ps: seq<Piece>)
    requires pos < |src| && src[pos] == '"' as int && Stands(src, pos + 1, PiecesText(ps)) && At(src, pos + 1 + |PiecesText(ps)|) == '"' as int
    ensures Stands(src, pos, StringText(ps)) && |StringText(ps)| == |PiecesText(ps)| + 2
  {
    hide Stands, PiecesText;
    StandsOne(src, pos);
    StandsOne(src, pos + 1 + |PiecesText(ps)|);
    StandsJoin(src, pos, ['"' as int], PiecesText(ps));
    StandsJoin(src, pos, ['"' as int] + PiecesText(ps), ['"' as int]);
  }

  lemma ScansString(env: Env, pos: nat, d: Dialect)
    requires Parses(env, d) && pos < |env.src|
    ensures IsByteString(env.src) && env.scanString(pos) == Decoded(env.src, pos + 1, d.apostrophe)
  {
    hide Decoded;
  }

  lemma StringValueAt(env: Env, c: Cursor, d: Dialect) returns (t: Tree)
    requires Recognizes(env, d) && c.pos <= |env.src| && Value(env, c).Done? && Peek(env, c) == '"' as int
    ensures TreeAt(env, c, t, d)
  {
    hide Stands, Parses, StringText, OkPieces, Value;
    ParsesDialect(env, d);
    StringDone(env, c);
    var ps := StringAt(env, c.pos, d);
    t := StringTree(ps);
  }

  lemma StringDone(env: Env, c: Cursor)
    requires Forward(env) && c.pos <= |env.src| && Value(env, c).Done? && Peek(env, c) == '"' as int
    ensures env.scanString(c.pos).Read? && Value(env, c).at.pos == env.scanString(c.pos).end
  {
    hide Forward, Object, Array, Literal, Numeral;
  }

  lemma NumberDone(env: Env, c: Cursor)
    requires Forward(env) && c.pos <= |env.src| && Value(env, c).Done?
    requires var ch := Peek(env, c); ch != '{' as int && ch != '[' as int && ch != '"' as int && ch != 'n' as int && ch != 't' as int && ch != 'f' as int
    ensures c.pos < |env.src| && env.scanNumber(c.pos).Read? && Value(env, c).at.pos == env.scanNumber(c.pos).end
  {
    hide Forward, Object, Array, Literal, JsonGrammar.Text;
  }

  /** The digits of an integer that is scanned. */
  lemma IntegerTree(src: seq<int>, pos: nat) returns (minus: bool, digits: Digits)
    requires pos <= |src| && IntegerAt(src, pos).Integral?
    ensures OkNumber(minus, digits) && Stands(src, pos, NumberText(minus, digits)) && IntegerAt(src, pos).end == pos + |NumberText(minus, digits)|
    ensures IntegerAt(src, pos) == IntegerEvent(minus, ValueOf(digits), IntegerAt(src, pos).end)
  {
    hide ValueOf, DigitsEnd;
    minus := src[pos] == '-' as int;
    var p, end := if minus then pos + 1 else pos, IntegerAt(src, pos).end;
    if src[p] == '0' as int {
      digits := ['0' as int];
      ZeroValue();
      StandsOne(src, p);
    } else {
      DigitsFirst(src, p);
      digits := src[p..end];
      assert digits[0] == src[p];
      StandsSlice(src, p, end);
    }
    StandsOne(src, pos);
    IntegerText(src, pos, minus, digits);
  }

  /** INTEGERS, EXACTLY: where no digit, point or exponent follows, an integer n is read up to `end` if and only if the
      number that stands there, without leading zeros and within 64 bits, is told as n; and no point or exponent ever
      follows an integer that is read. */
  lemma IntegersExactly(src: seq<int>, pos: nat, n: Number, end: nat)
    requires pos <= |src|
    ensures IntegerAt(src, pos) == Integral(n, end) && EndsNumber(At(src, end))
       <==> exists minus, digits :: NumberStands(src, pos, minus, digits, n, end)
    ensures IntegerAt(src, pos).Integral? ==>
              var c := At(src, IntegerAt(src, pos).end); c != '.' as int && c != 'e' as int && c != 'E' as int
  {
    hide ValueOf, DigitsEnd, IntegerAt, OkNumber, Stands, EndsNumber, NumberText, TokenEvent;
    if IntegerAt(src, pos) == Integral(n, end) && EndsNumber(At(src, end)) {
      var minus, digits := IntegerTree(src, pos);
      EventAt(minus, digits, end);
      assert NumberStands(src, pos, minus, digits, n, end);
    }
    if exists minus, digits :: NumberStands(src, pos, minus, digits, n, end) {
      var minus, digits :| NumberStands(src, pos, minus, digits, n, end);
      ReadInteger(src, pos, minus, digits);
      EventAt(minus, digits, end);
    }
    if IntegerAt(src, pos).Integral? {
      NothingContinues(src, pos);
    }
  }

  predicate NumberStands(src: seq<int>, pos: nat, minus: bool, digits: Digits, n: Number, end: nat) {
    && OkNumber(minus, digits) && Stands(src, pos, NumberText(minus, digits)) && end == pos + |NumberText(minus, digits)|
    && EndsNumber(At(src, end)) && n == TokenEvent(minus, digits)
  }

  lemma NothingContinues(src: seq<int>, pos: nat)
    requires pos <= |src| && IntegerAt(src, pos).Integral?
    ensures var c := At(src, IntegerAt(src, pos).end); c != '.' as int && c != 'e' as int && c != 'E' as int
  {
    hide ValueOf, DigitsEnd;
  }

  lemma DigitsFirst(src: seq<int>, pos: nat)
    requires pos <= |src| && IsDigit(At(src, pos))
    ensures pos < DigitsEnd(src, pos)
  {
  }

  lemma IntegerText(src: seq<int>, pos: nat, minus: bool, digits: Digits)
    requires pos < |src| && minus == (src[pos] == '-' as int) && Stands(src, pos, [src[pos]]) && Stands(src, if minus then pos + 1 else pos, digits)
    ensures Stands(src, pos, NumberText(minus, digits))
  {
    hide Stands;
    if minus {
      StandsJoin(src, pos, ['-' as int], digits);
    } else {
      assert [] + digits == digits;
    }
  }

  lemma NumberAt(env: Env, c: Cursor, d: Dialect) returns (t: Tree)
    requires Recognizes(env, d) && c.pos <= |env.src| && Value(env, c).Done?
    requires var ch := Peek(env, c); ch != '{' as int && ch != '[' as int && ch != '"' as int && ch != 'n' as int && ch != 't' as int && ch != 'f' as int
    ensures TreeAt(env, c, t, d)
  {
    NumberDone(env, c);
    hide Value, Stands, OkNumber, IntegerAt, NumberText;
    var minus, digits := IntegerTree(env.src, c.pos);
    t := NumberTree(minus, digits);
  }

  /** ---- Arrays and objects ---- */

  /** WHAT IS READ AS A VALUE IS THE TEXT OF ONE. */
  lemma {:induction false} ValueAt(env: Env, c: Cursor, d: Dialect) returns (t: Tree)
    requires Recognizes(env, d) && c.pos <= |env.src| && Value(env, c).Done?
    ensures TreeAt(env, c, t, d)
    decreases |env.src| - c.pos, 2
  {
    hide Recognizes, TreeAt, Value;
    RecognizesParses(env, d);
    var ch := Peek(env, c);
    if ch == '{' as int {
      t := ObjectAt(env, c, d);
    } else if ch == '[' as int {
      t := ArrayAt(env, c, d);
    } else if ch == '"' as int {
      t := StringValueAt(env, c, d);
    } else if ch == 'n' as int || ch == 't' as int || ch == 'f' as int {
      t := WordAt(env, c, d);
    } else {
      t := NumberAt(env, c, d);
    }
  }

  lemma RecognizesParses(env: Env, d: Dialect)
    requires Recognizes(env, d)
    ensures Parses(env, d) && Forward(env) && (forall es :: env.accepts(es)) && env.comments == d.comments && env.trailingCommas == d.trailingCommas
  {
  }

  /** An opening bracket is read: the cursor at the contents. */
  lemma OpenAt(env: Env, c: Cursor, e: Event)
    requires Forward(env) && c.pos < |env.src| && forall es :: env.accepts(es)
    ensures var s := Skip(env, Cursor(c.pos + 1, c.events + [e]));
            s.Done? ==> s.at.pos <= |env.src|
    ensures var s := Skip(env, Cursor(c.pos + 1, c.events + [StartArray]));
            Peek(env, c) == '[' as int ==> Value(env, c) == if s.Done? then ArrayBody(env, s.at) else s
    ensures var s := Skip(env, Cursor(c.pos + 1, c.events + [StartObject]));
            Peek(env, c) == '{' as int ==> Value(env, c) == if s.Done? then ObjectBody(env, s.at) else s
  {
    hide Skip, ArrayBody, ObjectBody, Value, Forward;
    ValueKind(env, c);
    assert forall e :: Emit(env, Take(env, c), e, c.pos + 1) == Done(Cursor(c.pos + 1, c.events + [e]));
  }

  lemma EnclosedStands(src: seq<int>, pos: nat, t: seq<int>)
    requires pos < |src| && Stands(src, pos + 1, t) && pos + 1 + |t| < |src|
    ensures Stands(src, pos, [src[pos]] + t + [src[pos + 1 + |t|]])
  {
    hide Stands;
    StandsOne(src, pos);
    StandsOne(src, pos + 1 + |t|);
    StandsJoin(src, pos, [src[pos]], t);
    StandsJoin(src, pos, [src[pos]] + t, [src[pos + 1 + |t|]]);
  }

  lemma {:induction false} ArrayAt(env: Env, c: Cursor, d: Dialect) returns (t: Tree)
    requires Recognizes(env, d) && c.pos <= |env.src| && Value(env, c).Done? && Peek(env, c) == '[' as int
    ensures TreeAt(env, c, t, d)
    decreases |env.src| - c.pos, 1
  {
    hide Recognizes, Value, Skip, ArrayBody, Elements, Stands, BlanksText, OkBlanks, ElementText, OkMoreElements, OkTree;
    RecognizesParses(env, d);
    OpenAt(env, c, StartArray);
    var c1 := Cursor(c.pos + 1, c.events + [StartArray]);
    var c2 := Skip(env, c1).at;
    ArrayBodyCases(env, c2);
    var before := SkippedTo(env, c1, d);
    if Peek(env, c2) == ']' as int {
      t := EmptyArray(before);
      EnclosedStands(env.src, c.pos, BlanksText(before));
      EmptyArrayOk(t, d);
    } else {
      var es := ElementsAt(env, c2, 0, before, d);
      t := ArrayTree(es);
      StandsJoin(env.src, c1.pos, BlanksText(before), ElementText(es));
      EnclosedStands(env.src, c.pos, ElementsText(es));
      ArrayOk(t, d);
    }
  }

  lemma EmptyArrayOk(t: Tree, d: Dialect)
    ensures t.EmptyArray? ==> (OkTree(t, d) <==> OkBlanks(t.within, d)) && TreeText(t) == ['[' as int] + BlanksText(t.within) + [']' as int]
    ensures t.EmptyObject? ==> (OkTree(t, d) <==> OkBlanks(t.within, d)) && TreeText(t) == ['{' as int] + BlanksText(t.within) + ['}' as int]
  {
    hide BlanksText, OkBlanks;
  }

  lemma ArrayOk(t: Tree, d: Dialect)
    ensures t.ArrayTree? ==> (OkTree(t, d) <==> OkElements(t.elements, d)) && TreeText(t) == ['[' as int] + ElementsText(t.elements) + [']' as int]
    ensures t.ObjectTree? ==> (OkTree(t, d) <==> OkMembers(t.members, d)) && TreeText(t) == ['{' as int] + MembersText(t.members) + ['}' as int]
  {
    hide ElementsText, OkElements, MembersText, OkMembers;
  }

  lemma ArrayBodyCases(env: Env, c: Cursor)
    requires Forward(env) && c.pos <= |env.src| && ArrayBody(env, c).Done?
    ensures Peek(env, c) == ']' as int ==> c.pos < |env.src| && ArrayBody(env, c).at.pos == c.pos + 1
    ensures Peek(env, c) != ']' as int ==> ArrayBody(env, c) == Elements(env, c, 0) && Peek(env, c) != 0
  {
    hide Forward, Skip, Object, Array, Literal, JsonGrammar.Text, AfterElement;
  }

  /** The rest of an array from an element on: it stands there, and a closing bracket after it. */
  lemma {:induction false} ElementsAt(env: Env, c: Cursor, n: nat, before: seq<Blank>, d: Dialect) returns (es: ElementList)
    requires Recognizes(env, d) && c.pos <= |env.src| && Elements(env, c, n).Done? && OkBlanks(before, d)
    ensures OkElements(es, d) && es.before == before && Stands(env.src, c.pos, ElementText(es))
    ensures var p := c.pos + |ElementText(es)|; p < |env.src| && env.src[p] == ']' as int && Elements(env, c, n).at.pos == p + 1
    decreases |env.src| - c.pos, 3
  {
    hide Recognizes, Value, Skip, Elements, AfterElement, Stands, BlanksText, OkBlanks, TreeText, MoreElementsText, OkMoreElements, OkTree;
    RecognizesParses(env, d);
    ElementsCases(env, c, n);
    var t := ValueAt(env, c, d);
    var c1 := Value(env, c).at;
    var c2 := Skip(env, c1).at;
    AfterElementCases(env, c2, n + 1);
    var after := SkippedTo(env, c1, d);
    var more := MoreElementsAt(env, c2, n + 1, d);
    es := ElementList(before, t, after, more);
    StandsJoin(env.src, c.pos, TreeText(t), BlanksText(after));
    StandsJoin(env.src, c.pos, TreeText(t) + BlanksText(after), MoreElementsText(more));
  }

  lemma ElementsCases(env: Env, c: Cursor, n: nat)
    requires Forward(env) && c.pos <= |env.src| && Elements(env, c, n).Done?
    ensures Value(env, c).Done? && c.pos < Value(env, c).at.pos <= |env.src| && Skip(env, Value(env, c).at).Done?
    ensures var c2 := Skip(env, Value(env, c).at).at; c.pos < c2.pos <= |env.src| && Elements(env, c, n) == AfterElement(env, c2, n + 1)
  {
    hide Value, Skip, AfterElement;
  }

  lemma AfterElementCases(env: Env, c: Cursor, n: nat)
    requires Forward(env) && c.pos <= |env.src| && AfterElement(env, c, n).Done?
    ensures c.pos < |env.src| && (env.src[c.pos] == ',' as int || env.src[c.pos] == ']' as int)
    ensures env.src[c.pos] == ']' as int ==> AfterElement(env, c, n).at.pos == c.pos + 1
    ensures env.src[c.pos] == ',' as int ==>
              var s := Skip(env, Cursor(c.pos + 1, c.events));
              s.Done? && c.pos < s.at.pos <= |env.src| && AfterElement(env, c, n) == ElementsOrEnd(env, s.at, n)
  {
    hide Skip, ElementsOrEnd;
  }

  lemma ElementsOrEndCases(env: Env, c: Cursor, n: nat)
    requires Forward(env) && c.pos <= |env.src| && ElementsOrEnd(env, c, n).Done?
    ensures env.trailingCommas && Peek(env, c) == ']' as int ==> c.pos < |env.src| && ElementsOrEnd(env, c, n).at.pos == c.pos + 1
    ensures !(env.trailingCommas && Peek(env, c) == ']' as int) ==> ElementsOrEnd(env, c, n) == Elements(env, c, n) && Peek(env, c) != 0
  {
    hide Forward, Skip, Object, Array, Literal, JsonGrammar.Text, AfterElement;
  }

  /** The ends of lists, and what continues them. */
  lemma NoCommaStands(src: seq<int>, pos: nat, d: Dialect)
    requires pos <= |src|
    ensures Stands(src, pos, MoreElementsText(NoElements(None))) && |MoreElementsText(NoElements(None))| == 0
    ensures Stands(src, pos, MoreMembersText(NoMembers(None))) && |MoreMembersText(NoMembers(None))| == 0
    ensures OkMoreElements(NoElements(None), d) && OkMoreMembers(NoMembers(None), d)
  {
  }

  lemma CommaStands(src: seq<int>, pos: nat, bs: seq<Blank>, d: Dialect)
    requires pos < |src| && src[pos] == ',' as int && Stands(src, pos + 1, BlanksText(bs)) && OkBlanks(bs, d) && d.trailingCommas
    ensures Stands(src, pos, MoreElementsText(NoElements(Some(bs)))) && |MoreElementsText(NoElements(Some(bs)))| == 1 + |BlanksText(bs)|
    ensures Stands(src, pos, MoreMembersText(NoMembers(Some(bs)))) && |MoreMembersText(NoMembers(Some(bs)))| == 1 + |BlanksText(bs)|
    ensures OkMoreElements(NoElements(Some(bs)), d) && OkMoreMembers(NoMembers(Some(bs)), d)
  {
    hide Stands, BlanksText, OkBlanks;
    StandsOne(src, pos);
    StandsJoin(src, pos, [',' as int], BlanksText(bs));
  }

  lemma NextElementsStand(src: seq<int>, pos: nat, rest: ElementList, d: Dialect)
    requires pos < |src| && src[pos] == ',' as int && OkElements(rest, d) && Stands(src, pos + 1, BlanksText(rest.before))
    requires Stands(src, pos + 1 + |BlanksText(rest.before)|, ElementText(rest))
    ensures var more := NextElements(rest);
            && OkMoreElements(more, d) && Stands(src, pos, MoreElementsText(more))
            && |MoreElementsText(more)| == 1 + |BlanksText(rest.before)| + |ElementText(rest)|
  {
    hide Stands, BlanksText, OkElements, ElementText;
    StandsOne(src, pos);
    StandsJoin(src, pos + 1, BlanksText(rest.before), ElementText(rest));
    StandsJoin(src, pos, [',' as int], ElementsText(rest));
  }

  lemma NextMembersStand(src: seq<int>, pos: nat, rest: MemberList, d: Dialect)
    requires pos < |src| && src[pos] == ',' as int && OkMembers(rest, d) && Stands(src, pos + 1, BlanksText(rest.before))
    requires Stands(src, pos + 1 + |BlanksText(rest.before)|, MemberText(rest))
    ensures var more := NextMembers(rest);
            && OkMoreMembers(more, d) && Stands(src, pos, MoreMembersText(more))
            && |MoreMembersText(more)| == 1 + |BlanksText(rest.before)| + |MemberText(rest)|
  {
    hide Stands, BlanksText, OkMembers, MemberText;
    StandsOne(src, pos);
    StandsJoin(src, pos + 1, BlanksText(rest.before), MemberText(rest));
    StandsJoin(src, pos, [',' as int], MembersText(rest));
  }

  lemma {:induction false} MoreElementsAt(env: Env, c: Cursor, n: nat, d: Dialect) returns (more: MoreElements)
    requires Recognizes(env, d) && c.pos <= |env.src| && AfterElement(env, c, n).Done?
    ensures OkMoreElements(more, d) && Stands(env.src, c.pos, MoreElementsText(more))
    ensures var p := c.pos + |MoreElementsText(more)|; p < |env.src| && env.src[p] == ']' as int && AfterElement(env, c, n).at.pos == p + 1
    decreases |env.src| - c.pos, 4
  {
    hide Recognizes, Skip, Elements, AfterElement, ElementsOrEnd, Stands, BlanksText, OkBlanks, ElementText, OkElements, MoreElementsText, OkMoreElements;
    RecognizesParses(env, d);
    AfterElementCases(env, c, n);
    if env.src[c.pos] == ']' as int {
      more := NoElements(None);
      NoCommaStands(env.src, c.pos, d);
    } else {
      var c1 := Cursor(c.pos + 1, c.events);
      var c2 := Skip(env, c1).at;
      ElementsOrEndCases(env, c2, n);
      var bs := SkippedTo(env, c1, d);
      if env.trailingCommas && Peek(env, c2) == ']' as int {
        more := NoElements(Some(bs));
        CommaStands(env.src, c.pos, bs, d);
      } else {
        var rest := ElementsAt(env, c2, n, bs, d);
        more := NextElements(rest);
        NextElementsStand(env.src, c.pos, rest, d);
      }
    }
  }

  lemma {:induction false} ObjectAt(env: Env, c: Cursor, d: Dialect) returns (t: Tree)
    requires Recognizes(env, d) && c.pos <= |env.src| && Value(env, c).Done? && Peek(env, c) == '{' as int
    ensures TreeAt(env, c, t, d)
    decreases |env.src| - c.pos, 1
  {
    hide Recognizes, Value, Skip, ObjectBody, Members, Stands, BlanksText, OkBlanks, MemberText, OkMoreMembers, OkTree, OkPieces;
    RecognizesParses(env, d);
    OpenAt(env, c, StartObject);
    var c1 := Cursor(c.pos + 1, c.events + [StartObject]);
    var c2 := Skip(env, c1).at;
    ObjectBodyCases(env, c2);
    var before := SkippedTo(env, c1, d);
    if Peek(env, c2) == '}' as int {
      t := EmptyObject(before);
      EnclosedStands(env.src, c.pos, BlanksText(before));
      EmptyArrayOk(t, d);
    } else {
      var ms := MembersAt(env, c2, 0, before, d);
      t := ObjectTree(ms);
      StandsJoin(env.src, c1.pos, BlanksText(before), MemberText(ms));
      EnclosedStands(env.src, c.pos, MembersText(ms));
      ArrayOk(t, d);
    }
  }

  lemma ObjectBodyCases(env: Env, c: Cursor)
    requires Forward(env) && c.pos <= |env.src| && ObjectBody(env, c).Done?
    ensures Peek(env, c) == '}' as int ==> c.pos < |env.src| && ObjectBody(env, c).at.pos == c.pos + 1
    ensures Peek(env, c) != '}' as int ==> ObjectBody(env, c) == Members(env, c, 0) && Peek(env, c) != 0
  {
    hide Forward, Skip, JsonGrammar.Text, AfterKey;
  }

  /** The rest of an object from a name on. */
  lemma {:induction false} MembersAt(env: Env, c: Cursor, n: nat, before: seq<Blank>, d: Dialect) returns (ms: MemberList)
    requires Recognizes(env, d) && c.pos <= |env.src| && Members(env, c, n).Done? && OkBlanks(before, d)
    ensures OkMembers(ms, d) && ms.before == before && Stands(env.src, c.pos, MemberText(ms))
    ensures var p := c.pos + |MemberText(ms)|; p < |env.src| && env.src[p] == '}' as int && Members(env, c, n).at.pos == p + 1
    decreases |env.src| - c.pos, 3
  {
    hide Recognizes, Value, Skip, Members, AfterKey, AfterColon, AfterMember, Stands, BlanksText, OkBlanks, TreeText, MoreMembersText, OkMoreMembers, OkTree, OkPieces, StringText, MemberText, MemberValueText, JsonGrammar.Text;
    RecognizesParses(env, d);
    MembersCases(env, c, n);
    var name := StringAt(env, c.pos, d);
    var c1 := JsonGrammar.Text(env, c, true).at;
    var c2 := Skip(env, c1).at;
    AfterKeyCases(env, c2, n);
    var afterName := SkippedTo(env, c1, d);
    var c3 := Cursor(c2.pos + 1, c2.events);
    var c4 := Skip(env, c3).at;
    AfterColonCases(env, c4, n);
    ValueStarts(env, c4);
    var beforeValue := SkippedTo(env, c3, d);
    var t := ValueAt(env, c4, d);
    var c5 := Value(env, c4).at;
    var c6 := Skip(env, c5).at;
    AfterMemberCases(env, c6, n + 1);
    var after := SkippedTo(env, c5, d);
    var more := MoreMembersAt(env, c6, n + 1, d);
    ms := MemberList(before, name, afterName, beforeValue, t, after, more);
    MemberStands(env.src, c.pos, ms);
  }

  lemma MemberStands(src: seq<int>, pos: nat, ms: MemberList)
    requires var p := pos + |StringText(ms.name)|; var q := p + |BlanksText(ms.afterName)|; var r := q + 1 + |BlanksText(ms.beforeValue)|;
             var s := r + |TreeText(ms.value)|;
             && Stands(src, pos, StringText(ms.name)) && Stands(src, p, BlanksText(ms.afterName)) && q < |src| && src[q] == ':' as int
             && Stands(src, q + 1, BlanksText(ms.beforeValue)) && Stands(src, r, TreeText(ms.value)) && Stands(src, s, BlanksText(ms.after))
             && Stands(src, s + |BlanksText(ms.after)|, MoreMembersText(ms.more))
    ensures Stands(src, pos, MemberText(ms))
    ensures |MemberText(ms)| == |StringText(ms.name)| + |BlanksText(ms.afterName)| + 1 + |BlanksText(ms.beforeValue)|
                                + |TreeText(ms.value)| + |BlanksText(ms.after)| + |MoreMembersText(ms.more)|
  {
    hide Stands, BlanksText, TreeText, MoreMembersText, StringText;
    var p := pos + |StringText(ms.name)|;
    var q := p + |BlanksText(ms.afterName)|;
    var r := q + 1 + |BlanksText(ms.beforeValue)|;
    StandsJoin(src, r, TreeText(ms.value), BlanksText(ms.after));
    StandsJoin(src, r, TreeText(ms.value) + BlanksText(ms.after), MoreMembersText(ms.more));
    StandsOne(src, q);
    StandsJoin(src, q, [':' as int], BlanksText(ms.beforeValue));
    StandsJoin(src, q, [':' as int] + BlanksText(ms.beforeValue), MemberValueText(ms));
    StandsJoin(src, pos, StringText(ms.name), BlanksText(ms.afterName));
    StandsJoin(src, pos, StringText(ms.name) + BlanksText(ms.afterName), [':' as int] + BlanksText(ms.beforeValue) + MemberValueText(ms));
  }

  lemma ValueStarts(env: Env, c: Cursor)
    requires Forward(env) && c.pos <= |env.src| && Value(env, c).Done?
    ensures Peek(env, c) != 0
  {
    hide Forward, Object, Array, Literal, JsonGrammar.Text;
  }

  lemma MembersCases(env: Env, c: Cursor, n: nat)
    requires Forward(env) && c.pos <= |env.src| && Members(env, c, n).Done?
    ensures c.pos < |env.src| && env.src[c.pos] == '"' as int && env.scanString(c.pos).Read?
    ensures var s := JsonGrammar.Text(env, c, true);
            && s.Done? && s.at.pos == env.scanString(c.pos).end && c.pos < s.at.pos <= |env.src| && Skip(env, s.at).Done?
            && s.at.pos <= Skip(env, s.at).at.pos <= |env.src| && Members(env, c, n) == AfterKey(env, Skip(env, s.at).at, n)
  {
    hide Skip, AfterKey;
  }

  lemma AfterKeyCases(env: Env, c: Cursor, n: nat)
    requires Forward(env) && c.pos <= |env.src| && AfterKey(env, c, n).Done?
    ensures c.pos < |env.src| && env.src[c.pos] == ':' as int
    ensures var s := Skip(env, Cursor(c.pos + 1, c.events));
            s.Done? && c.pos < s.at.pos <= |env.src| && AfterKey(env, c, n) == AfterColon(env, s.at, n)
  {
    hide Skip, AfterColon;
  }

  lemma AfterColonCases(env: Env, c: Cursor, n: nat)
    requires Forward(env) && c.pos <= |env.src| && AfterColon(env, c, n).Done?
    ensures Value(env, c).Done? && c.pos < Value(env, c).at.pos <= |env.src| && Skip(env, Value(env, c).at).Done?
    ensures var c2 := Skip(env, Value(env, c).at).at; c.pos < c2.pos <= |env.src| && AfterColon(env, c, n) == AfterMember(env, c2, n + 1)
  {
    hide Value, Skip, AfterMember;
  }

  lemma AfterMemberCases(env: Env, c: Cursor, n: nat)
    requires Forward(env) && c.pos <= |env.src| && AfterMember(env, c, n).Done?
    ensures c.pos < |env.src| && (env.src[c.pos] == ',' as int || env.src[c.pos] == '}' as int)
    ensures env.src[c.pos] == '}' as int ==> AfterMember(env, c, n).at.pos == c.pos + 1
    ensures env.src[c.pos] == ',' as int ==>
              var s := Skip(env, Cursor(c.pos + 1, c.events));
              s.Done? && c.pos < s.at.pos <= |env.src| && AfterMember(env, c, n) == MembersOrEnd(env, s.at, n)
  {
    hide Skip, MembersOrEnd;
  }

  lemma MembersOrEndCases(env: Env, c: Cursor, n: nat)
    requires Forward(env) && c.pos <= |env.src| && MembersOrEnd(env, c, n).Done?
    ensures env.trailingCommas && Peek(env, c) == '}' as int ==> c.pos < |env.src| && MembersOrEnd(env, c, n).at.pos == c.pos + 1
    ensures !(env.trailingCommas && Peek(env, c) == '}' as int) ==> MembersOrEnd(env, c, n) == Members(env, c, n) && Peek(env, c) != 0
  {
    hide Forward, Skip, JsonGrammar.Text, AfterKey;
  }

  lemma {:induction false} MoreMembersAt(env: Env, c: Cursor, n: nat, d: Dialect) returns (more: MoreMembers)
    requires Recognizes(env, d) && c.pos <= |env.src| && AfterMember(env, c, n).Done?
    ensures OkMoreMembers(more, d) && Stands(env.src, c.pos, MoreMembersText(more))
    ensures var p := c.pos + |MoreMembersText(more)|; p < |env.src| && env.src[p] == '}' as int && AfterMember(env, c, n).at.pos == p + 1
    decreases |env.src| - c.pos, 4
  {
    hide Recognizes, Skip, Members, AfterMember, MembersOrEnd, Stands, BlanksText, OkBlanks, MemberText, OkMembers, MoreMembersText, OkMoreMembers;
    RecognizesParses(env, d);
    AfterMemberCases(env, c, n);
    if env.src[c.pos] == '}' as int {
      more := NoMembers(None);
      NoCommaStands(env.src, c.pos, d);
    } else {
      var c1 := Cursor(c.pos + 1, c.events);
      var c2 := Skip(env, c1).at;
      MembersOrEndCases(env, c2, n);
      var bs := SkippedTo(env, c1, d);
      if env.trailingCommas && Peek(env, c2) == '}' as int {
        more := NoMembers(Some(bs));
        CommaStands(env.src, c.pos, bs, d);
      } else {
        var rest := MembersAt(env, c2, n, bs, d);
        more := NextMembers(rest);
        NextMembersStand(env.src, c.pos, rest, d);
      }
    }
  }

  /** ---- Documents ---- */

  /** WHAT IS ACCEPTED IS A JSON TEXT, from the start of the input to where the parse ends: at the end of the input or at a
      zero. */
  lemma DocumentIsText(env: Env, d: Dialect) returns (x: JsonText)
    requires Recognizes(env, d) && !env.stopWhenDone && Document(env).Done?
    ensures OkJsonText(x, d) && Stands(env.src, 0, WholeText(x)) && At(env.src, |WholeText(x)|) == 0
  {
    hide Recognizes, Value, Skip, SkipFrom, Document, Stands, BlanksText, OkBlanks, OkTree, TreeText, OpenText;
    RecognizesParses(env, d);
    DocumentCases(env);
    var c0 := Cursor(0, []);
    var c := Skip(env, c0).at;
    ValueStarts(env, c);
    var before := SkippedTo(env, c0, d);
    var root := ValueAt(env, c, d);
    var after, open := SkippedBlanks(env.src, Value(env, c).at.pos, d);
    x := JsonText(before, root, after, open);
    StandsJoin(env.src, 0, BlanksText(before), TreeText(root));
    StandsJoin(env.src, 0, BlanksText(before) + TreeText(root), BlanksText(after));
    StandsJoin(env.src, 0, BlanksText(before) + TreeText(root) + BlanksText(after), OpenText(open));
  }

  lemma DocumentCases(env: Env)
    requires Forward(env) && !env.stopWhenDone && Document(env).Done?
    ensures var s := Skip(env, Cursor(0, []));
            && s.Done? && s.at.pos <= |env.src| && Value(env, s.at).Done?
            && SkipFrom(env.src, env.comments, Value(env, s.at).at.pos).Read?
            && At(env.src, SkipFrom(env.src, env.comments, Value(env, s.at).at.pos).end) == 0
  {
    hide Value, SkipFrom;
  }

  /** EXACTLY THE JSON TEXTS. Without kParseStopWhenDoneFlag, an input without zeros is accepted if and only if it is a
      JSON text; then it has one meaning, and the events build it. */
  lemma AcceptsExactly(env: Env, d: Dialect)
    requires Recognizes(env, d) && !env.stopWhenDone && 0 !in env.src
    ensures Forward(env)
    ensures Document(env).Done? <==> exists v :: IsTextOf(env.src, v, d)
    ensures forall v :: IsTextOf(env.src, v, d) ==>
              Document(env).Done? && Document(env).at.pos == |env.src| && HandleAll([], Document(env).at.events) == Stack([v])
  {
    hide Recognizes, Document, HandleAll, IsTextOf, Parses;
    RecognizesParses(env, d);
    if Document(env).Done? {
      var x := DocumentIsText(env, d);
      WholeInput(env.src, x, d);
    }
    forall v | IsTextOf(env.src, v, d)
      ensures Document(env).Done? && Document(env).at.pos == |env.src| && HandleAll([], Document(env).at.events) == Stack([v])
    {
      TextAccepted(env, v, d);
    }
  }

  lemma WholeInput(src: seq<int>, x: JsonText, d: Dialect)
    requires OkJsonText(x, d) && Stands(src, 0, WholeText(x)) && At(src, |WholeText(x)|) == 0 && 0 !in src
    ensures IsTextOf(src, Meaning(x.root, d), d)
  {
    hide WholeText, OkJsonText, Meaning;
    assert src[0..|src|] == src;
  }

  /** A text for v is accepted to its end, and its events build v. */
  lemma TextAccepted(env: Env, v: GenericValue, d: Dialect)
    requires Parses(env, d) && IsTextOf(env.src, v, d)
    ensures Forward(env) && Document(env).Done? && HandleAll([], Document(env).at.events) == Stack([v])
    ensures !env.stopWhenDone ==> Document(env).at.pos == |env.src|
  {
    hide WholeText, OkTree, Document, HandleAll, Parses, TreeEvents, Meaning, OkBlanks;
    var x :| OkJsonText(x, d) && WholeText(x) == env.src && Meaning(x.root, d) == v;
    assert env.src[0..|env.src|] == env.src;
    ReadText(env, x, d);
    TreeMakes(x.root, d);
    MadeAlone(TreeEvents(x.root, d), v);
  }

  /** What has a text is a value. */
  lemma TextIsValue(t: seq<int>, v: GenericValue, d: Dialect)
    requires IsTextOf(t, v, d)
    ensures Valid(v)
  {
    hide WholeText, OkTree, Meaning, OkBlanks;
    var x :| OkJsonText(x, d) && WholeText(x) == t && Meaning(x.root, d) == v;
    MeaningValid(x.root, d);
  }

  lemma MadeAlone(es: seq<Event>, v: GenericValue)
    requires JsonBuilding.Makes(es, [v])
    ensures HandleAll([], es) == Stack([v])
  {
    hide HandleAll;
    assert [] + [v] == [v];
  }
}
