/** From a pattern to an answer: the engine of internal/regex.h decides the documented language. */
module RegexEngine {
  import opened Decimals
  import opened RegexLanguage
  import opened RegexFragments
  import opened RegexAcceptance
  import opened RegexTermination
  import opened RegexParser
  import opened RegexSyntax
  import opened RegexMeaning
  import opened RegexReading
  import opened RegexSimulation
  import opened Regex
  import opened RegexSearching

  lemma PlainClassChar(ch: RegexSyntax.ClassChar)
    requires OkClassChar(ch)
    ensures PatternText(PrintClassChar(ch))
  {
    PlainEscape();
  }

  /** Letters of the escape table are plain code points. */
  lemma PlainEscape()
    ensures forall letter :: IsEscape(letter) ==> 0 < letter < NEGATION_FLAG
  {
  }

  lemma {:induction false} PlainItems(items: seq<ClassItem>, afterOne: bool)
    requires OkItems(items, afterOne)
    ensures PatternText(PrintItems(items))
  {
    if items != [] {
      PlainItems(items[1..], items[0].One?);
      match items[0]
      case One(ch) => PlainClassChar(ch);
      case Span(lo, hi) =>
        PlainClassChar(lo);
        PlainClassChar(hi);
    }
  }

  lemma PlainDecimal(n: nat)
    ensures PatternText(Decimal(n))
  {
    hide Decimal;
  }

  lemma PlainQuantifier(q: Quantifier)
    ensures PatternText(PrintQuantifier(q))
  {
    match q
    case Exactly(n) => PlainDecimal(n);
    case AtLeast(n) => PlainDecimal(n);
    case Between(n, m) =>
      PlainDecimal(n);
      PlainDecimal(m);
    case _ =>
  }

  lemma {:induction false} PlainPrint(p: Pattern)
    requires WellFormed(p)
    ensures PatternText(Print(p))
  {
    hide PrintQuantifier, PrintItems;
    match p
    case Literal(ch) => PlainEscape();
    case Dot =>
    case Bracket(negated, items, dash) => PlainItems(items, false);
    case Group(r) => PlainPrint(r);
    case Quantified(r, q) =>
      PlainPrint(r);
      PlainQuantifier(q);
    case Sequence(r, s) =>
      PlainPrint(r);
      PlainPrint(s);
    case Choice(r, s) =>
      PlainPrint(r);
      PlainPrint(s);
  }

  /** THE ENGINE IS CORRECT. For every well-formed pattern without an unbounded quantifier over something that matches
      the empty text, compiling it and matching a text tells whether the pattern denotes the text. */
  method MatchPattern(p: Pattern, begin: bool, end: bool, text: seq<int>) returns (r: bool)
    requires WellFormed(p) && NoEmptyLoop(p) && Text(text)
    ensures r <==> Denotes(p, text)
  {
    hide *;
    var search := Compile(p, begin, end);
    r := search.Match(text);
    CoreMeaning(p, text);
  }

  /** `Search` reports a part of the text, non-empty unless the text is, that the pattern denotes; with `^` and `$`
      it must lie at the start and the end. */
  method SearchPattern(p: Pattern, begin: bool, end: bool, text: seq<int>) returns (r: bool)
    requires WellFormed(p) && NoEmptyLoop(p) && Text(text)
    ensures r <==> SearchAnswer(p, text, begin, end)
  {
    hide *;
    var search := Compile(p, begin, end);
    r := search.Search(text);
    ReportedDenoted(p, text, begin, end);
  }

  ghost predicate PartDenoted(p: Pattern, w: seq<int>, i: int, j: int, ab: bool, ae: bool)
    requires WellFormed(p)
  {
    0 <= i <= j <= |w| && (ab ==> i == 0) && (ae ==> j == |w|) && Denotes(p, w[i..j])
  }

  ghost predicate SearchAnswer(p: Pattern, w: seq<int>, ab: bool, ae: bool)
    requires WellFormed(p)
  {
    if w == [] then Denotes(p, []) else exists i, j | i < j :: PartDenoted(p, w, i, j, ab, ae)
  }

  ghost predicate SomePartDenoted(p: Pattern, w: seq<int>, ab: bool, ae: bool)
    requires WellFormed(p)
  {
    exists i, j :: PartDenoted(p, w, i, j, ab, ae)
  }

  lemma ReportedDenoted(p: Pattern, w: seq<int>, ab: bool, ae: bool)
    requires WellFormed(p)
    ensures Reported(Core(p), w, ab, ae) <==> SearchAnswer(p, w, ab, ae)
    ensures SomePart(Core(p), w, ab, ae) <==> SomePartDenoted(p, w, ab, ae)
  {
    hide WellFormed, Denotes, In, Core;
    CoreMeaning(p, []);
    forall i, j ensures PartMatches(Core(p), w, i, j, ab, ae) <==> PartDenoted(p, w, i, j, ab, ae) {
      if 0 <= i <= j <= |w| {
        CoreMeaning(p, w[i..j]);
      }
    }
  }

  /** So `Search` tells whether the pattern denotes some part of the text, for every text, exactly when the pattern is
      anchored at both ends, or does not denote the empty text, or denotes every text of one character. */
  lemma SearchRightIff(p: Pattern, ab: bool, ae: bool)
    requires WellFormed(p)
    ensures (forall w | Text(w) :: SearchAnswer(p, w, ab, ae) <==> SomePartDenoted(p, w, ab, ae))
       <==> ((ab && ae) || !Denotes(p, []) || forall c | 0 < c < RANGE_CHARACTER :: Denotes(p, [c]))
  {
    hide *;
    RegexSimulation.SearchRightIff(Core(p), ab, ae);
    forall w | Text(w) ensures Reported(Core(p), w, ab, ae) <==> SearchAnswer(p, w, ab, ae) {
      ReportedDenoted(p, w, ab, ae);
    }
    forall w | Text(w) ensures SomePart(Core(p), w, ab, ae) <==> SomePartDenoted(p, w, ab, ae) {
      ReportedDenoted(p, w, ab, ae);
    }
    assert (forall w | Text(w) :: SearchAnswer(p, w, ab, ae) <==> SomePartDenoted(p, w, ab, ae))
      <==> forall w | Text(w) :: Reported(Core(p), w, ab, ae) <==> SomePart(Core(p), w, ab, ae);
    NullableCorrect(Core(p));
    CoreMeaning(p, []);
    CharactersDenoted(p);
  }

  lemma CharactersDenoted(p: Pattern)
    requires WellFormed(p)
    ensures (forall c | 0 < c < RANGE_CHARACTER :: HasCharacter(Core(p), c)) <==> forall c | 0 < c < RANGE_CHARACTER :: Denotes(p, [c])
  {
    hide HasCharacter, Core, Denotes, WellFormed;
    if forall c | 0 < c < RANGE_CHARACTER :: HasCharacter(Core(p), c) {
      forall c | 0 < c < RANGE_CHARACTER ensures Denotes(p, [c]) {
        CharacterCorrect(Core(p), c);
        CoreMeaning(p, [c]);
      }
    } else {
      var c :| 0 < c < RANGE_CHARACTER && !HasCharacter(Core(p), c);
      CharacterCorrect(Core(p), c);
      CoreMeaning(p, [c]);
    }
  }

  /** The engine for a printed pattern. */
  method Compile(p: Pattern, begin: bool, end: bool) returns (search: GenericRegexSearch)
    requires WellFormed(p) && NoEmptyLoop(p)
    ensures fresh(search) && fresh(search.stateSet) && search.Ready()
    ensures search.regex.expression == Core(p) && search.regex.anchorBegin == begin && search.regex.anchorEnd == end
  {
    hide WellFormed, NoEmptyLoop, Core, Print, ParsePattern, Compiled, Safe, Start;
    ParsePrinted(p, begin, end);
    PlainPrint(p);
    PlainAnchored(p, begin, end);
    CoreSafe(p);
    var regex := new GenericRegex(PrintAnchored(p, begin, end));
    search := new GenericRegexSearch(regex);
  }

  lemma PlainAnchored(p: Pattern, begin: bool, end: bool)
    requires WellFormed(p) && PatternText(Print(p))
    ensures PatternText(PrintAnchored(p, begin, end))
  {
    hide WellFormed, Print;
  }
}
