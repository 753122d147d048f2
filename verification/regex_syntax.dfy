/** The documented pattern syntax of internal/regex.h as concrete syntax trees, their meaning given directly, and
    the proof that the parser reads back what a tree prints as the expression with the same language. */
module RegexSyntax {
  import opened Decimals
  import opened RegexLanguage
  import opened RegexParser

  /** A pattern character: as itself, or a backslash and a letter of the escape table. */
  datatype PatternChar = Raw(c: int) | Escaped(letter: int)

  /** A character inside a class; `\b` is a backspace there. */
  datatype ClassChar = ClassRaw(c: int) | ClassEscaped(letter: int) | Backspace

  datatype ClassItem = One(ch: ClassChar) | Span(lo: ClassChar, hi: ClassChar)

  datatype Quantifier = Optional | Many | AtLeastOnce | Exactly(n: nat) | AtLeast(n: nat) | Between(n: nat, m: nat)

  datatype Pattern =
    | Literal(ch: PatternChar)
    | Dot
    | Bracket(negated: bool, items: seq<ClassItem>, trailingDash: bool)
    | Group(p: Pattern)
    | Quantified(p: Pattern, q: Quantifier)
    | Sequence(p1: Pattern, p2: Pattern)
    | Choice(p1: Pattern, p2: Pattern)

  /** ---- Well-formed trees ---- */

  /** Letters after a backslash that stand for a control character. */
  predicate IsControlLetter(letter: int) {
    letter == 'f' as int || letter == 'n' as int || letter == 'r' as int || letter == 't' as int || letter == 'v' as int
  }

  /** Characters that `Parse` does not take as themselves; `]` and `}` are ordinary. */
  predicate IsSpecial(c: int) {
    || c == '^' as int || c == '$' as int || c == '|' as int || c == '(' as int || c == ')' as int || c == '?' as int
    || c == '*' as int || c == '+' as int || c == '.' as int || c == '[' as int || c == '{' as int || c == '\\' as int
  }

  /** What may follow a backslash. */
  predicate IsEscape(letter: int) {
    IsControlLetter(letter) || IsSpecial(letter) || letter == ']' as int || letter == '}' as int
  }

  /** The code point that a backslash and a letter stand for: form feed, line feed, carriage return, tab, vertical tab,
      or the character itself. */
  function EscapedCharacter(letter: int): int
    requires IsEscape(letter)
  {
    if letter == 'f' as int then 0x0C
    else if letter == 'n' as int then 0x0A
    else if letter == 'r' as int then 0x0D
    else if letter == 't' as int then 0x09
    else if letter == 'v' as int then 0x0B
    else letter
  }

  /** The parser's table is this one, and it refuses every other letter. */
  lemma EscapesAgree(letter: int)
    ensures EscapeValue(letter) == if IsEscape(letter) then Ok(EscapedCharacter(letter)) else Reject
  {
    SyntaxAgrees(letter);
    hide IsSyntax, IsSpecial;
  }

  lemma SyntaxAgrees(c: int)
    ensures IsSyntax(c) <==> IsSpecial(c) || c == ']' as int || c == '}' as int
    ensures IsSyntax(c) ==> !IsControlLetter(c)
  {
    var s := SYNTAX_CHARACTERS;
    assert s[0] == '^' && s[1] == '$' && s[2] == '|' && s[3] == '(' && s[4] == ')' && s[5] == '?' && s[6] == '*';
    assert s[7] == '+' && s[8] == '.' && s[9] == '[' && s[10] == ']' && s[11] == '{' && s[12] == '}' && s[13] == '\\';
  }

  predicate OkChar(ch: PatternChar) {
    match ch
    case Raw(c) => 0 < c <= 0x10FFFF && !IsSpecial(c)
    case Escaped(letter) => IsEscape(letter)
  }

  predicate OkClassChar(ch: ClassChar) {
    match ch
    case ClassRaw(c) => 0 < c <= 0x10FFFF && c != ']' as int && c != '\\' as int
    case ClassEscaped(letter) => IsEscape(letter)
    case Backspace => true
  }

  const DASH := ClassRaw('-' as int)

  predicate OkItem(item: ClassItem) {
    match item
    case One(ch) => OkClassChar(ch)
    case Span(lo, hi) => OkClassChar(lo) && OkClassChar(hi)
  }

  function FirstChar(item: ClassItem): ClassChar {
    match item
    case One(ch) => ch
    case Span(lo, _) => lo
  }

  /** A raw dash would join a single character before it to what follows. */
  predicate OkItems(items: seq<ClassItem>, afterOne: bool): (r: bool)
    ensures r ==> forall i | 0 <= i < |items| :: OkItem(items[i])
  {
    items == [] ||
    (OkItem(items[0]) && (afterOne ==> FirstChar(items[0]) != DASH) && OkItems(items[1..], items[0].One?))
  }

  /** What the first character of a class stands for: `^` first would negate. */
  predicate StartsWithCaret(items: seq<ClassItem>) {
    items != [] && FirstChar(items[0]) == ClassRaw('^' as int)
  }

  predicate OkQuantifier(q: Quantifier) {
    match q
    case Exactly(n) => 0 < n < INFINITY
    case AtLeast(n) => n < INFINITY
    case Between(n, m) => n <= m && 0 < m < INFINITY
    case _ => true
  }

  /** The trailing dash is read as one only after a single character. */
  predicate OkBracket(negated: bool, items: seq<ClassItem>, trailingDash: bool) {
    && items != [] && OkItems(items, false)
    && (!negated ==> !StartsWithCaret(items))
    && (trailingDash ==> items[|items| - 1].One?)
  }

  /** An atom with any number of quantifiers. */
  predicate IsItem(p: Pattern) {
    !p.Sequence? && !p.Choice?
  }

  /** The tree follows the precedence of the operators; both operators associate to the right. */
  predicate WellFormed(p: Pattern) {
    match p
    case Literal(ch) => OkChar(ch)
    case Dot => true
    case Bracket(negated, items, dash) => OkBracket(negated, items, dash)
    case Group(r) => WellFormed(r)
    case Quantified(r, q) => IsItem(r) && WellFormed(r) && OkQuantifier(q)
    case Sequence(r, s) => IsItem(r) && WellFormed(r) && !s.Choice? && WellFormed(s)
    case Choice(r, s) => !r.Choice? && WellFormed(r) && WellFormed(s)
  }

  /** ---- Printing ---- */

  function PrintChar(ch: PatternChar): seq<int> {
    match ch
    case Raw(c) => [c]
    case Escaped(letter) => ['\\' as int, letter]
  }

  function PrintClassChar(ch: ClassChar): seq<int> {
    match ch
    case ClassRaw(c) => [c]
    case ClassEscaped(letter) => ['\\' as int, letter]
    case Backspace => ['\\' as int, 'b' as int]
  }

  function PrintItems(items: seq<ClassItem>): seq<int> {
    if items == [] then []
    else (match items[0]
          case One(ch) => PrintClassChar(ch)
          case Span(lo, hi) => PrintClassChar(lo) + ['-' as int] + PrintClassChar(hi)) + PrintItems(items[1..])
  }

  function PrintQuantifier(q: Quantifier): (s: seq<int>)
    ensures s != []
  {
    match q
    case Optional => ['?' as int]
    case Many => ['*' as int]
    case AtLeastOnce => ['+' as int]
    case Exactly(n) => ['{' as int] + Decimal(n) + ['}' as int]
    case AtLeast(n) => ['{' as int] + Decimal(n) + [',' as int, '}' as int]
    case Between(n, m) => ['{' as int] + Decimal(n) + [',' as int] + Decimal(m) + ['}' as int]
  }

  /** c when the flag is set. */
  function Mark(flag: bool, c: char): seq<int> {
    if flag then [c as int] else []
  }

  /** What follows the opening bracket of a class. */
  function AfterBracket(negated: bool, items: seq<ClassItem>, trailingDash: bool): seq<int> {
    Mark(negated, '^') + PrintItems(items) + Mark(trailingDash, '-') + [']' as int]
  }

  function Print(p: Pattern): seq<int> {
    match p
    case Literal(ch) => PrintChar(ch)
    case Dot => ['.' as int]
    case Bracket(negated, items, dash) =>
      ['[' as int] + AfterBracket(negated, items, dash)
    case Group(r) => ['(' as int] + Print(r) + [')' as int]
    case Quantified(r, q) => Print(r) + PrintQuantifier(q)
    case Sequence(r, s) => Print(r) + Print(s)
    case Choice(r, s) => Print(r) + ['|' as int] + Print(s)
  }

  /** ---- Meaning, without reference to the engine's operators ---- */

  function CharValue(ch: PatternChar): int
    requires OkChar(ch)
  {
    match ch
    case Raw(c) => c
    case Escaped(letter) => EscapedCharacter(letter)
  }

  function ClassCharValue(ch: ClassChar): int
    requires OkClassChar(ch)
  {
    match ch
    case ClassRaw(c) => c
    case ClassEscaped(letter) => EscapedCharacter(letter)
    case Backspace => 0x08
  }

  predicate ItemHas(item: ClassItem, c: int)
    requires OkItem(item)
  {
    match item
    case One(ch) => ClassCharValue(ch) == c
    case Span(lo, hi) => ClassCharValue(lo) <= c <= ClassCharValue(hi)
  }

  predicate BracketHas(negated: bool, items: seq<ClassItem>, trailingDash: bool, c: int)
    requires OkItems(items, false)
  {
    ((exists i | 0 <= i < |items| :: ItemHas(items[i], c)) || (trailingDash && c == '-' as int)) != negated
  }

  /** The repetition counts a quantifier allows. */
  predicate Allows(q: Quantifier, k: nat) {
    match q
    case Optional => k <= 1
    case Many => true
    case AtLeastOnce => k >= 1
    case Exactly(n) => k == n
    case AtLeast(n) => k >= n
    case Between(n, m) => n <= k <= m
  }

  ghost predicate Denotes(p: Pattern, w: seq<int>)
    requires WellFormed(p)
    decreases p, 0
  {
    match p
    case Literal(ch) => w == [CharValue(ch)]
    case Dot => |w| == 1
    case Bracket(negated, items, dash) => |w| == 1 && BracketHas(negated, items, dash, w[0])
    case Group(r) => Denotes(r, w)
    case Quantified(r, q) => exists k: nat :: Allows(q, k) && DenotesTimes(r, k, w)
    case Sequence(r, s) => exists i | 0 <= i <= |w| :: Denotes(r, w[..i]) && Denotes(s, w[i..])
    case Choice(r, s) => Denotes(r, w) || Denotes(s, w)
  }

  ghost predicate DenotesTimes(p: Pattern, k: nat, w: seq<int>)
    requires WellFormed(p)
    decreases p, k
  {
    if k == 0 then w == []
    else exists i | 0 <= i <= |w| :: Denotes(p, w[..i]) && DenotesTimes(p, k - 1, w[i..])
  }

  /** Whether the quantifier allows arbitrarily many repetitions. */
  predicate Unbounded(q: Quantifier) {
    q.Many? || q.AtLeastOnce? || q.AtLeast?
  }

  /** No part under an unbounded quantifier matches the empty text. */
  ghost predicate NoEmptyLoop(p: Pattern)
    requires WellFormed(p)
  {
    match p
    case Literal(_) => true
    case Dot => true
    case Bracket(_, _, _) => true
    case Group(r) => NoEmptyLoop(r)
    case Quantified(r, q) => NoEmptyLoop(r) && (Unbounded(q) ==> !Denotes(r, []))
    case Sequence(r, s) => NoEmptyLoop(r) && NoEmptyLoop(s)
    case Choice(r, s) => NoEmptyLoop(r) && NoEmptyLoop(s)
  }

  /** ---- The expression the engine builds ---- */

  function ItemRange(item: ClassItem): (int, int)
    requires OkItem(item)
  {
    match item
    case One(ch) => (ClassCharValue(ch), ClassCharValue(ch))
    case Span(lo, hi) => (ClassCharValue(lo), ClassCharValue(hi))
  }

  function ItemRanges(items: seq<ClassItem>, afterOne: bool): (rs: seq<(int, int)>)
    requires OkItems(items, afterOne)
    ensures |rs| == |items| && forall i | 0 <= i < |items| :: rs[i] == ItemRange(items[i])
  {
    seq(|items|, i requires 0 <= i < |items| => ItemRange(items[i]))
  }

  function BracketAtom(negated: bool, items: seq<ClassItem>, trailingDash: bool): Atom
    requires OkItems(items, false)
  {
    Class(negated, ItemRanges(items, false) + (if trailingDash then [('-' as int, '-' as int)] else []))
  }

  function QuantifiedCore(e: Re, q: Quantifier): Re
    requires OkQuantifier(q)
  {
    match q
    case Optional => Opt(e)
    case Many => Star(e)
    case AtLeastOnce => Plus(e)
    case Exactly(n) => Repeated(e, n, n)
    case AtLeast(n) => Repeated(e, n, INFINITY)
    case Between(n, m) => Repeated(e, n, m)
  }

  function Core(p: Pattern): Re
    requires WellFormed(p)
  {
    match p
    case Literal(ch) => Leaf(Char(CharValue(ch)))
    case Dot => Leaf(AnyChar)
    case Bracket(negated, items, dash) => Leaf(BracketAtom(negated, items, dash))
    case Group(r) => Core(r)
    case Quantified(r, q) => QuantifiedCore(Core(r), q)
    case Sequence(r, s) => Cat(Core(r), Core(s))
    case Choice(r, s) => Alt(Core(r), Core(s))
  }
}
