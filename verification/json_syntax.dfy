/** JSON text as sections 2 to 7 of RFC 8259 have it: syntax trees with their blanks and spellings, the text of a tree,
    and the value it stands for. A dialect adds what parse flags allow. Numbers are integers of at most 64 bits. */
module JsonSyntax {
  import opened Decimals
  import opened JsonValues
  import opened Wrappers
  import JsonNumbers
  import Utf8

  datatype Dialect = Dialect(comments: bool, trailingCommas: bool, apostrophe: bool)

  /** ---- Blanks ---- */

  /** A white-space byte, or a comment. */
  datatype Blank = Space(c: int) | Block(body: seq<int>) | Line(body: seq<int>)

  /** A block comment ends with the first asterisk that a slash follows. */
  predicate ClosesOnce(body: seq<int>) {
    forall i | 0 <= i < |body| - 1 :: !(body[i] == '*' as int && body[i + 1] == '/' as int)
  }

  predicate OkBlank(b: Blank, d: Dialect) {
    match b
    case Space(c) => c == 0x20 || c == 0x09 || c == 0x0A || c == 0x0D
    case Block(body) => d.comments && 0 !in body && ClosesOnce(body)
    case Line(body) => d.comments && 0 !in body && 0x0A !in body
  }

  predicate OkBlanks(bs: seq<Blank>, d: Dialect) {
    forall i | 0 <= i < |bs| :: OkBlank(bs[i], d)
  }

  function BlankText(b: Blank): (t: seq<int>)
    ensures t != []
  {
    match b
    case Space(c) => [c]
    case Block(body) => ['/' as int, '*' as int] + body + ['*' as int, '/' as int]
    case Line(body) => ['/' as int, '/' as int] + body + [0x0A]
  }

  function BlanksText(bs: seq<Blank>): seq<int> {
    if bs == [] then [] else BlankText(bs[0]) + BlanksText(bs[1..])
  }

  /** ---- Strings ---- */

  /** A byte as itself, a backslash and a letter, a code point in hexadecimal, or one beyond 16 bits as a surrogate pair;
      the last two with the bytes they stand for. */
  datatype Piece =
    | Plain(c: int)
    | Short(letter: int)
    | Code(hex: seq<int>, bytes: seq<int>)
    | Pair(high: seq<int>, low: seq<int>, bytes: seq<int>)

  /** What a backslash and a letter stand for; -1 for other letters. */
  function ShortMeaning(letter: int, d: Dialect): int {
    if letter == '"' as int then 0x22
    else if letter == '\\' as int then 0x5C
    else if letter == '/' as int then 0x2F
    else if letter == 'b' as int then 0x08
    else if letter == 'f' as int then 0x0C
    else if letter == 'n' as int then 0x0A
    else if letter == 'r' as int then 0x0D
    else if letter == 't' as int then 0x09
    else if letter == '\'' as int && d.apostrophe then 0x27
    else -1
  }

  predicate FourDigits(hex: seq<int>) {
    |hex| == 4 && IsHexDigit(hex[0]) && IsHexDigit(hex[1]) && IsHexDigit(hex[2]) && IsHexDigit(hex[3])
  }

  function CodeUnit(hex: seq<int>): (v: nat)
    requires FourDigits(hex)
    ensures v < 0x10000
  {
    DigitValue(hex[0]) * 0x1000 + DigitValue(hex[1]) * 0x100 + DigitValue(hex[2]) * 0x10 + DigitValue(hex[3])
  }

  predicate OkPiece(p: Piece, d: Dialect) {
    match p
    case Plain(c) => 0x20 <= c <= 0xFF && c != 0x22 && c != 0x5C
    case Short(letter) => ShortMeaning(letter, d) >= 0
    case Code(hex, bytes) => FourDigits(hex) && !(0xD800 <= CodeUnit(hex) <= 0xDFFF) && Utf8.Encodes(bytes, CodeUnit(hex))
    case Pair(high, low, bytes) =>
      && FourDigits(high) && 0xD800 <= CodeUnit(high) <= 0xDBFF && FourDigits(low) && 0xDC00 <= CodeUnit(low) <= 0xDFFF
      && Utf8.Encodes(bytes, 0x10000 + (CodeUnit(high) - 0xD800) * 0x400 + (CodeUnit(low) - 0xDC00))
  }

  predicate OkPieces(ps: seq<Piece>, d: Dialect) {
    forall i | 0 <= i < |ps| :: OkPiece(ps[i], d)
  }

  function PieceText(p: Piece): (t: seq<int>)
    ensures t != []
  {
    match p
    case Plain(c) => [c]
    case Short(letter) => ['\\' as int, letter]
    case Code(hex, _) => ['\\' as int, 'u' as int] + hex
    case Pair(high, low, _) => ['\\' as int, 'u' as int] + high + (['\\' as int, 'u' as int] + low)
  }

  function PieceBytes(p: Piece, d: Dialect): seq<int> {
    match p
    case Plain(c) => [c]
    case Short(letter) => [ShortMeaning(letter, d)]
    case Code(_, bytes) => bytes
    case Pair(_, _, bytes) => bytes
  }

  function PiecesText(ps: seq<Piece>): seq<int> {
    if ps == [] then [] else PieceText(ps[0]) + PiecesText(ps[1..])
  }

  function PiecesBytes(ps: seq<Piece>, d: Dialect): seq<int> {
    if ps == [] then [] else PieceBytes(ps[0], d) + PiecesBytes(ps[1..], d)
  }

  /** t spells s, between quotes. */
  ghost predicate Spells(t: seq<int>, s: seq<int>, d: Dialect) {
    exists ps :: OkPieces(ps, d) && PiecesText(ps) == t && PiecesBytes(ps, d) == s
  }

  function StringText(ps: seq<Piece>): seq<int> {
    ['"' as int] + PiecesText(ps) + ['"' as int]
  }

  /** ---- Values ---- */

  type Digits = s: seq<int> | AllDigits(s)

  datatype Tree =
    | NullTree
    | TrueTree
    | FalseTree
    | NumberTree(minus: bool, digits: Digits)
    | StringTree(pieces: seq<Piece>)
    | EmptyArray(within: seq<Blank>)
    | ArrayTree(elements: ElementList)
    | EmptyObject(within: seq<Blank>)
    | ObjectTree(members: MemberList)

  /** One element, and what follows it: the end, perhaps after a comma, or more elements. */
  datatype ElementList = ElementList(before: seq<Blank>, value: Tree, after: seq<Blank>, more: MoreElements)

  datatype MoreElements = NoElements(comma: Maybe<seq<Blank>>) | NextElements(rest: ElementList)

  datatype MemberList = MemberList(
    before: seq<Blank>, name: seq<Piece>, afterName: seq<Blank>, beforeValue: seq<Blank>, value: Tree, after: seq<Blank>,
    more: MoreMembers)

  datatype MoreMembers = NoMembers(comma: Maybe<seq<Blank>>) | NextMembers(rest: MemberList)

  /** Without leading zeros, and within 64 bits. */
  predicate OkNumber(minus: bool, digits: Digits) {
    && digits != [] && (|digits| > 1 ==> digits[0] != '0' as int)
    && (if minus then ValueOf(digits) <= JsonNumbers.TWO63 else ValueOf(digits) < JsonNumbers.TWO64)
  }

  predicate OkComma(comma: Maybe<seq<Blank>>, d: Dialect) {
    comma.Some? ==> d.trailingCommas && OkBlanks(comma.value, d)
  }

  predicate OkTree(t: Tree, d: Dialect) {
    match t
    case NumberTree(minus, digits) => OkNumber(minus, digits)
    case StringTree(ps) => OkPieces(ps, d)
    case EmptyArray(bs) => OkBlanks(bs, d)
    case ArrayTree(es) => OkElements(es, d)
    case EmptyObject(bs) => OkBlanks(bs, d)
    case ObjectTree(ms) => OkMembers(ms, d)
    case _ => true
  }

  predicate OkElements(es: ElementList, d: Dialect) {
    OkBlanks(es.before, d) && OkTree(es.value, d) && OkBlanks(es.after, d) && OkMoreElements(es.more, d)
  }

  predicate OkMoreElements(more: MoreElements, d: Dialect) {
    match more
    case NoElements(comma) => OkComma(comma, d)
    case NextElements(rest) => OkElements(rest, d)
  }

  predicate OkMembers(ms: MemberList, d: Dialect) {
    && OkBlanks(ms.before, d) && OkPieces(ms.name, d) && OkBlanks(ms.afterName, d) && OkBlanks(ms.beforeValue, d)
    && OkTree(ms.value, d) && OkBlanks(ms.after, d) && OkMoreMembers(ms.more, d)
  }

  predicate OkMoreMembers(more: MoreMembers, d: Dialect) {
    match more
    case NoMembers(comma) => OkComma(comma, d)
    case NextMembers(rest) => OkMembers(rest, d)
  }

  function NumberText(minus: bool, digits: Digits): seq<int> {
    (if minus then ['-' as int] else []) + digits
  }

  function CommaText(comma: Maybe<seq<Blank>>): seq<int> {
    if comma.None? then [] else [',' as int] + BlanksText(comma.value)
  }

  const NULL_TEXT := ['n' as int, 'u' as int, 'l' as int, 'l' as int]
  const TRUE_TEXT := ['t' as int, 'r' as int, 'u' as int, 'e' as int]
  const FALSE_TEXT := ['f' as int, 'a' as int, 'l' as int, 's' as int, 'e' as int]

  function TreeText(t: Tree): seq<int>
    decreases t, 0
  {
    match t
    case NullTree => NULL_TEXT
    case TrueTree => TRUE_TEXT
    case FalseTree => FALSE_TEXT
    case NumberTree(minus, digits) => NumberText(minus, digits)
    case StringTree(ps) => StringText(ps)
    case EmptyArray(bs) => ['[' as int] + BlanksText(bs) + [']' as int]
    case ArrayTree(es) => ['[' as int] + ElementsText(es) + [']' as int]
    case EmptyObject(bs) => ['{' as int] + BlanksText(bs) + ['}' as int]
    case ObjectTree(ms) => ['{' as int] + MembersText(ms) + ['}' as int]
  }

  function ElementsText(es: ElementList): seq<int>
    decreases es, 1
  {
    BlanksText(es.before) + ElementText(es)
  }

  /** From the first element on. */
  function ElementText(es: ElementList): seq<int>
    decreases es, 0
  {
    TreeText(es.value) + BlanksText(es.after) + MoreElementsText(es.more)
  }

  function MoreElementsText(more: MoreElements): seq<int>
    decreases more, 0
  {
    match more
    case NoElements(comma) => CommaText(comma)
    case NextElements(rest) => [',' as int] + ElementsText(rest)
  }

  function MembersText(ms: MemberList): seq<int>
    decreases ms, 2
  {
    BlanksText(ms.before) + MemberText(ms)
  }

  /** From the first name on. */
  function MemberText(ms: MemberList): seq<int>
    decreases ms, 1
  {
    StringText(ms.name) + BlanksText(ms.afterName) + ([':' as int] + BlanksText(ms.beforeValue) + MemberValueText(ms))
  }

  /** From the first value on. */
  function MemberValueText(ms: MemberList): seq<int>
    decreases ms, 0
  {
    TreeText(ms.value) + BlanksText(ms.after) + MoreMembersText(ms.more)
  }

  function MoreMembersText(more: MoreMembers): seq<int>
    decreases more, 0
  {
    match more
    case NoMembers(comma) => CommaText(comma)
    case NextMembers(rest) => [',' as int] + MembersText(rest)
  }

  /** ---- What trees stand for ---- */

  function NumberOf(minus: bool, digits: Digits): int {
    if minus then -(ValueOf(digits) as int) else ValueOf(digits)
  }

  function Meaning(t: Tree, d: Dialect): GenericValue {
    match t
    case NullTree => NullValue
    case TrueTree => BoolValue(true)
    case FalseTree => BoolValue(false)
    case NumberTree(minus, digits) => NumberValue(Canonical(NumberOf(minus, digits)))
    case StringTree(ps) => StringValue(PiecesBytes(ps, d))
    case EmptyArray(_) => ArrayValue([])
    case ArrayTree(es) => ArrayValue(ElementValues(es, d))
    case EmptyObject(_) => ObjectValue([])
    case ObjectTree(ms) => ObjectValue(MemberValues(ms, d))
  }

  function ElementValues(es: ElementList, d: Dialect): seq<GenericValue> {
    [Meaning(es.value, d)] + match es.more case NoElements(_) => [] case NextElements(rest) => ElementValues(rest, d)
  }

  function MemberValues(ms: MemberList, d: Dialect): seq<Member> {
    [Member(StringValue(PiecesBytes(ms.name, d)), Meaning(ms.value, d))]
    + match ms.more case NoMembers(_) => [] case NextMembers(rest) => MemberValues(rest, d)
  }

  /** ---- Texts ---- */

  /** A value among blanks; a line comment that the end of the text cuts off may come last. */
  datatype JsonText = JsonText(before: seq<Blank>, root: Tree, after: seq<Blank>, open: Maybe<seq<int>>)

  predicate OkJsonText(x: JsonText, d: Dialect) {
    && OkBlanks(x.before, d) && OkTree(x.root, d) && OkBlanks(x.after, d)
    && (x.open.Some? ==> d.comments && 0 !in x.open.value && 0x0A !in x.open.value)
  }

  function OpenText(open: Maybe<seq<int>>): seq<int> {
    if open.None? then [] else ['/' as int, '/' as int] + open.value
  }

  function WholeText(x: JsonText): seq<int> {
    BlanksText(x.before) + TreeText(x.root) + BlanksText(x.after) + OpenText(x.open)
  }

  /** t is a JSON text for v. */
  ghost predicate IsTextOf(t: seq<int>, v: GenericValue, d: Dialect) {
    exists x :: OkJsonText(x, d) && WholeText(x) == t && Meaning(x.root, d) == v
  }
}
