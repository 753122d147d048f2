/** Events, errors and cursors shared by the parsers and writers of JSON text. */
module JsonEvents {

  /** What a number token stands for. A double is left as its text. */
  datatype Number = Int(i: int) | Uint(i: int) | Int64(i: int) | Uint64(i: int) | Double(text: seq<int>) | RawNumber(text: seq<int>)

  /** The calls a parser makes to its handler. */
  datatype Event =
    | Null
    | Bool(b: bool)
    | Num(n: Number)
    | String(s: seq<int>)
    | StartObject
    | Key(s: seq<int>)
    | EndObject(memberCount: nat)
    | StartArray
    | EndArray(elementCount: nat)

  datatype ErrorCode =
    | DocumentEmpty | DocumentRootNotSingular | ValueInvalid | ObjectMissName | ObjectMissColon
    | ObjectMissCommaOrCurlyBracket | ArrayMissCommaOrSquareBracket
    | StringUnicodeEscapeInvalidHex | StringUnicodeSurrogateInvalid | StringEscapeInvalid
    | StringMissQuotationMark | StringInvalidEncoding | NumberTooBig | NumberMissFraction | NumberMissExponent
    | Termination | UnspecificSyntaxError

  /** What a scanner finds at a position: a value and where it ends, or an error and its offset. */
  datatype Scan<+T> = Read(value: T, end: nat) | Bad(code: ErrorCode, offset: nat)

  /** An input and the flags it is parsed with. Scanners for numbers and strings, and the handler's answers to the
      events so far, are arbitrary. */
  datatype Env = Env(
    src: seq<int>, comments: bool, trailingCommas: bool, stopWhenDone: bool,
    scanNumber: nat -> Scan<Number>, scanString: nat -> Scan<seq<int>>, accepts: seq<Event> -> bool)

  /** Scanners move forward within the input. */
  ghost predicate Forward(env: Env) {
    && (forall pos: nat | pos < |env.src| && env.scanNumber(pos).Read? :: pos < env.scanNumber(pos).end <= |env.src|)
    && (forall pos: nat | pos < |env.src| && env.scanString(pos).Read? :: pos < env.scanString(pos).end <= |env.src|)
  }

  datatype Cursor = Cursor(pos: nat, events: seq<Event>)

  /** The cursor after a successful step, or the error that ended the parse. */
  datatype Step = Done(at: Cursor) | Fail(code: ErrorCode, offset: nat, events: seq<Event>)
  {
    predicate IsFailure() { Fail? }
    function PropagateFailure(): Step requires Fail? { this }
    function Extract(): Cursor requires Done? { at }
  }

  /** The character at a position; 0 at the end. */
  function At(src: seq<int>, pos: nat): int {
    if pos < |src| then src[pos] else 0
  }

  /** The character at the cursor. */
  function Peek(env: Env, c: Cursor): int {
    At(env.src, c.pos)
  }
}
