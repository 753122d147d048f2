/** GenericDocument of document.h: the handler that builds a tree on a stack, and the way from a value through text
    back to a value. */
module JsonDocument {
  import opened JsonEvents
  import opened JsonGrammar
  import opened JsonNumbers
  import opened JsonStrings
  import opened JsonValues
  import opened JsonWriter
  import opened JsonBuilding
  import opened JsonReader
  import opened JsonReading
  import opened JsonRecognition
  import opened JsonRoundTrip
  import opened JsonSyntax
  import JsonSpelling
  import Itoa
  import Decimals

  class GenericDocument {
    var stack: seq<GenericValue>
    var root: GenericValue

    constructor ()
      ensures stack == [] && root == NullValue
    {
      stack, root := [], NullValue;
    }

    method Push(v: GenericValue)
      modifies this`stack
      ensures stack == old(stack) + [v]
    {
      stack := stack + [v];
    }

    /** The members come off the stack, and the object below them takes them. */
    method EndObject(memberCount: nat)
      requires 2 * memberCount < |stack|
      modifies this`stack
      ensures Stack(stack) == old(Handle(stack, Event.EndObject(memberCount)))
    {
      var at := |stack| - 2 * memberCount;
      var members := Paired(stack[at..]);
      stack := stack[..at];
      stack := stack[..at - 1] + [ObjectValue(members)];
      assert old(stack)[..at][..at - 1] == old(stack)[..at - 1];
    }

    method EndArray(elementCount: nat)
      requires elementCount < |stack|
      modifies this`stack
      ensures Stack(stack) == old(Handle(stack, Event.EndArray(elementCount)))
    {
      var at := |stack| - elementCount;
      var elements := stack[at..];
      stack := stack[..at];
      stack := stack[..at - 1] + [ArrayValue(elements)];
      assert old(stack)[..at][..at - 1] == old(stack)[..at - 1];
    }

    /** One call of the handler. */
    method Receive(e: Event)
      requires Handle(stack, e).Stack?
      modifies this`stack
      ensures Stack(stack) == old(Handle(stack, e))
    {
      match e
      case Null => Push(NullValue);
      case Bool(b) => Push(BoolValue(b));
      case Num(n) => Push(NumberValue(EventData(n)));
      case String(s) => Push(StringValue(s));
      case Key(s) => Push(StringValue(s));
      case StartObject => Push(ObjectValue([]));
      case StartArray => Push(ArrayValue([]));
      case EndObject(n) => EndObject(n);
      case EndArray(n) => EndArray(n);
    }

    /** The events of a parse, and then the one value left on the stack becomes the document. */
    method Populate(events: seq<Event>)
      requires stack == [] && HandleAll([], events).Stack? && |HandleAll([], events).values| == 1
      modifies this
      ensures stack == [] && [root] == HandleAll([], events).values
    {
      hide Handle;
      var i := 0;
      while i < |events|
        invariant i <= |events| && HandleAll(stack, events[i..]) == HandleAll([], events)
      {
        assert events[i..][1..] == events[i + 1..];
        Receive(events[i]);
        i := i + 1;
      }
      root := stack[0];
      stack := [];
    }
  }

  /** Numbers off the integer path are refused here; doubles are not part of this model. */
  function ScanIntegers(src: seq<int>): nat -> Scan<Number> {
    (pos: nat) =>
      if pos > |src| then Bad(ValueInvalid, pos)
      else match IntegerAt(src, pos)
        case Integral(n, end) => Read(n, end)
        case Floating => Bad(ValueInvalid, pos)
        case Invalid(code, offset) => Bad(code, offset)
  }

  function ScanStrings(src: seq<int>, apostrophe: bool): nat -> Scan<seq<int>> {
    (pos: nat) =>
      if pos >= |src| then Bad(StringMissQuotationMark, pos) else ScanString(src, pos, apostrophe)
  }

  /** The settings of a parse. */
  datatype Flags = Flags(comments: bool, trailingCommas: bool, stopWhenDone: bool, apostrophe: bool, iterative: bool)

  function EnvOf(src: seq<int>, flags: Flags): Env {
    Env(src, flags.comments, flags.trailingCommas, flags.stopWhenDone,
        ScanIntegers(src), ScanStrings(src, flags.apostrophe), (es: seq<Event>) => true)
  }

  lemma EnvStandard(src: seq<int>, flags: Flags)
    ensures Standard(EnvOf(src, flags), flags.apostrophe)
  {
    hide IntegerAt, ScanString;
    forall pos: nat | pos < |src| && IntegerAt(src, pos).Integral? ensures pos < IntegerAt(src, pos).end <= |src| {
      IntegerForward(src, pos);
    }
  }

  lemma IntegerForward(src: seq<int>, pos: nat)
    requires pos < |src| && IntegerAt(src, pos).Integral?
    ensures pos < IntegerAt(src, pos).end <= |src|
  {
    hide Decimals.ValueOf;
    assert DigitsEnd(src, pos) >= pos;
  }

  lemma EnvScansIntegers(src: seq<int>, flags: Flags)
    ensures ScansIntegers(EnvOf(src, flags))
  {
    hide ScanString, IntegerAt;
    var env := EnvOf(src, flags);
    EnvStandard(src, flags);
    forall pos: nat | pos < |src| && IntegerAt(src, pos).Integral? ensures IsInteger(IntegerAt(src, pos).n) {
      IntegerInRange(src, pos);
    }
  }

  lemma IntegerInRange(src: seq<int>, pos: nat)
    requires pos < |src| && IntegerAt(src, pos).Integral?
    ensures IsInteger(IntegerAt(src, pos).n)
  {
    hide Decimals.ValueOf, DigitsEnd;
  }

  function DialectOf(flags: Flags): Dialect {
    Dialect(flags.comments, flags.trailingCommas, flags.apostrophe)
  }

  lemma EnvRecognizes(src: seq<int>, flags: Flags)
    requires IsByteString(src)
    ensures Recognizes(EnvOf(src, flags), DialectOf(flags))
  {
    hide IntegerAt, ScanString, Standard;
    EnvStandard(src, flags);
  }

  /** `Parse` of a document, by either parser: what is accepted becomes exactly one value. EVERY JSON TEXT OF RFC 8259
      BECOMES THE VALUE IT STANDS FOR, and nothing else is accepted. */
  method ParseDocument(src: seq<int>, flags: Flags) returns (ok: bool, root: GenericValue)
    ensures ok <==> Document(EnvOf(src, flags)).Done?
    ensures ok ==> HandleAll([], Document(EnvOf(src, flags)).at.events) == Stack([root])
    ensures IsByteString(src) ==> forall v :: IsTextOf(src, v, DialectOf(flags)) ==> ok && root == v
    ensures IsByteString(src) && 0 !in src && !flags.stopWhenDone && ok ==> IsTextOf(src, root, DialectOf(flags))
  {
    hide Document, HandleAll, Standard, BadRoot, EnvOf, IsTextOf, Recognizes;
    ghost var env := EnvOf(src, flags);
    EnvStandard(src, flags);
    StandardForward(env, flags.apostrophe);
    EnvScansIntegers(src, flags);
    var reader := new GenericReader(EnvOf(src, flags));
    if flags.iterative {
      reader.IterativeParse();
    } else {
      reader.RecursiveParse();
    }
    ok, root := !reader.HasParseError(), NullValue;
    if ok {
      ghost var v := DocumentBuilds(env);
      var document := new GenericDocument();
      document.Populate(reader.events);
      root := document.root;
    }
    if IsByteString(src) {
      TextsBecome(src, flags);
    }
  }

  /** What `AcceptsExactly` says of a document. */
  lemma TextsBecome(src: seq<int>, flags: Flags)
    requires IsByteString(src)
    ensures var env := EnvOf(src, flags);
            && Forward(env)
            && (forall v :: IsTextOf(src, v, DialectOf(flags)) ==> Document(env).Done? && HandleAll([], Document(env).at.events) == Stack([v]))
            && (0 !in src && !flags.stopWhenDone && Document(env).Done? ==> exists v :: IsTextOf(src, v, DialectOf(flags)))
  {
    hide Document, HandleAll, IsTextOf, Recognizes, Standard, Parses, ScanIntegers, ScanStrings;
    var env := EnvOf(src, flags);
    EnvRecognizes(src, flags);
    RecognizesParses(env, DialectOf(flags));
    forall v | IsTextOf(src, v, DialectOf(flags)) ensures Document(env).Done? && HandleAll([], Document(env).at.events) == Stack([v]) {
      TextAccepted(env, v, DialectOf(flags));
    }
    if 0 !in src && !flags.stopWhenDone {
      AcceptsExactly(env, DialectOf(flags));
    }
  }

  lemma StandardForward(env: Env, apostrophe: bool)
    requires Standard(env, apostrophe)
    ensures Forward(env)
  {
  }

  /** THROUGH TEXT AND BACK. Any value without doubles, written and parsed with any flags and either parser, comes back
      as the same value. */
  method WriteAndParse(v: GenericValue, flags: Flags) returns (w: GenericValue)
    requires Valid(v)
    ensures w == v
  {
    hide Document, HandleAll, TextOf, EventsOf, Standard, EnvOf;
    var text := Write(v);
    EnvStandard(text, flags);
    EnvSource(text, flags);
    RoundTrip(EnvOf(text, flags), v, flags.apostrophe);
    var ok;
    ok, w := ParseDocument(text, flags);
  }

  lemma EnvSource(src: seq<int>, flags: Flags)
    ensures EnvOf(src, flags).src == src && EnvOf(src, flags).stopWhenDone == flags.stopWhenDone
  {
  }

  /** ---- The writer writes JSON ---- */

  lemma {:induction false} TextIsBytes(v: GenericValue)
    requires Valid(v)
    ensures IsByteString(TextOf(v))
    decreases v, 1
  {
    hide JsonWriter.MembersText, JsonWriter.ElementsText, JsonWriter.MemberText, Quoted, Itoa.Signed;
    match v
    case NumberValue(n) => SignedIsBytes(IntegerOf(n));
    case StringValue(s) => JsonSpelling.QuotedIsBytes(s);
    case ObjectValue(ms) => MembersAreBytes(v, |ms|);
    case ArrayValue(vs) => ElementsAreBytes(v, |vs|);
    case _ =>
  }

  lemma SignedIsBytes(n: int)
    ensures IsByteString(Itoa.Signed(n))
  {
    hide Decimals.Decimal;
    assert Decimals.AllDigits(Decimals.Decimal(if n < 0 then -n else n));
  }

  lemma CommaIsBytes(first: bool)
    ensures IsByteString(Comma(first))
  {
  }

  lemma {:induction false} MembersAreBytes(v: GenericValue, k: nat)
    requires Valid(v) && v.ObjectValue? && k <= |v.members|
    ensures IsByteString(JsonWriter.MembersText(v, k))
    decreases v, 0, k
  {
    hide TextOf, Quoted, Comma;
    if k > 0 {
      assert IsByteString(Comma(k == 1)) by { CommaIsBytes(k == 1); }
      MembersAreBytes(v, k - 1);
      TextIsBytes(v.members[k - 1].value);
      JsonSpelling.QuotedIsBytes(v.members[k - 1].name.s);
    }
  }

  lemma {:induction false} ElementsAreBytes(v: GenericValue, k: nat)
    requires Valid(v) && v.ArrayValue? && k <= |v.elements|
    ensures IsByteString(JsonWriter.ElementsText(v, k))
    decreases v, 0, k
  {
    hide TextOf;
    if k > 0 {
      ElementsAreBytes(v, k - 1);
      TextIsBytes(v.elements[k - 1]);
    }
  }

  /** WHAT IS WRITTEN FOR A VALUE IS A JSON TEXT FOR IT. */
  lemma WrittenIsText(v: GenericValue, d: Dialect)
    requires Valid(v)
    ensures IsTextOf(TextOf(v), v, d)
  {
    hide Document, HandleAll, TextOf, EventsOf, Standard, Recognizes, Parses, OkTree, OkBlanks, WholeText, Meaning, EnvOf, TreeEvents, Stands;
    var src, flags := TextOf(v), Flags(d.comments, d.trailingCommas, false, d.apostrophe, false);
    var env := EnvOf(src, flags);
    TextIsBytes(v);
    EnvStandard(src, flags);
    EnvSource(src, flags);
    EnvRecognizes(src, flags);
    RecognizesParses(env, d);
    RoundTrip(env, v, d.apostrophe);
    var x := DocumentIsText(env, d);
    ReadText(env, x, d);
    TreeMakes(x.root, d);
    MadeAlone(TreeEvents(x.root, d), Meaning(x.root, d));
    SameText(src, x);
  }

  lemma SameText(src: seq<int>, x: JsonText)
    requires Stands(src, 0, WholeText(x)) && |WholeText(x)| == |src|
    ensures WholeText(x) == src
  {
    hide WholeText;
    assert src[0..|src|] == src;
  }
}
