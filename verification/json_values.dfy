/** JSON values of document.h: integers and their type flags, the events `Accept` makes of a value, and the stack on
    which a document builds a value from events. */
module JsonValues {
  import opened JsonEvents
  import opened JsonNumbers
  import Itoa

  /** ---- Integers ---- */

  /** The number part of a value: 64 bits, and which of the four integer types hold it. */
  datatype NumberData = NumberData(bits: nat, isInt: bool, isUint: bool, isInt64: bool, isUint64: bool)

  /** The constructor for int. */
  function OfInt(i: int): NumberData {
    NumberData(i % TWO64, true, i >= 0, true, i >= 0)
  }

  /** The constructor for unsigned. */
  function OfUint(u: int): NumberData {
    NumberData(u % TWO64, u < TWO31, true, true, true)
  }

  /** The constructor for int64_t. */
  function OfInt64(i: int): NumberData {
    var isUint := i >= 0 && i % TWO64 / TWO32 == 0;
    var isInt := if i >= 0 then i % TWO64 / TWO31 == 0 else i >= -TWO31;
    NumberData(i % TWO64, isInt, isUint, true, i >= 0)
  }

  /** The constructor for uint64_t. */
  function OfUint64(u: int): NumberData {
    NumberData(u % TWO64, u % TWO64 / TWO31 == 0, u % TWO64 / TWO32 == 0, u % TWO64 / TWO63 == 0, true)
  }

  /** What the data of an integer is to be: its bits, and exactly the types in whose range it lies. */
  function Canonical(v: int): NumberData {
    NumberData(v % TWO64, -TWO31 <= v < TWO31, 0 <= v < TWO32, -TWO63 <= v < TWO63, 0 <= v < TWO64)
  }

  /** A number does not remember which constructor made it: the four agree wherever their ranges overlap. */
  lemma ConstructorsAgree(v: int)
    ensures -TWO31 <= v < TWO31 ==> OfInt(v) == Canonical(v)
    ensures 0 <= v < TWO32 ==> OfUint(v) == Canonical(v)
    ensures -TWO63 <= v < TWO63 ==> OfInt64(v) == Canonical(v)
    ensures 0 <= v < TWO64 ==> OfUint64(v) == Canonical(v)
  {
  }

  /** The integer that data stands for. */
  function IntegerOf(n: NumberData): int {
    if n.isUint64 then n.bits else n.bits - TWO64
  }

  predicate ValidNumber(n: NumberData) {
    -TWO63 <= IntegerOf(n) < TWO64 && n == Canonical(IntegerOf(n))
  }

  lemma IntegerOfCanonical(v: int)
    requires -TWO63 <= v < TWO64
    ensures IntegerOf(Canonical(v)) == v && ValidNumber(Canonical(v))
  {
  }

  /** The low half of the bits, read as a signed integer. */
  function GetInt(n: NumberData): int {
    var low := n.bits % TWO32;
    if low < TWO31 then low else low - TWO32
  }

  function GetInt64(n: NumberData): int {
    if n.bits < TWO63 then n.bits else n.bits - TWO64
  }

  /** The event `Accept` chooses. */
  function NumberEvent(n: NumberData): Number {
    if n.isInt then Int(GetInt(n))
    else if n.isUint then Uint(n.bits % TWO32)
    else if n.isInt64 then Int64(GetInt64(n))
    else Uint64(n.bits)
  }

  /** The integer of an integer event, and the data a document makes of it. */
  predicate IsInteger(n: Number) {
    match n
    case Int(v) => -TWO31 <= v < TWO31
    case Uint(v) => 0 <= v < TWO32
    case Int64(v) => -TWO63 <= v < TWO63
    case Uint64(v) => 0 <= v < TWO64
    case _ => false
  }

  function EventInteger(n: Number): int
    requires IsInteger(n)
  {
    match n
    case Int(v) => v
    case Uint(v) => v
    case Int64(v) => v
    case Uint64(v) => v
  }

  function EventData(n: Number): NumberData
    requires IsInteger(n)
  {
    match n
    case Int(v) => OfInt(v)
    case Uint(v) => OfUint(v)
    case Int64(v) => OfInt64(v)
    case Uint64(v) => OfUint64(v)
  }

  lemma Getters(v: int)
    requires -TWO63 <= v < TWO64
    ensures -TWO31 <= v < TWO31 ==> GetInt(Canonical(v)) == v
    ensures 0 <= v < TWO32 ==> Canonical(v).bits % TWO32 == v
    ensures -TWO63 <= v < TWO63 ==> GetInt64(Canonical(v)) == v
    ensures 0 <= v ==> Canonical(v).bits == v
  {
    if v < 0 {
      assert v % TWO64 == v + TWO64;
      assert (v + TWO64) % TWO32 == v % TWO32 by { Wrap(v); }
    }
  }

  lemma Wrap(v: int)
    ensures (v + TWO64) % TWO32 == v % TWO32
  {
    assert TWO64 == TWO32 * TWO32;
  }

  /** Whatever event an integer travels as, the same data is made of it. */
  lemma EventRoundTrip(n: NumberData, e: Number)
    requires ValidNumber(n)
    ensures IsInteger(NumberEvent(n)) && EventInteger(NumberEvent(n)) == IntegerOf(n)
    ensures IsInteger(e) && EventInteger(e) == IntegerOf(n) ==> EventData(e) == n
  {
    ConstructorsAgree(IntegerOf(n));
    Getters(IntegerOf(n));
    hide GetInt, GetInt64, OfInt, OfUint, OfInt64, OfUint64;
  }

  /** ---- Values ---- */

  /** Strings are their bytes; how they are stored is not part of the value. */
  datatype GenericValue =
    | NullValue
    | BoolValue(b: bool)
    | NumberValue(n: NumberData)
    | StringValue(s: seq<int>)
    | ObjectValue(members: seq<Member>)
    | ArrayValue(elements: seq<GenericValue>)

  datatype Member = Member(name: GenericValue, value: GenericValue)

  predicate IsByteString(s: seq<int>) {
    forall i | 0 <= i < |s| :: 0 <= s[i] < 256
  }

  /** A value without doubles. */
  predicate Valid(v: GenericValue) {
    match v
    case NullValue => true
    case BoolValue(_) => true
    case NumberValue(n) => ValidNumber(n)
    case StringValue(s) => IsByteString(s)
    case ObjectValue(ms) => forall i | 0 <= i < |ms| :: ms[i].name.StringValue? && Valid(ms[i].name) && Valid(ms[i].value)
    case ArrayValue(vs) => forall i | 0 <= i < |vs| :: Valid(vs[i])
  }

  /** How a number is told to the handler: as `Accept` does, or as the parser does on reading its text. */
  function Told(n: NumberData, reread: bool): (e: Number)
    requires ValidNumber(n)
    ensures IsInteger(e) && EventInteger(e) == IntegerOf(n)
  {
    EventRoundTrip(n, NumberEvent(n));
    if !reread then NumberEvent(n)
    else
      var v := IntegerOf(n);
      IntegerEvent(v < 0, if v < 0 then -v else v, 0).n
  }

  /** The events of a value, in order. */
  function EventsOf(v: GenericValue, reread: bool): (es: seq<Event>)
    requires Valid(v)
    ensures es != []
    decreases v, 2
  {
    match v
    case NullValue => [Null]
    case BoolValue(b) => [Bool(b)]
    case NumberValue(n) => [Num(Told(n, reread))]
    case StringValue(s) => [String(s)]
    case ObjectValue(ms) => [StartObject] + MemberEvents(v, |ms|, reread) + [EndObject(|ms|)]
    case ArrayValue(vs) => [StartArray] + ElementEvents(v, |vs|, reread) + [EndArray(|vs|)]
  }

  /** The events of the first k members of an object. */
  function MemberEvents(v: GenericValue, k: nat, reread: bool): seq<Event>
    requires Valid(v) && v.ObjectValue? && k <= |v.members|
    decreases v, 1, k
  {
    if k == 0 then []
    else
      var m := v.members[k - 1];
      MemberEvents(v, k - 1, reread) + ([Key(m.name.s)] + EventsOf(m.value, reread))
  }

  function ElementEvents(v: GenericValue, k: nat, reread: bool): seq<Event>
    requires Valid(v) && v.ArrayValue? && k <= |v.elements|
    decreases v, 1, k
  {
    if k == 0 then [] else ElementEvents(v, k - 1, reread) + EventsOf(v.elements[k - 1], reread)
  }

  /** ---- Building a value from events ---- */

  datatype Built = Stack(values: seq<GenericValue>) | Refused

  /** The 2n values at the top of the stack, as n members: a name and a value each. */
  function Paired(top: seq<GenericValue>): (ms: seq<Member>)
    requires |top| % 2 == 0
    ensures |ms| == |top| / 2
  {
    seq(|top| / 2, i requires 0 <= i < |top| / 2 => Member(top[2 * i], top[2 * i + 1]))
  }

  /** What a document's handler does to its stack; refused where an assertion on the size of the stack would fail, and
      for doubles, which values here do not have. */
  function Handle(stack: seq<GenericValue>, e: Event): Built {
    match e
    case Null => Stack(stack + [NullValue])
    case Bool(b) => Stack(stack + [BoolValue(b)])
    case Num(n) => if IsInteger(n) then Stack(stack + [NumberValue(EventData(n))]) else Refused
    case String(s) => Stack(stack + [StringValue(s)])
    case Key(s) => Stack(stack + [StringValue(s)])
    case StartObject => Stack(stack + [ObjectValue([])])
    case StartArray => Stack(stack + [ArrayValue([])])
    case EndObject(n) =>
      var at := |stack| - 2 * n;
      if at < 1 then Refused else Stack(stack[..at - 1] + [ObjectValue(Paired(stack[at..]))])
    case EndArray(n) =>
      var at := |stack| - n;
      if at < 1 then Refused else Stack(stack[..at - 1] + [ArrayValue(stack[at..])])
  }

  function HandleAll(stack: seq<GenericValue>, events: seq<Event>): Built
    decreases |events|
  {
    if events == [] then Stack(stack)
    else match Handle(stack, events[0])
      case Stack(values) => HandleAll(values, events[1..])
      case Refused => Refused
  }

  lemma {:induction false} HandleJoin(stack: seq<GenericValue>, a: seq<Event>, b: seq<Event>)
    ensures HandleAll(stack, a + b) == if HandleAll(stack, a).Stack? then HandleAll(HandleAll(stack, a).values, b) else Refused
    decreases |a|
  {
    hide Handle;
    if a == [] {
      assert a + b == b;
    } else {
      assert (a + b)[1..] == a[1..] + b;
      if Handle(stack, a[0]).Stack? {
        HandleJoin(Handle(stack, a[0]).values, a[1..], b);
      }
    }
  }

  lemma HandleOne(stack: seq<GenericValue>, e: Event)
    ensures HandleAll(stack, [e]) == Handle(stack, e)
  {
    hide Handle;
    assert [e][1..] == [];
  }

  /** Names and values of the first k members, as they lie on the stack. */
  function Laid(ms: seq<Member>, k: nat): (vs: seq<GenericValue>)
    requires k <= |ms|
    ensures |vs| == 2 * k
    ensures forall i | 0 <= i < k :: vs[2 * i] == ms[i].name && vs[2 * i + 1] == ms[i].value
  {
    if k == 0 then [] else Laid(ms, k - 1) + [ms[k - 1].name, ms[k - 1].value]
  }

  /** THE EVENTS OF A VALUE BUILD THE VALUE: they leave exactly one more value on the stack, and it is that value. */
  lemma {:induction false} EventsBuild(stack: seq<GenericValue>, v: GenericValue, reread: bool)
    requires Valid(v)
    ensures HandleAll(stack, EventsOf(v, reread)) == Stack(stack + [v])
    decreases v, 2
  {
    hide Handle, HandleAll;
    match v
    case NullValue => HandleScalar(stack, v, reread);
    case BoolValue(b) => HandleScalar(stack, v, reread);
    case NumberValue(n) => HandleScalar(stack, v, reread);
    case StringValue(s) => HandleScalar(stack, v, reread);
    case ObjectValue(ms) =>
      var inner := stack + [ObjectValue([])];
      MembersBuild(inner, v, |ms|, reread);
      Enclose(stack, StartObject, inner, MemberEvents(v, |ms|, reread), inner + Laid(ms, |ms|), EndObject(|ms|), v);
    case ArrayValue(vs) =>
      var inner := stack + [ArrayValue([])];
      ElementsBuild(inner, v, |vs|, reread);
      assert vs[..|vs|] == vs;
      Enclose(stack, StartArray, inner, ElementEvents(v, |vs|, reread), inner + vs, EndArray(|vs|), v);
  }

  lemma HandleScalar(stack: seq<GenericValue>, v: GenericValue, reread: bool)
    requires Valid(v) && !v.ObjectValue? && !v.ArrayValue?
    ensures HandleAll(stack, EventsOf(v, reread)) == Stack(stack + [v])
  {
    hide HandleAll;
    HandleOne(stack, EventsOf(v, reread)[0]);
    if v.NumberValue? {
      EventRoundTrip(v.n, Told(v.n, reread));
    }
  }

  /** An opening event, what builds the contents, and the closing event. */
  lemma Enclose(stack: seq<GenericValue>, open: Event, inner: seq<GenericValue>, body: seq<Event>, full: seq<GenericValue>, close: Event, v: GenericValue)
    requires (open == StartObject && v.ObjectValue? && inner == stack + [ObjectValue([])]
              && full == inner + Laid(v.members, |v.members|) && close == EndObject(|v.members|))
             || (open == StartArray && v.ArrayValue? && inner == stack + [ArrayValue([])]
                 && full == inner + v.elements && close == EndArray(|v.elements|))
    requires HandleAll(inner, body) == Stack(full)
    ensures HandleAll(stack, [open] + body + [close]) == Stack(stack + [v])
  {
    hide HandleAll, Laid;
    HandleOne(stack, open);
    HandleOne(full, close);
    HandleJoin(stack, [open], body);
    HandleJoin(stack, [open] + body, [close]);
    Closed(stack, inner, full, v);
  }

  lemma Closed(stack: seq<GenericValue>, inner: seq<GenericValue>, full: seq<GenericValue>, v: GenericValue)
    requires |inner| == |stack| + 1 && inner[..|stack|] == stack
    ensures v.ObjectValue? && full == inner + Laid(v.members, |v.members|) ==>
            Handle(full, EndObject(|v.members|)) == Stack(stack + [v])
    ensures v.ArrayValue? && full == inner + v.elements ==> Handle(full, EndArray(|v.elements|)) == Stack(stack + [v])
  {
    hide Laid;
    if v.ObjectValue? && full == inner + Laid(v.members, |v.members|) {
      var laid := Laid(v.members, |v.members|);
      assert full[|inner|..] == laid && full[..|stack|] == stack;
      assert Paired(laid) == v.members;
    }
    if v.ArrayValue? && full == inner + v.elements {
      assert full[|inner|..] == v.elements && full[..|stack|] == stack;
    }
  }

  lemma {:induction false} MembersBuild(stack: seq<GenericValue>, v: GenericValue, k: nat, reread: bool)
    requires Valid(v) && v.ObjectValue? && k <= |v.members|
    ensures HandleAll(stack, MemberEvents(v, k, reread)) == Stack(stack + Laid(v.members, k))
    decreases v, 1, k
  {
    hide Handle;
    if k == 0 {
      assert stack + [] == stack;
    } else {
      var m, before := v.members[k - 1], stack + Laid(v.members, k - 1);
      MembersBuild(stack, v, k - 1, reread);
      MemberBuilds(before, m, EventsOf(m.value, reread), reread);
      hide HandleAll, Laid;
      HandleJoin(stack, MemberEvents(v, k - 1, reread), [Key(m.name.s)] + EventsOf(m.value, reread));
      LaidMore(stack, v.members, k);
    }
  }

  lemma LaidMore(stack: seq<GenericValue>, ms: seq<Member>, k: nat)
    requires 0 < k <= |ms|
    ensures stack + Laid(ms, k) == stack + Laid(ms, k - 1) + [ms[k - 1].name, ms[k - 1].value]
  {
  }

  lemma {:induction false} MemberBuilds(stack: seq<GenericValue>, m: Member, es: seq<Event>, reread: bool)
    requires m.name.StringValue? && Valid(m.value) && es == EventsOf(m.value, reread)
    ensures HandleAll(stack, [Key(m.name.s)] + es) == Stack(stack + [m.name, m.value])
    decreases m.value, 3
  {
    hide HandleAll, EventsOf;
    HandleOne(stack, Key(m.name.s));
    HandleJoin(stack, [Key(m.name.s)], es);
    EventsBuild(stack + [m.name], m.value, reread);
    assert stack + [m.name] + [m.value] == stack + [m.name, m.value];
  }

  lemma {:induction false} ElementsBuild(stack: seq<GenericValue>, v: GenericValue, k: nat, reread: bool)
    requires Valid(v) && v.ArrayValue? && k <= |v.elements|
    ensures HandleAll(stack, ElementEvents(v, k, reread)) == Stack(stack + v.elements[..k])
    decreases v, 1, k
  {
    hide Handle, EventsOf;
    if k == 0 {
      assert stack + v.elements[..0] == stack;
    } else {
      ElementsBuild(stack, v, k - 1, reread);
      hide HandleAll;
      HandleJoin(stack, ElementEvents(v, k - 1, reread), EventsOf(v.elements[k - 1], reread));
      EventsBuild(stack + v.elements[..k - 1], v.elements[k - 1], reread);
      assert stack + v.elements[..k - 1] + [v.elements[k - 1]] == stack + v.elements[..k];
    }
  }
}
