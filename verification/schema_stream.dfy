/** The state of GenericSchemaValidator, and what each event does to it: a stack of contexts, each with the validators
    that run in parallel with it. */
module SchemaStream {
  import opened JsonEvents
  import opened JsonValues
  import opened Schemas
  import opened Wrappers

  /** An entry of `properties_`: every property and every required name, once. */
  datatype Entry = Entry(name: seq<int>, schema: Schema, required: bool)

  /** `SchemaValidationContext`, for one value being validated. The array `propertyExist` is empty unless required
      names are to be found. */
  datatype Context = Context(schema: Schema, inArray: bool, arrayElementIndex: nat, valueSchema: Maybe<Schema>,
                             validators: seq<Validator>, propertyExist: seq<bool>)

  /** A validator while it is valid: its root and `schemaStack_`. Nothing of one that has failed is read again. */
  datatype Validator = Running(root: Schema, stack: seq<Context>) | Failed

  function New(s: Schema): Validator {
    Running(s, [])
  }

  /** ---- The schema's table of properties ---- */

  /** `AddUniqueElement`, for a list of names. */
  function Unique(names: seq<seq<int>>): (r: seq<seq<int>>)
  {
    if names == [] then []
    else
      var r, last := Unique(names[..|names| - 1]), names[|names| - 1];
      if last in r then r else r + [last]
  }

  function Names(s: Schema): seq<seq<int>> {
    seq(|s.properties|, i requires 0 <= i < |s.properties| => s.properties[i].name) + s.required
  }

  function EntryFor(s: Schema, name: seq<int>): Entry {
    Entry(name, match Lookup(s.properties, name) case Some(p) => p case None => Typeless(), name in s.required)
  }

  function Table(s: Schema): (t: seq<Entry>)
    ensures |t| == |Unique(Names(s))|
  {
    var names := Unique(Names(s));
    seq(|names|, i requires 0 <= i < |names| => EntryFor(s, names[i]))
  }

  /** `FindPropertyIndex`; the number of entries when there is none. */
  function FindFrom(t: seq<Entry>, name: seq<int>, i: nat): (r: nat)
    requires i <= |t|
    ensures i <= r <= |t| && (r < |t| ==> t[r].name == name) && forall k | i <= k < r :: t[k].name != name
    decreases |t| - i
  {
    if i == |t| || t[i].name == name then i else FindFrom(t, name, i + 1)
  }

  /** ---- What a schema checks ---- */

  /** `CheckInt`, by the types of the bounds. */
  predicate CheckInt(s: Schema, i: int) {
    && (IntegerType in s.types || NumberType in s.types)
    && (match s.minimum
        case None => true
        case Some(m) => m < JsonNumbers.TWO63 && if s.exclusiveMinimum then i > m else i >= m)
    && (match s.maximum
        case None => true
        case Some(m) => m >= JsonNumbers.TWO63 || if s.exclusiveMaximum then i < m else i <= m)
  }

  /** `CheckUint` */
  predicate CheckUint(s: Schema, i: int) {
    && (IntegerType in s.types || NumberType in s.types)
    && (match s.minimum
        case None => true
        case Some(m) => m < 0 || if s.exclusiveMinimum then i > m else i >= m)
    && (match s.maximum
        case None => true
        case Some(m) => m >= 0 && if s.exclusiveMaximum then i < m else i <= m)
  }

  /** THE CHECKS OF INTEGERS come to comparing with the bounds, whichever event the integer travels as. */
  lemma ChecksCompare(s: Schema, n: Number)
    requires IsInteger(n)
    ensures (if n.Int? || n.Int64? then CheckInt(s, n.i) else CheckUint(s, n.i))
       <==> (IntegerType in s.types || NumberType in s.types) && Above(s, EventInteger(n)) && Below(s, EventInteger(n))
  {
  }

  /** The check a schema makes when a value starts. Doubles are not part of the model, and are refused. */
  predicate Opens(s: Schema, e: Event) {
    match e
    case Null => NullType in s.types
    case Bool(_) => BooleanType in s.types
    case Num(n) =>
      (match n
       case Int(i) => CheckInt(s, i)
       case Int64(i) => CheckInt(s, i)
       case Uint(i) => CheckUint(s, i)
       case Uint64(i) => CheckUint(s, i)
       case Double(_) => false
       case RawNumber(text) => StringType in s.types && LengthWithin(s, text))
    case String(text) => StringType in s.types && LengthWithin(s, text)
    case StartObject => ObjectType in s.types
    case StartArray => ArrayType in s.types
    case _ => false
  }

  /** The context of a value that a schema has let start, before the validators see the event. */
  function Opened(s: Schema, e: Event, validators: seq<Validator>): Context {
    Context(s, e.StartArray?, 0, None, validators,
            if e.StartObject? && s.required != [] then seq(|Table(s)|, i => false) else [])
  }

  /** `Schema::BeginValue`: what an element of an array is held to. */
  function BeginElement(c: Context): Maybe<Context> {
    if !c.inArray then Some(c)
    else
      var s := c.schema;
      var chosen :=
        match s.items
        case ItemsList(t) => Some(t)
        case AnyItems => Some(Typeless())
        case ItemsTuple(ts) =>
          if ts == [] then Some(Typeless())
          else if c.arrayElementIndex < |ts| then Some(ts[c.arrayElementIndex])
          else match s.additionalItems
            case Every(t) => Some(t)
            case Allowed => Some(Typeless())
            case Forbidden => None;
      if chosen.None? then None
      else Some(c.(valueSchema := chosen, arrayElementIndex := c.arrayElementIndex + 1))
  }

  /** `Schema::Key` */
  function BeginMember(c: Context, name: seq<int>): Maybe<Context> {
    var s, t := c.schema, Table(c.schema);
    var index := FindFrom(t, name, 0);
    if index < |t| then
      Some(c.(valueSchema := Some(t[index].schema),
              propertyExist := if index < |c.propertyExist| then c.propertyExist[index := true] else c.propertyExist))
    else match s.additionalProperties
      case Every(x) => Some(c.(valueSchema := Some(x)))
      case Allowed => Some(c.(valueSchema := Some(Typeless())))
      case Forbidden => None
  }

  /** `Schema::EndObject` */
  predicate EndsObject(c: Context, memberCount: nat) {
    var t := Table(c.schema);
    && (c.schema.required != [] ==> forall i | 0 <= i < |t| && t[i].required :: i < |c.propertyExist| && c.propertyExist[i])
    && c.schema.minProperties <= memberCount <= c.schema.maxProperties
  }

  /** `Schema::EndArray` */
  predicate EndsArray(c: Context, elementCount: nat) {
    c.schema.minItems <= elementCount <= c.schema.maxItems
  }

  /** Exactly one is true. */
  predicate Single(flags: seq<bool>) {
    exists i | 0 <= i < |flags| :: flags[i] && forall j | 0 <= j < |flags| && j != i :: !flags[j]
  }

  /** `Schema::EndValue`, on the verdicts of the parallel validators. */
  predicate Combined(s: Schema, valid: seq<bool>)
    requires |valid| == |Parallel(s)|
  {
    var a, b, c := |s.allOf|, |s.allOf| + |s.anyOf|, |s.allOf| + |s.anyOf| + |s.oneOf|;
    && false !in valid[0..a]
    && (s.anyOf != [] ==> true in valid[a..b])
    && (s.oneOf != [] ==> Single(valid[b..c]))
    && (s.negated.Some? ==> !valid[c])
  }

  function Verdicts(validators: seq<Validator>): (r: seq<bool>)
    ensures |r| == |validators|
  {
    seq(|validators|, i requires 0 <= i < |validators| => validators[i].Running?)
  }

  predicate EndsValue(c: Context) {
    |c.validators| == |Parallel(c.schema)| && Combined(c.schema, Verdicts(c.validators))
  }

  /** ---- Events ---- */

  predicate StartsValue(e: Event) {
    e.Null? || e.Bool? || e.Num? || e.String? || e.StartObject? || e.StartArray?
  }

  predicate IsScalar(e: Event) {
    e.Null? || e.Bool? || e.Num? || e.String?
  }

  /** The validators of a schema after their first event. */
  function Firsts(s: Schema, e: Event): (r: seq<Validator>)
    ensures |r| == |Parallel(s)|
    decreases s, 0
  {
    seq(|Parallel(s)|, i requires 0 <= i < |Parallel(s)| => First(Parallel(s)[i], e))
  }

  /** A new validator after its first event. */
  function First(s: Schema, e: Event): Validator
    decreases s, 1
  {
    Entered(s, [], s, e, Firsts(s, e))
  }

  /** Entering a value with schema s, below the contexts given. */
  function Entered(root: Schema, below: seq<Context>, s: Schema, e: Event, validators: seq<Validator>): Validator {
    if !Opens(s, e) then Failed
    else
      var c := Opened(s, e, validators);
      if !IsScalar(e) then Running(root, below + [c])
      else if EndsValue(c) then Running(root, below)
      else Failed
  }

  /** An event passed to the parallel validators of every context. */
  function Passed(cs: seq<Context>, e: Event): (r: seq<Context>)
    ensures |r| == |cs|
    decreases cs, 1
  {
    seq(|cs|, i requires 0 <= i < |cs| => PassedTo(cs[i], e))
  }

  function PassedTo(c: Context, e: Event): Context
    decreases c, 1
  {
    c.(validators := StepAll(c.validators, e))
  }

  function StepAll(vs: seq<Validator>, e: Event): (r: seq<Validator>)
    ensures |r| == |vs|
    decreases vs, 1
  {
    seq(|vs|, i requires 0 <= i < |vs| => Advance(vs[i], e))
  }

  /** What an event does to a validator. */
  function Advance(v: Validator, e: Event): Validator
    decreases v, 2
  {
    match v
    case Failed => Failed
    case Running(root, stack) =>
      var n := |stack|;
      if StartsValue(e) then
        if n == 0 then First(root, e)
        else
          var cs := Passed(stack, e);
          var begun := BeginElement(cs[n - 1]);
          if begun.None? || begun.value.valueSchema.None? then Failed
          else
            var s := begun.value.valueSchema.value;
            Entered(root, cs[..n - 1] + [begun.value], s, e, Firsts(s, e))
      else if n == 0 then Failed
      else
        var cs := Passed(stack, e);
        var top := cs[n - 1];
        match e
        case Key(name) =>
          (match BeginMember(top, name)
           case None => Failed
           case Some(c) => Running(root, cs[..n - 1] + [c]))
        case EndObject(k) => if EndsObject(top, k) && EndsValue(top) then Running(root, cs[..n - 1]) else Failed
        case EndArray(k) => if EndsArray(top, k) && EndsValue(top) then Running(root, cs[..n - 1]) else Failed
        case _ => Failed
  }

  /** What a run of events does. */
  function Run(v: Validator, es: seq<Event>): Validator
    decreases |es|
  {
    if es == [] then v else Advance(Run(v, es[..|es| - 1]), es[|es| - 1])
  }
}
