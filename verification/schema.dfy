/** schema.h: compiled schemas, what they mean of a value, and what the validator does with each event of one. */
module Schemas {
  import opened JsonEvents
  import opened JsonValues
  import opened Wrappers
  import JsonNumbers
  import Utf8

  datatype ValueType = NullType | BooleanType | ObjectType | ArrayType | StringType | NumberType | IntegerType

  /** An integer bound; it fits in one of the 64-bit types. */
  type Bound = x: int | -JsonNumbers.TWO63 <= x < JsonNumbers.TWO64

  const UNLIMITED: nat := 0xFFFF_FFFF

  /** A bound on a number of members, elements or code points: 32 bits. */
  type Count = n: nat | n <= UNLIMITED

  /** A schema, with sub-schemas in place of references to them. Absent keywords have their defaults: every type, no
      bound, empty lists. */
  datatype Schema = Schema(
    types: set<ValueType>,
    minimum: Maybe<Bound>, exclusiveMinimum: bool, maximum: Maybe<Bound>, exclusiveMaximum: bool,
    minLength: Count, maxLength: Count,
    properties: seq<Property>, required: seq<seq<int>>, additionalProperties: Extra, minProperties: Count, maxProperties: Count,
    items: Items, additionalItems: Extra, minItems: Count, maxItems: Count,
    allOf: seq<Schema>, anyOf: seq<Schema>, oneOf: seq<Schema>, negated: Maybe<Schema>)

  datatype Property = Property(name: seq<int>, schema: Schema)

  /** What is allowed beyond the members or elements named. */
  datatype Extra = Allowed | Forbidden | Every(schema: Schema)

  datatype Items = AnyItems | ItemsList(schema: Schema) | ItemsTuple(schemas: seq<Schema>)

  /** `typeless_`, which accepts everything. */
  function Typeless(): Schema {
    Schema({NullType, BooleanType, ObjectType, ArrayType, StringType, NumberType, IntegerType},
           None, false, None, false, 0, UNLIMITED, [], [], Allowed, 0, UNLIMITED, AnyItems, Allowed, 0, UNLIMITED, [], [], [], None)
  }

  /** The schemas validated in parallel, in the order of their validators. */
  function Parallel(s: Schema): (r: seq<Schema>)
    ensures |r| == |s.allOf| + |s.anyOf| + |s.oneOf| + if s.negated.Some? then 1 else 0
    ensures forall i | 0 <= i < |r| :: r[i] < s
  {
    s.allOf + s.anyOf + s.oneOf + if s.negated.Some? then [s.negated.value] else []
  }

  /** ---- The meaning of a schema ---- */

  function Lookup(ps: seq<Property>, name: seq<int>): Maybe<Schema> {
    if ps == [] then None
    else if ps[0].name == name then Some(ps[0].schema)
    else Lookup(ps[1..], name)
  }

  /** What a member or an element is held to. */
  datatype Rule = Never | Must(schema: Schema)

  function ExtraRule(x: Extra): Rule {
    match x
    case Allowed => Must(Typeless())
    case Forbidden => Never
    case Every(s) => Must(s)
  }

  /** The rule for a member: by the standard, or with the one departure of the code, that a required name is a property. */
  function MemberRule(s: Schema, name: seq<int>, standard: bool): Rule {
    match Lookup(s.properties, name)
    case Some(p) => Must(p)
    case None => if !standard && name in s.required then Must(Typeless()) else ExtraRule(s.additionalProperties)
  }

  /** The rule for an element: by the standard, or with the departure that an empty tuple is no tuple. */
  function ItemRule(s: Schema, i: nat, standard: bool): Rule {
    match s.items
    case AnyItems => Must(Typeless())
    case ItemsList(t) => Must(t)
    case ItemsTuple(ts) =>
      if !standard && ts == [] then Must(Typeless())
      else if i < |ts| then Must(ts[i])
      else ExtraRule(s.additionalItems)
  }

  predicate Above(s: Schema, v: int) {
    s.minimum.Some? ==> if s.exclusiveMinimum then v > s.minimum.value else v >= s.minimum.value
  }

  predicate Below(s: Schema, v: int) {
    s.maximum.Some? ==> if s.exclusiveMaximum then v < s.maximum.value else v <= s.maximum.value
  }

  /** The number of code points, if the bytes are UTF-8. */
  function CodePoints(s: seq<int>): Maybe<nat>
    requires Utf8.IsBytes(s)
    decreases |s|
  {
    if s == [] then Some(0)
    else match Utf8.Decode(s)
      case Invalid => None
      case Valid(_, n) =>
        if n == 0 || n > |s| then None
        else match CodePoints(s[n..])
          case None => None
          case Some(k) => Some(k + 1)
  }

  function EncodedAll(cps: seq<int>): (s: seq<int>)
    requires forall i | 0 <= i < |cps| :: Utf8.IsScalar(cps[i])
    ensures Utf8.IsBytes(s)
  {
    if cps == [] then []
    else
      assert Utf8.IsScalar(cps[0]);
      Utf8.Encode(cps[0]) + EncodedAll(cps[1..])
  }

  /** The length of a text is the number of code points it encodes; what encodes none has no length. */
  lemma {:induction false} CodePointsOf(s: seq<int>, n: nat)
    requires Utf8.IsBytes(s)
    ensures CodePoints(s) == Some(n)
       <==> exists cps: seq<int> :: |cps| == n && (forall i | 0 <= i < n :: Utf8.IsScalar(cps[i])) && EncodedAll(cps) == s
    decreases |s|
  {
    hide Utf8.Decode, Utf8.Encode;
    if CodePoints(s) == Some(n) {
      var cps := CodePointsIn(s);
    }
    if exists cps: seq<int> :: |cps| == n && (forall i | 0 <= i < n :: Utf8.IsScalar(cps[i])) && EncodedAll(cps) == s {
      var cps: seq<int> :| |cps| == n && (forall i | 0 <= i < n :: Utf8.IsScalar(cps[i])) && EncodedAll(cps) == s;
      CountEncoded(cps);
    }
  }

  lemma {:induction false} CodePointsIn(s: seq<int>) returns (cps: seq<int>)
    requires Utf8.IsBytes(s) && CodePoints(s).Some?
    ensures |cps| == CodePoints(s).value && (forall i | 0 <= i < |cps| :: Utf8.IsScalar(cps[i])) && EncodedAll(cps) == s
    decreases |s|
  {
    hide Utf8.Decode, Utf8.Encode;
    if s == [] {
      cps := [];
    } else {
      var d := Utf8.Decode(s);
      Utf8.DecodeOnlyEncoded(s);
      var rest := CodePointsIn(s[d.length..]);
      cps := [d.cp] + rest;
      assert cps[1..] == rest;
      assert s[..d.length] + s[d.length..] == s;
    }
  }

  lemma {:induction false} CountEncoded(cps: seq<int>)
    requires forall i | 0 <= i < |cps| :: Utf8.IsScalar(cps[i])
    ensures CodePoints(EncodedAll(cps)) == Some(|cps|)
    decreases |cps|
  {
    hide Utf8.Decode, Utf8.Encode;
    if cps != [] {
      var rest := EncodedAll(cps[1..]);
      CountEncoded(cps[1..]);
      Utf8.DecodeEncoded(cps[0], rest);
      assert (Utf8.Encode(cps[0]) + rest)[|Utf8.Encode(cps[0])|..] == rest;
    }
  }

  /** Only text that decodes has a length to be held to. */
  predicate LengthWithin(s: Schema, text: seq<int>) {
    if !Utf8.IsBytes(text) then true
    else match CodePoints(text)
      case None => true
      case Some(n) => s.minLength <= n <= s.maxLength
  }

  /** Whether a schema accepts a value: by the standard, or with the two departures of the code. */
  ghost predicate Accepts(s: Schema, v: GenericValue, standard: bool)
    requires Valid(v)
    decreases v, 1, s
  {
    && Shape(s, v, standard)
    && (forall i | 0 <= i < |s.allOf| :: Accepts(s.allOf[i], v, standard))
    && (s.anyOf != [] ==> exists i | 0 <= i < |s.anyOf| :: Accepts(s.anyOf[i], v, standard))
    && (s.oneOf != [] ==> exists i | 0 <= i < |s.oneOf| :: Accepts(s.oneOf[i], v, standard)
                            && forall j | 0 <= j < |s.oneOf| && j != i :: !Accepts(s.oneOf[j], v, standard))
    && (s.negated.Some? ==> !Accepts(s.negated.value, v, standard))
  }

  /** The keywords about the value itself, its members and its elements. */
  ghost predicate Shape(s: Schema, v: GenericValue, standard: bool)
    requires Valid(v)
    decreases v, 0
  {
    match v
    case NullValue => NullType in s.types
    case BoolValue(_) => BooleanType in s.types
    case NumberValue(n) => (IntegerType in s.types || NumberType in s.types) && Above(s, IntegerOf(n)) && Below(s, IntegerOf(n))
    case StringValue(t) => StringType in s.types && LengthWithin(s, t)
    case ObjectValue(ms) =>
      && ObjectType in s.types && s.minProperties <= |ms| <= s.maxProperties
      && (forall name | name in s.required :: exists i | 0 <= i < |ms| :: ms[i].name.s == name)
      && (forall i | 0 <= i < |ms| :: Obeys(MemberRule(s, ms[i].name.s, standard), ms[i].value, standard))
    case ArrayValue(vs) =>
      && ArrayType in s.types && s.minItems <= |vs| <= s.maxItems
      && (forall i | 0 <= i < |vs| :: Obeys(ItemRule(s, i, standard), vs[i], standard))
  }

  ghost predicate Obeys(r: Rule, v: GenericValue, standard: bool)
    requires Valid(v)
    decreases v, 2
  {
    r.Must? && Accepts(r.schema, v, standard)
  }

  /** ---- The four combinations ---- */

  ghost predicate All(ss: seq<Schema>, x: GenericValue, standard: bool)
    requires Valid(x)
  {
    forall i | 0 <= i < |ss| :: Accepts(ss[i], x, standard)
  }

  ghost predicate Any(ss: seq<Schema>, x: GenericValue, standard: bool)
    requires Valid(x)
  {
    ss != [] ==> exists i | 0 <= i < |ss| :: Accepts(ss[i], x, standard)
  }

  ghost predicate One(ss: seq<Schema>, x: GenericValue, standard: bool)
    requires Valid(x)
  {
    ss != [] ==> exists i | 0 <= i < |ss| :: Accepts(ss[i], x, standard)
                   && forall j | 0 <= j < |ss| && j != i :: !Accepts(ss[j], x, standard)
  }

  lemma AcceptsIs(s: Schema, x: GenericValue, standard: bool)
    requires Valid(x)
    ensures var others := All(s.allOf, x, standard) && Any(s.anyOf, x, standard) && One(s.oneOf, x, standard);
            Accepts(s, x, standard)
            <==> Shape(s, x, standard) && others && (s.negated.Some? ==> !Accepts(s.negated.value, x, standard))
  {
    hide Shape, Valid;
  }

  /** ---- Where the code keeps to the standard ---- */

  /** At every level, required names are properties unless any name goes, and a tuple is not empty unless any element goes. */
  predicate Regular(s: Schema)
    decreases s, 2
  {
    && (s.additionalProperties.Allowed? || forall i | 0 <= i < |s.required| :: Lookup(s.properties, s.required[i]).Some?)
    && (s.items == ItemsTuple([]) ==> s.additionalItems.Allowed?)
    && RegularBelow(s)
  }

  /** So it is for every schema within. */
  predicate RegularBelow(s: Schema)
    decreases s, 1
  {
    && (forall i | 0 <= i < |s.allOf| :: Regular(s.allOf[i]))
    && (forall i | 0 <= i < |s.anyOf| :: Regular(s.anyOf[i]))
    && (forall i | 0 <= i < |s.oneOf| :: Regular(s.oneOf[i]))
    && (s.negated.Some? ==> Regular(s.negated.value))
    && (forall i | 0 <= i < |s.properties| :: Regular(s.properties[i].schema))
    && RegularExtra(s.additionalProperties) && RegularExtra(s.additionalItems) && RegularItems(s.items)
  }

  predicate RegularExtra(x: Extra)
    decreases x, 0
  {
    x.Every? ==> Regular(x.schema)
  }

  predicate RegularItems(x: Items)
    decreases x, 0
  {
    match x
    case AnyItems => true
    case ItemsList(t) => Regular(t)
    case ItemsTuple(ts) => forall i | 0 <= i < |ts| :: Regular(ts[i])
  }

  lemma {:induction false} LookupRegular(ps: seq<Property>, name: seq<int>)
    requires forall i | 0 <= i < |ps| :: Regular(ps[i].schema)
    ensures Lookup(ps, name).Some? ==> Regular(Lookup(ps, name).value)
    decreases |ps|
  {
    hide Regular;
    if ps != [] && ps[0].name != name {
      LookupRegular(ps[1..], name);
    }
  }

  lemma TypelessRegular()
    ensures Regular(Typeless())
  {
  }

  /** Regular schemas follow the standard's rules, and hold members and elements to regular schemas. */
  lemma MemberRegular(s: Schema, name: seq<int>)
    requires RegularBelow(s)
    ensures Regular(s) ==> MemberRule(s, name, false) == MemberRule(s, name, true)
    ensures MemberRule(s, name, true).Must? ==> Regular(MemberRule(s, name, true).schema)
  {
    hide Lookup, Typeless;
    TypelessRegular();
    LookupRegular(s.properties, name);
  }

  lemma ItemRegular(s: Schema, i: nat)
    requires RegularBelow(s)
    ensures Regular(s) ==> ItemRule(s, i, false) == ItemRule(s, i, true)
    ensures ItemRule(s, i, true).Must? ==> Regular(ItemRule(s, i, true).schema)
  {
    hide Lookup, Typeless;
    TypelessRegular();
  }

  /** FOR REGULAR SCHEMAS, WHAT THE CODE ACCEPTS IS WHAT THE STANDARD ACCEPTS. */
  lemma {:induction false} RegularAgrees(s: Schema, v: GenericValue)
    requires Valid(v) && Regular(s)
    ensures Accepts(s, v, false) <==> Accepts(s, v, true)
    decreases v, s, 2
  {
    hide *;
    ShapeAgrees(s, v);
    RegularIsBelow(s);
    RegularParts(s);
    ListAgrees(s, s.allOf, v);
    ListAgrees(s, s.anyOf, v);
    ListAgrees(s, s.oneOf, v);
    AcceptsIs(s, v, false);
    AcceptsIs(s, v, true);
    if s.negated.Some? {
      RegularAgrees(s.negated.value, v);
    }
  }

  lemma RegularParts(s: Schema)
    requires RegularBelow(s)
    ensures forall i | 0 <= i < |s.allOf| :: Regular(s.allOf[i]) && s.allOf[i] < s
    ensures forall i | 0 <= i < |s.anyOf| :: Regular(s.anyOf[i]) && s.anyOf[i] < s
    ensures forall i | 0 <= i < |s.oneOf| :: Regular(s.oneOf[i]) && s.oneOf[i] < s
    ensures s.negated.Some? ==> Regular(s.negated.value) && s.negated.value < s
  {
    hide Lookup, RegularExtra, RegularItems;
  }

  lemma RegularIsBelow(s: Schema)
    ensures Regular(s) ==> RegularBelow(s)
  {
    hide RegularBelow;
  }

  lemma {:induction false} ListAgrees(s: Schema, ss: seq<Schema>, v: GenericValue)
    requires Valid(v) && forall i | 0 <= i < |ss| :: Regular(ss[i]) && ss[i] < s
    ensures All(ss, v, false) <==> All(ss, v, true)
    ensures Any(ss, v, false) <==> Any(ss, v, true)
    ensures One(ss, v, false) <==> One(ss, v, true)
    decreases v, s, 1
  {
    hide Accepts, Regular, Valid;
    forall i | 0 <= i < |ss|
      ensures Accepts(ss[i], v, false) <==> Accepts(ss[i], v, true)
    {
      RegularAgrees(ss[i], v);
    }
  }

  lemma {:induction false} ShapeAgrees(s: Schema, v: GenericValue)
    requires Valid(v) && Regular(s)
    ensures Shape(s, v, false) <==> Shape(s, v, true)
    decreases v, s, 0
  {
    hide Accepts, MemberRule, ItemRule, LengthWithin, Regular;
    if v.ObjectValue? {
      forall i | 0 <= i < |v.members|
        ensures Obeys(MemberRule(s, v.members[i].name.s, false), v.members[i].value, false)
           <==> Obeys(MemberRule(s, v.members[i].name.s, true), v.members[i].value, true)
      {
        RegularIsBelow(s);
        MemberRegular(s, v.members[i].name.s);
        var r := MemberRule(s, v.members[i].name.s, true);
        if r.Must? {
          RegularAgrees(r.schema, v.members[i].value);
        }
      }
    } else if v.ArrayValue? {
      forall i | 0 <= i < |v.elements|
        ensures Obeys(ItemRule(s, i, false), v.elements[i], false) <==> Obeys(ItemRule(s, i, true), v.elements[i], true)
      {
        RegularIsBelow(s);
        ItemRegular(s, i);
        var r := ItemRule(s, i, true);
        if r.Must? {
          RegularAgrees(r.schema, v.elements[i]);
        }
      }
    }
  }

  /** Only required, and no other member allowed: the standard rejects {"a": null}, the code accepts it. */
  lemma RequiredOnlyAccepted()
    ensures var s := Typeless().(required := [['a' as int]], additionalProperties := Forbidden);
            var v := ObjectValue([Member(StringValue(['a' as int]), NullValue)]);
            Valid(v) && Accepts(s, v, false) && !Accepts(s, v, true)
  {
    var s := Typeless().(required := [['a' as int]], additionalProperties := Forbidden);
    var v := ObjectValue([Member(StringValue(['a' as int]), NullValue)]);
    assert v.members[0].name.s == ['a' as int];
    assert !Obeys(MemberRule(s, v.members[0].name.s, true), v.members[0].value, true);
    assert Obeys(MemberRule(s, v.members[0].name.s, false), v.members[0].value, false);
  }

  /** An empty tuple and no other element allowed: the standard rejects [null], the code accepts it. */
  lemma EmptyTupleAccepted()
    ensures var s := Typeless().(items := ItemsTuple([]), additionalItems := Forbidden);
            var v := ArrayValue([NullValue]);
            Valid(v) && Accepts(s, v, false) && !Accepts(s, v, true)
  {
    var s := Typeless().(items := ItemsTuple([]), additionalItems := Forbidden);
    var v := ArrayValue([NullValue]);
    assert !Obeys(ItemRule(s, 0, true), v.elements[0], true);
    assert Obeys(ItemRule(s, 0, false), v.elements[0], false);
  }
}
