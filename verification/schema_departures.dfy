/** What the two departures of the code amount to: the schema it enforces by the standard's rules, and when the verdict
    on a value is the standard's. */
module SchemaDepartures {
  import opened JsonValues
  import opened Schemas
  import opened Wrappers

  /** ---- The schema that is enforced ---- */

  /** Every required name becomes a property, free if it was none, and an empty tuple no restriction; at every level. */
  function Normal(s: Schema): (r: Schema)
    decreases s, 1
  {
    s.(properties := NormalProperties(s, s.properties) + Freed(s.required),
       additionalProperties := NormalExtra(s.additionalProperties),
       items := NormalItems(s.items),
       additionalItems := NormalExtra(s.additionalItems),
       allOf := NormalAll(s, s.allOf), anyOf := NormalAll(s, s.anyOf), oneOf := NormalAll(s, s.oneOf),
       negated := if s.negated.None? then None else Some(Normal(s.negated.value)))
  }

  function NormalAll(s: Schema, ss: seq<Schema>): (rs: seq<Schema>)
    requires forall i | 0 <= i < |ss| :: ss[i] < s
    ensures |rs| == |ss| && forall i | 0 <= i < |ss| :: rs[i] == Normal(ss[i])
    decreases s, 0, |ss|
  {
    if ss == [] then [] else [Normal(ss[0])] + NormalAll(s, ss[1..])
  }

  function NormalProperties(s: Schema, ps: seq<Property>): (rs: seq<Property>)
    requires forall i | 0 <= i < |ps| :: ps[i].schema < s
    ensures |rs| == |ps| && forall i | 0 <= i < |ps| :: rs[i] == Property(ps[i].name, Normal(ps[i].schema))
    decreases s, 0, |ps|
  {
    if ps == [] then [] else [Property(ps[0].name, Normal(ps[0].schema))] + NormalProperties(s, ps[1..])
  }

  function Freed(names: seq<seq<int>>): (rs: seq<Property>)
    ensures |rs| == |names| && forall i | 0 <= i < |names| :: rs[i] == Property(names[i], Typeless())
  {
    seq(|names|, i requires 0 <= i < |names| => Property(names[i], Typeless()))
  }

  function NormalExtra(x: Extra): Extra
    decreases x, 0
  {
    if x.Every? then Every(Normal(x.schema)) else x
  }

  function NormalItems(x: Items): Items
    decreases x, 0
  {
    match x
    case AnyItems => AnyItems
    case ItemsList(t) => ItemsList(Normal(t))
    case ItemsTuple(ts) => if ts == [] then AnyItems else ItemsTuple(NormalTuple(x, ts))
  }

  function NormalTuple(x: Items, ts: seq<Schema>): (rs: seq<Schema>)
    requires forall i | 0 <= i < |ts| :: ts[i] < x
    ensures |rs| == |ts| && forall i | 0 <= i < |ts| :: rs[i] == Normal(ts[i])
    decreases x, 0, |ts|
  {
    if ts == [] then [] else [Normal(ts[0])] + NormalTuple(x, ts[1..])
  }

  /** ---- Its rules ---- */

  lemma {:induction false} LookupJoin(ps: seq<Property>, qs: seq<Property>, name: seq<int>)
    ensures Lookup(ps + qs, name) == if Lookup(ps, name).Some? then Lookup(ps, name) else Lookup(qs, name)
    decreases |ps|
  {
    if ps == [] {
      assert ps + qs == qs;
    } else {
      assert (ps + qs)[1..] == ps[1..] + qs;
      LookupJoin(ps[1..], qs, name);
    }
  }

  lemma {:induction false} LookupNormal(s: Schema, ps: seq<Property>, name: seq<int>)
    requires forall i | 0 <= i < |ps| :: ps[i].schema < s
    ensures var r := Lookup(ps, name);
            Lookup(NormalProperties(s, ps), name) == if r.None? then None else Some(Normal(r.value))
    decreases |ps|
  {
    hide Normal;
    if ps != [] {
      LookupNormal(s, ps[1..], name);
      assert NormalProperties(s, ps)[1..] == NormalProperties(s, ps[1..]);
    }
  }

  lemma {:induction false} LookupFreed(names: seq<seq<int>>, name: seq<int>)
    ensures Lookup(Freed(names), name) == if name in names then Some(Typeless()) else None
    decreases |names|
  {
    hide Typeless;
    if names != [] {
      LookupFreed(names[1..], name);
      assert Freed(names)[1..] == Freed(names[1..]);
    }
  }

  /** The rule of the code and that of the standard for the schema enforced. */
  ghost predicate SameRule(code: Rule, standard: Rule) {
    || (code.Never? && standard.Never?)
    || (code.Must? && standard.Must? && (standard.schema == Normal(code.schema) || code == standard == Must(Typeless())))
  }

  lemma NormalMember(s: Schema, name: seq<int>)
    ensures SameRule(MemberRule(s, name, false), MemberRule(Normal(s), name, true))
  {
    hide Lookup, Typeless, NormalProperties, Freed, NormalAll, NormalItems;
    LookupNormal(s, s.properties, name);
    LookupFreed(s.required, name);
    LookupJoin(NormalProperties(s, s.properties), Freed(s.required), name);
  }

  lemma NormalItem(s: Schema, i: nat)
    ensures SameRule(ItemRule(s, i, false), ItemRule(Normal(s), i, true))
  {
    hide Typeless, NormalProperties, Freed, NormalAll;
  }

  /** ---- Its meaning ---- */

  /** THE CODE ENFORCES, FOR EVERY SCHEMA AND VALUE, the standard's meaning of the normal schema. */
  lemma {:induction false} NormalMeaning(s: Schema, v: GenericValue)
    requires Valid(v)
    ensures Accepts(s, v, false) <==> Accepts(Normal(s), v, true)
    decreases v, s, 2
  {
    hide *;
    NormalShape(s, v);
    NormalParts(s);
    NormalList(s, s.allOf, v);
    NormalList(s, s.anyOf, v);
    NormalList(s, s.oneOf, v);
    AcceptsIs(s, v, false);
    AcceptsIs(Normal(s), v, true);
    if s.negated.Some? {
      NormalMeaning(s.negated.value, v);
    }
  }

  lemma NormalParts(s: Schema)
    ensures forall i | 0 <= i < |s.allOf| :: s.allOf[i] < s
    ensures forall i | 0 <= i < |s.anyOf| :: s.anyOf[i] < s
    ensures forall i | 0 <= i < |s.oneOf| :: s.oneOf[i] < s
    ensures s.negated.Some? ==> s.negated.value < s
    ensures Normal(s).allOf == NormalAll(s, s.allOf) && Normal(s).anyOf == NormalAll(s, s.anyOf) && Normal(s).oneOf == NormalAll(s, s.oneOf)
    ensures Normal(s).negated == if s.negated.None? then None else Some(Normal(s.negated.value))
  {
    hide NormalAll, NormalProperties, Freed, NormalExtra, NormalItems;
  }

  lemma {:induction false} NormalList(s: Schema, ss: seq<Schema>, v: GenericValue)
    requires Valid(v) && forall i | 0 <= i < |ss| :: ss[i] < s
    ensures All(ss, v, false) <==> All(NormalAll(s, ss), v, true)
    ensures Any(ss, v, false) <==> Any(NormalAll(s, ss), v, true)
    ensures One(ss, v, false) <==> One(NormalAll(s, ss), v, true)
    decreases v, s, 1
  {
    hide *;
    forall i | 0 <= i < |ss|
      ensures Accepts(ss[i], v, false) <==> Accepts(NormalAll(s, ss)[i], v, true)
    {
      NormalMeaning(ss[i], v);
    }
    SameList(ss, NormalAll(s, ss), v);
  }

  lemma SameList(ss: seq<Schema>, rs: seq<Schema>, v: GenericValue)
    requires Valid(v) && |rs| == |ss| && forall i | 0 <= i < |ss| :: Accepts(ss[i], v, false) <==> Accepts(rs[i], v, true)
    ensures All(ss, v, false) <==> All(rs, v, true)
    ensures Any(ss, v, false) <==> Any(rs, v, true)
    ensures One(ss, v, false) <==> One(rs, v, true)
  {
    hide Accepts, Valid;
  }

  lemma {:induction false} SameRuleObeyed(x: GenericValue, code: Rule, standard: Rule)
    requires Valid(x) && SameRule(code, standard)
    ensures Obeys(code, x, false) <==> Obeys(standard, x, true)
    decreases x, code
  {
    hide Accepts, Normal, Typeless, Valid;
    if code.Must? {
      if standard.schema == Normal(code.schema) {
        NormalMeaning(code.schema, x);
      } else {
        TypelessRegular();
        RegularAgrees(Typeless(), x);
      }
    }
  }

  lemma {:induction false} NormalShape(s: Schema, v: GenericValue)
    requires Valid(v)
    ensures Shape(s, v, false) <==> Shape(Normal(s), v, true)
    decreases v, s, 0
  {
    hide Obeys, MemberRule, ItemRule, LengthWithin, SameRule, Normal;
    NormalBounds(s);
    if v.StringValue? {
      NormalLength(s, v.s);
    } else if v.ObjectValue? {
      forall i | 0 <= i < |v.members|
        ensures Obeys(MemberRule(s, v.members[i].name.s, false), v.members[i].value, false)
           <==> Obeys(MemberRule(Normal(s), v.members[i].name.s, true), v.members[i].value, true)
      {
        NormalMember(s, v.members[i].name.s);
        SameRuleObeyed(v.members[i].value, MemberRule(s, v.members[i].name.s, false), MemberRule(Normal(s), v.members[i].name.s, true));
      }
    } else if v.ArrayValue? {
      forall i | 0 <= i < |v.elements|
        ensures Obeys(ItemRule(s, i, false), v.elements[i], false) <==> Obeys(ItemRule(Normal(s), i, true), v.elements[i], true)
      {
        NormalItem(s, i);
        SameRuleObeyed(v.elements[i], ItemRule(s, i, false), ItemRule(Normal(s), i, true));
      }
    }
  }

  lemma NormalBounds(s: Schema)
    ensures var r := Normal(s);
            && r.types == s.types && r.minimum == s.minimum && r.exclusiveMinimum == s.exclusiveMinimum
            && r.maximum == s.maximum && r.exclusiveMaximum == s.exclusiveMaximum
            && r.minLength == s.minLength && r.maxLength == s.maxLength
            && r.required == s.required && r.minProperties == s.minProperties && r.maxProperties == s.maxProperties
            && r.minItems == s.minItems && r.maxItems == s.maxItems
  {
    hide NormalAll, NormalProperties, Freed, NormalExtra, NormalItems;
  }

  lemma NormalLength(s: Schema, text: seq<int>)
    ensures LengthWithin(s, text) == LengthWithin(Normal(s), text)
  {
    hide Normal, CodePoints;
    NormalBounds(s);
  }

  /** ---- When the verdict is the standard's ---- */

  /** A member or an element that the code lets through and the standard holds to the rule for additional ones, which it
      fails. */
  ghost predicate BreaksExtra(s: Schema, v: GenericValue)
    requires Valid(v)
  {
    match v
    case ObjectValue(ms) =>
      exists i | 0 <= i < |ms| ::
        && Lookup(s.properties, ms[i].name.s).None? && ms[i].name.s in s.required
        && !Obeys(ExtraRule(s.additionalProperties), ms[i].value, true)
    case ArrayValue(vs) =>
      s.items == ItemsTuple([]) && exists i | 0 <= i < |vs| :: !Obeys(ExtraRule(s.additionalItems), vs[i], true)
    case _ => false
  }

  /** What any schema accepts, the empty one does. */
  lemma {:induction false} TypelessWeakest(t: Schema, v: GenericValue, standard: bool)
    requires Valid(v) && Accepts(t, v, standard)
    ensures Accepts(Typeless(), v, standard)
    decreases v, 1
  {
    hide *;
    AcceptsIs(t, v, standard);
    TypelessWeakestShape(t, v, standard);
    TypelessIs(v, standard);
  }

  lemma TypelessIs(v: GenericValue, standard: bool)
    requires Valid(v)
    ensures Shape(Typeless(), v, standard) ==> Accepts(Typeless(), v, standard)
  {
    hide Shape, Valid;
  }

  lemma {:induction false} TypelessWeakestShape(t: Schema, v: GenericValue, standard: bool)
    requires Valid(v) && Shape(t, v, standard)
    ensures Shape(Typeless(), v, standard)
    decreases v, 0
  {
    hide Accepts, MemberRule, ItemRule, CodePoints;
    if v.ObjectValue? {
      forall i | 0 <= i < |v.members|
        ensures Obeys(MemberRule(Typeless(), v.members[i].name.s, standard), v.members[i].value, standard)
      {
        TypelessRules(v.members[i].name.s, 0, standard);
        TypelessWeakest(MemberRule(t, v.members[i].name.s, standard).schema, v.members[i].value, standard);
      }
    } else if v.ArrayValue? {
      forall i | 0 <= i < |v.elements|
        ensures Obeys(ItemRule(Typeless(), i, standard), v.elements[i], standard)
      {
        TypelessRules([], i, standard);
        TypelessWeakest(ItemRule(t, i, standard).schema, v.elements[i], standard);
      }
    }
  }

  lemma TypelessRules(name: seq<int>, i: nat, standard: bool)
    ensures MemberRule(Typeless(), name, standard) == ItemRule(Typeless(), i, standard) == Must(Typeless())
  {
  }

  /** One member: the two rules agree on its value unless it departs and fails the rule for additional ones. */
  lemma MemberVerdicts(s: Schema, name: seq<int>, x: GenericValue)
    requires RegularBelow(s) && Valid(x)
    ensures Obeys(MemberRule(s, name, true), x, true)
       <==> (Obeys(MemberRule(s, name, false), x, false)
            && !(Lookup(s.properties, name).None? && name in s.required && !Obeys(ExtraRule(s.additionalProperties), x, true)))
  {
    hide Lookup, Accepts, Typeless, RegularBelow, Regular, Valid;
    MemberRegular(s, name);
    var r := MemberRule(s, name, true);
    if r.Must? {
      RegularAgrees(r.schema, x);
      if Accepts(r.schema, x, false) {
        TypelessWeakest(r.schema, x, false);
      }
    }
  }

  lemma ItemVerdicts(s: Schema, i: nat, x: GenericValue)
    requires RegularBelow(s) && Valid(x)
    ensures Obeys(ItemRule(s, i, true), x, true)
       <==> (Obeys(ItemRule(s, i, false), x, false)
            && !(s.items == ItemsTuple([]) && !Obeys(ExtraRule(s.additionalItems), x, true)))
  {
    hide Accepts, Typeless, RegularBelow, Regular, Valid;
    ItemRegular(s, i);
    var r := ItemRule(s, i, true);
    if r.Must? {
      RegularAgrees(r.schema, x);
      if Accepts(r.schema, x, false) {
        TypelessWeakest(r.schema, x, false);
      }
    }
  }

  lemma ShapeVerdicts(s: Schema, v: GenericValue)
    requires RegularBelow(s) && Valid(v)
    ensures Shape(s, v, true) <==> Shape(s, v, false) && !BreaksExtra(s, v)
  {
    hide Lookup, Obeys, MemberRule, ItemRule, ExtraRule, RegularBelow, LengthWithin;
    if v.ObjectValue? {
      forall i | 0 <= i < |v.members|
        ensures Obeys(MemberRule(s, v.members[i].name.s, true), v.members[i].value, true)
           <==> (Obeys(MemberRule(s, v.members[i].name.s, false), v.members[i].value, false)
                && !(Lookup(s.properties, v.members[i].name.s).None? && v.members[i].name.s in s.required
                     && !Obeys(ExtraRule(s.additionalProperties), v.members[i].value, true)))
      {
        MemberVerdicts(s, v.members[i].name.s, v.members[i].value);
      }
    } else if v.ArrayValue? {
      forall i | 0 <= i < |v.elements|
        ensures Obeys(ItemRule(s, i, true), v.elements[i], true)
           <==> (Obeys(ItemRule(s, i, false), v.elements[i], false)
                && !(s.items == ItemsTuple([]) && !Obeys(ExtraRule(s.additionalItems), v.elements[i], true)))
      {
        ItemVerdicts(s, i, v.elements[i]);
      }
    }
  }

  /** THE VERDICT OF THE CODE IS THE STANDARD'S, for a schema with regular parts, EXACTLY UNLESS the value is right for
      the normal schema and one of its members that is required without being a property, or one of its elements beyond
      an empty tuple, fails the rule for additional ones; and it is never stricter. */
  lemma VerdictsAgreeIff(s: Schema, v: GenericValue)
    requires RegularBelow(s) && Valid(v)
    ensures (Accepts(s, v, false) <==> Accepts(s, v, true)) <==> !(Accepts(Normal(s), v, true) && BreaksExtra(s, v))
    ensures Accepts(s, v, true) ==> Accepts(s, v, false)
  {
    hide *;
    NormalMeaning(s, v);
    ShapeVerdicts(s, v);
    RegularParts(s);
    ListAgrees(s, s.allOf, v);
    ListAgrees(s, s.anyOf, v);
    ListAgrees(s, s.oneOf, v);
    if s.negated.Some? {
      RegularAgrees(s.negated.value, v);
    }
    AcceptsIs(s, v, false);
    AcceptsIs(s, v, true);
  }

  /** ---- The normal schema is regular itself ---- */

  lemma {:induction false} NormalRegular(s: Schema)
    ensures Regular(Normal(s))
    decreases s, 1
  {
    hide Lookup, RegularBelow, NormalAll, NormalExtra, NormalProperties, Freed;
    NormalBelow(s);
    forall i | 0 <= i < |s.required| ensures Lookup(Normal(s).properties, s.required[i]).Some? {
      LookupFreed(s.required, s.required[i]);
      LookupJoin(NormalProperties(s, s.properties), Freed(s.required), s.required[i]);
    }
  }

  lemma {:induction false} NormalBelow(s: Schema)
    ensures RegularBelow(Normal(s))
    decreases s, 0
  {
    hide Lookup, Regular, Typeless, RegularExtra, RegularItems, NormalAll, NormalProperties, Freed, NormalExtra, NormalItems;
    forall i | 0 <= i < |s.allOf| ensures Regular(Normal(s).allOf[i]) {
      NormalRegular(s.allOf[i]);
    }
    forall i | 0 <= i < |s.anyOf| ensures Regular(Normal(s).anyOf[i]) {
      NormalRegular(s.anyOf[i]);
    }
    forall i | 0 <= i < |s.oneOf| ensures Regular(Normal(s).oneOf[i]) {
      NormalRegular(s.oneOf[i]);
    }
    if s.negated.Some? {
      NormalRegular(s.negated.value);
    }
    NormalPropertiesRegular(s);
    NormalExtraRegular(s.additionalProperties);
    NormalExtraRegular(s.additionalItems);
    NormalItemsRegular(s.items);
  }

  lemma {:induction false} NormalPropertiesRegular(s: Schema)
    ensures forall i | 0 <= i < |Normal(s).properties| :: Regular(Normal(s).properties[i].schema)
    decreases s, 0, 0
  {
    hide Regular, Typeless, NormalExtra, NormalItems, NormalAll;
    TypelessRegular();
    forall i | 0 <= i < |s.properties| ensures Regular(Normal(s.properties[i].schema)) {
      NormalRegular(s.properties[i].schema);
    }
  }

  lemma {:induction false} NormalExtraRegular(x: Extra)
    ensures RegularExtra(NormalExtra(x))
    decreases x, 0
  {
    hide Regular, Normal;
    if x.Every? {
      NormalRegular(x.schema);
    }
  }

  lemma {:induction false} NormalItemsRegular(x: Items)
    ensures RegularItems(NormalItems(x))
    decreases x, 0
  {
    hide Regular, Normal;
    match x
    case AnyItems =>
    case ItemsList(t) => NormalRegular(t);
    case ItemsTuple(ts) =>
      forall i | 0 <= i < |ts| ensures Regular(Normal(ts[i])) {
        NormalRegular(ts[i]);
      }
  }
}
