/** Which JSON values become bags without an error, and what of the value the bag then holds. */
module PropertyBagMeaning {
  import opened JsonValues
  import opened PropertyBags
  import opened Wrappers

  /** ---- Scalars ---- */

  /** NOTHING BUT THE VALUE WRITTEN FOR IT is recognised as a typed scalar, and that one always is. */
  lemma TypedExactly(tag: TypeTag, v: GenericValue, s: Scalar)
    requires Valid(v)
    ensures Typed(tag, v) == Some(s) <==> TagOf(s) == tag && InType(s) && ScalarValue(s) == v
  {
    if Typed(tag, v) == Some(s) {
      TypedOnly(tag, v);
    }
    if TagOf(s) == tag && InType(s) && ScalarValue(s) == v {
      TypedBack(s);
    }
  }

  lemma TypedOnly(tag: TypeTag, v: GenericValue)
    requires Valid(v) && Typed(tag, v).Some?
    ensures var s := Typed(tag, v).value; TagOf(s) == tag && InType(s) && ScalarValue(s) == v
  {
    if v.NumberValue? {
      Getters(IntegerOf(v.n));
      hide GetInt, GetInt64;
    }
  }

  /** The value of a scalar of the type. */
  ghost predicate HasType(tag: TypeTag, v: GenericValue) {
    exists s :: TagOf(s) == tag && InType(s) && ScalarValue(s) == v
  }

  lemma TypedIff(tag: TypeTag, v: GenericValue)
    requires Valid(v)
    ensures Typed(tag, v).Some? <==> HasType(tag, v)
  {
    hide Typed, TagOf, InType, ScalarValue;
    if Typed(tag, v).Some? {
      TypedExactly(tag, v, Typed(tag, v).value);
    }
    if HasType(tag, v) {
      var s :| TagOf(s) == tag && InType(s) && ScalarValue(s) == v;
      TypedExactly(tag, v, s);
    }
  }

  /** ---- Values without errors ---- */

  /** Registered with a type that holds it, at every level; an array with the type of its items. */
  ghost predicate Fits(reg: Registry, name: seq<int>, v: GenericValue)
    requires Valid(v)
    decreases v, 1
  {
    match v
    case ObjectValue(ms) => forall i | 0 <= i < |ms| :: Fits(reg, CString(ms[i].name.s), ms[i].value)
    case ArrayValue(vs) =>
      && name in reg.byName && reg.byName[name].tag == ArrayType
      && forall i | 0 <= i < |vs| :: FitsItem(reg, reg.byName[name].base, vs[i])
    case _ => name in reg.byName && HasType(reg.byName[name].tag, v)
  }

  /** An item is a scalar of the type or an object. */
  ghost predicate FitsItem(reg: Registry, base: TypeTag, v: GenericValue)
    requires Valid(v)
    decreases v, 2
  {
    match v
    case ObjectValue(_) => Fits(reg, [], v)
    case ArrayValue(_) => false
    case _ => HasType(base, v)
  }

  /** AN ERROR IS REPORTED EXACTLY WHEN something does not fit. */
  lemma {:induction false} ErrorsIff(reg: Registry, name: seq<int>, v: GenericValue)
    requires Valid(v)
    ensures BagFrom(reg, name, v).errors == 0 <==> Fits(reg, name, v)
    decreases v, 1
  {
    hide Typed, HasType, TableFrom, ItemsFrom, CString, FitsItem;
    match v
    case ObjectValue(ms) => TableErrors(reg, v, |ms|);
    case ArrayValue(vs) =>
      if name in reg.byName && reg.byName[name].tag == ArrayType {
        ItemsErrors(reg, reg.byName[name].base, v, |vs|);
      }
    case _ =>
      if name in reg.byName {
        TypedIff(reg.byName[name].tag, v);
      }
  }

  lemma {:induction false} TableErrors(reg: Registry, v: GenericValue, k: nat)
    requires Valid(v) && v.ObjectValue? && k <= |v.members|
    ensures TableFrom(reg, v, k).errors == 0 <==> forall i | 0 <= i < k :: Fits(reg, CString(v.members[i].name.s), v.members[i].value)
    decreases v, 0, k
  {
    hide BagFrom, TableFrom, Fits, CString, Inserted;
    TableStep(reg, v, k);
    if k > 0 {
      TableErrors(reg, v, k - 1);
      ErrorsIff(reg, CString(v.members[k - 1].name.s), v.members[k - 1].value);
    }
  }

  lemma {:induction false} ItemsErrors(reg: Registry, base: TypeTag, v: GenericValue, k: nat)
    requires Valid(v) && v.ArrayValue? && k <= |v.elements|
    ensures ItemsFrom(reg, base, v, k).errors == 0 <==> forall i | 0 <= i < k :: FitsItem(reg, base, v.elements[i])
    decreases v, 0, k
  {
    hide ItemFrom, ItemsFrom, FitsItem;
    ItemsStep(reg, base, v, k);
    if k > 0 {
      ItemsErrors(reg, base, v, k - 1);
      ItemErrors(reg, base, v.elements[k - 1]);
    }
  }

  lemma {:induction false} ItemErrors(reg: Registry, base: TypeTag, v: GenericValue)
    requires Valid(v)
    ensures ItemFrom(reg, base, v).errors == 0 <==> FitsItem(reg, base, v)
    decreases v, 2
  {
    hide BagFrom, Typed, HasType, Fits;
    if v.ObjectValue? {
      ErrorsIff(reg, [], v);
    } else if !v.ArrayValue? {
      TypedIff(base, v);
    }
  }

  /** A SCALAR is an error exactly when its name is not registered or its value is not of the registered type; otherwise
      it becomes that value, with the registered id. */
  lemma ScalarExactly(reg: Registry, name: seq<int>, v: GenericValue)
    requires Valid(v) && !v.ObjectValue? && !v.ArrayValue?
    ensures var p := PropertyFrom(reg, name, v);
            if name in reg.byName && HasType(reg.byName[name].tag, v) then
              && p.errors == 0 && p.result.value.Some? && p.result == Property(reg.byName[name].id, p.result.value, Some(reg.byName[name]))
              && TagOf(p.result.value.value) == reg.byName[name].tag && InType(p.result.value.value) && ScalarValue(p.result.value.value) == v
            else p == Converted(Property(0xFFFF_FFFF, None, None), 1)
  {
    hide Typed, HasType, TagOf, InType, ScalarValue;
    if name in reg.byName {
      TypedIff(reg.byName[name].tag, v);
      if Typed(reg.byName[name].tag, v).Some? {
        TypedExactly(reg.byName[name].tag, v, Typed(reg.byName[name].tag, v).value);
      }
    }
  }

  /** ---- What a bag holds ---- */

  /** The JSON value of a bag, by the names under which its tables list their entries. */
  function Shown(bag: PropertyBag): GenericValue
    decreases bag
  {
    if bag.Empty? then NullValue
    else match bag.content
      case OfProperty(p) => if p.value.Some? then ScalarValue(p.value.value) else NullValue
      case OfArray(items) => ArrayValue(seq(|items|, i requires 0 <= i < |items| => Shown(items[i])))
      case OfTable(entries) =>
        ObjectValue(seq(|entries|, i requires 0 <= i < |entries| => Member(StringValue(entries[i].name), Shown(entries[i].bag))))
  }

  /** Without the members whose name an earlier one has, at every level. */
  function FirstNames(v: GenericValue): GenericValue
    requires Valid(v)
    decreases v, 1
  {
    match v
    case ObjectValue(ms) => ObjectValue(FirstMembers(v, |ms|))
    case ArrayValue(vs) => ArrayValue(seq(|vs|, i requires 0 <= i < |vs| => FirstNames(vs[i])))
    case _ => v
  }

  predicate IsFirst(v: GenericValue, k: nat)
    requires v.ObjectValue? && k < |v.members|
  {
    forall j | 0 <= j < k :: v.members[j].name != v.members[k].name
  }

  function FirstMembers(v: GenericValue, k: nat): seq<Member>
    requires Valid(v) && v.ObjectValue? && k <= |v.members|
    decreases v, 0, k
  {
    if k == 0 then []
    else
      var m := v.members[k - 1];
      FirstMembers(v, k - 1) + if IsFirst(v, k - 1) then [Member(m.name, FirstNames(m.value))] else []
  }

  /** Entries and the members they stand for. */
  ghost predicate Lists(entries: seq<Entry>, ms: seq<Member>) {
    |entries| == |ms| && forall i | 0 <= i < |ms| :: ms[i] == Member(StringValue(entries[i].name), Shown(entries[i].bag))
  }

  ghost predicate Listed(entries: seq<Entry>, name: seq<int>) {
    exists i | 0 <= i < |entries| :: entries[i].name == name
  }

  ghost predicate Met(v: GenericValue, k: nat, name: seq<int>)
    requires v.ObjectValue? && k <= |v.members|
  {
    exists j | 0 <= j < k :: v.members[j].name == StringValue(name)
  }

  /** The names listed are those met. */
  ghost predicate NamesMet(entries: seq<Entry>, v: GenericValue, k: nat)
    requires v.ObjectValue? && k <= |v.members|
  {
    forall name :: Listed(entries, name) <==> Met(v, k, name)
  }

  /** WITHOUT ERRORS, THE BAG IS THE VALUE, but for members whose name an earlier one has. */
  lemma {:induction false} ShownBack(reg: Registry, name: seq<int>, v: GenericValue)
    requires Valid(v) && Fits(reg, name, v)
    ensures var bag := BagFrom(reg, name, v).result; bag.PropertyBag? && bag.name == name && Shown(bag) == FirstNames(v)
    decreases v, 1
  {
    hide Typed, HasType, TableFrom, ItemsFrom, CString, FitsItem, PropertyFrom, ScalarValue, FirstMembers;
    match v
    case ObjectValue(ms) =>
      TableShown(reg, v, |ms|);
      ShownTable(BagFrom(reg, name, v).result, FirstMembers(v, |ms|));
    case ArrayValue(vs) => ItemsShown(reg, reg.byName[name].base, v, |vs|);
    case _ => ScalarExactly(reg, name, v);
  }

  lemma ShownTable(bag: PropertyBag, ms: seq<Member>)
    requires bag.PropertyBag? && bag.content.OfTable? && Lists(bag.content.entries, ms)
    ensures Shown(bag) == ObjectValue(ms)
  {
    assert Shown(bag).members == ms;
  }

  lemma {:induction false} TableShown(reg: Registry, v: GenericValue, k: nat)
    requires Valid(v) && v.ObjectValue? && k <= |v.members|
    requires forall i | 0 <= i < k :: Fits(reg, CString(v.members[i].name.s), v.members[i].value)
    ensures Lists(TableFrom(reg, v, k).result, FirstMembers(v, k)) && NamesMet(TableFrom(reg, v, k).result, v, k)
    decreases v, 0, k
  {
    hide BagFrom, TableFrom, Fits, CString, Inserted, FirstMembers, Lists, NamesMet, IsFirst, FirstNames, Shown;
    TableStep(reg, v, k);
    FirstStep(v, k);
    if k == 0 {
      NothingListed(v);
    } else {
      TableShown(reg, v, k - 1);
      var m := v.members[k - 1];
      ShownBack(reg, CString(m.name.s), m.value);
      InsertedLists(TableFrom(reg, v, k - 1).result, FirstMembers(v, k - 1), Entry(m.name.s, BagFrom(reg, CString(m.name.s), m.value).result), v, k - 1);
    }
  }

  lemma FirstStep(v: GenericValue, k: nat)
    requires Valid(v) && v.ObjectValue? && k <= |v.members|
    ensures k == 0 ==> FirstMembers(v, k) == []
    ensures k > 0 ==>
              var m := v.members[k - 1];
              Valid(m.value) && FirstMembers(v, k) == FirstMembers(v, k - 1) + if IsFirst(v, k - 1) then [Member(m.name, FirstNames(m.value))] else []
  {
    hide IsFirst, FirstNames;
  }

  lemma NothingListed(v: GenericValue)
    requires v.ObjectValue?
    ensures Lists([], []) && NamesMet([], v, 0)
  {
  }

  lemma InsertedLists(entries: seq<Entry>, ms: seq<Member>, e: Entry, v: GenericValue, k: nat)
    requires v.ObjectValue? && k < |v.members| && v.members[k].name == StringValue(e.name)
    requires Lists(entries, ms) && NamesMet(entries, v, k)
    ensures Lists(Inserted(entries, e), ms + if IsFirst(v, k) then [Member(StringValue(e.name), Shown(e.bag))] else [])
    ensures NamesMet(Inserted(entries, e), v, k + 1)
  {
    hide Shown;
    FirstMet(v, k, e.name);
    assert Listed(entries, e.name) <==> Met(v, k, e.name);
    MetMore(entries, e, v, k);
  }

  lemma FirstMet(v: GenericValue, k: nat, name: seq<int>)
    requires v.ObjectValue? && k < |v.members| && v.members[k].name == StringValue(name)
    ensures IsFirst(v, k) <==> !Met(v, k, name)
  {
  }

  lemma MetMore(entries: seq<Entry>, e: Entry, v: GenericValue, k: nat)
    requires v.ObjectValue? && k < |v.members| && v.members[k].name == StringValue(e.name) && NamesMet(entries, v, k)
    ensures NamesMet(Inserted(entries, e), v, k + 1)
  {
    hide Listed, Met, Inserted;
    forall name ensures Listed(Inserted(entries, e), name) <==> Met(v, k + 1, name) {
      assert Listed(entries, name) <==> Met(v, k, name);
      InsertedNames(entries, e, name);
      MetNext(v, k, e.name, name);
    }
  }

  lemma MetNext(v: GenericValue, k: nat, last: seq<int>, name: seq<int>)
    requires v.ObjectValue? && k < |v.members| && v.members[k].name == StringValue(last)
    ensures Met(v, k + 1, name) <==> Met(v, k, name) || name == last
  {
  }

  lemma InsertedNames(entries: seq<Entry>, e: Entry, name: seq<int>)
    ensures Listed(Inserted(entries, e), name) <==> Listed(entries, name) || name == e.name
  {
    var more := Inserted(entries, e);
    if Listed(entries, name) {
      var i :| 0 <= i < |entries| && entries[i].name == name;
      assert more[i].name == name;
    }
    if name == e.name && |more| > |entries| {
      assert more[|entries|].name == name;
    }
  }

  lemma {:induction false} ItemsShown(reg: Registry, base: TypeTag, v: GenericValue, k: nat)
    requires Valid(v) && v.ArrayValue? && k <= |v.elements|
    requires forall i | 0 <= i < k :: FitsItem(reg, base, v.elements[i])
    ensures var items := ItemsFrom(reg, base, v, k).result;
            |items| == k && forall i | 0 <= i < k :: Shown(items[i]) == FirstNames(v.elements[i])
    decreases v, 0, k
  {
    hide ItemFrom, ItemsFrom, FitsItem, Shown, FirstNames;
    ItemsStep(reg, base, v, k);
    if k > 0 {
      ItemsShown(reg, base, v, k - 1);
      ItemShown(reg, base, v.elements[k - 1]);
    }
  }

  lemma {:induction false} ItemShown(reg: Registry, base: TypeTag, v: GenericValue)
    requires Valid(v) && FitsItem(reg, base, v)
    ensures Shown(ItemFrom(reg, base, v).result) == FirstNames(v)
    decreases v, 2
  {
    hide BagFrom, Typed, HasType, Fits, FirstMembers, ScalarValue;
    if v.ObjectValue? {
      hide Shown, FirstNames;
      ShownBack(reg, [], v);
    } else {
      TypedIff(base, v);
      TypedExactly(base, v, Typed(base, v).value);
    }
  }

  /** ---- Bags that can be written again ---- */

  /** Names are neither empty nor cut short by a zero. */
  predicate PlainNames(v: GenericValue) {
    match v
    case ObjectValue(ms) =>
      forall i | 0 <= i < |ms| :: ms[i].name.StringValue? && ms[i].name.s != [] && 0 !in ms[i].name.s && PlainNames(ms[i].value)
    case ArrayValue(vs) => forall i | 0 <= i < |vs| :: PlainNames(vs[i])
    case _ => true
  }

  lemma {:induction false} GoodBack(reg: Registry, name: seq<int>, v: GenericValue)
    requires Valid(v) && Fits(reg, name, v) && PlainNames(v) && 0 !in name && IsByteString(name)
    ensures Good(reg, BagFrom(reg, name, v).result)
    decreases v, 1
  {
    hide Typed, HasType, TableFrom, ItemsFrom, CString, FitsItem, PropertyFrom, ScalarValue, InType, TagOf, GoodEntries, GoodItem;
    match v
    case ObjectValue(ms) => EntriesGood(reg, v, |ms|);
    case ArrayValue(vs) => ItemsGood(reg, reg.byName[name].base, v, |vs|);
    case _ => ScalarExactly(reg, name, v);
  }

  lemma MemberFits(reg: Registry, name: seq<int>, v: GenericValue, i: nat)
    requires Valid(v) && v.ObjectValue? && i < |v.members| && Fits(reg, name, v) && PlainNames(v)
    ensures var m := v.members[i];
            && m.name.StringValue? && Valid(m.value) && PlainNames(m.value) && IsByteString(m.name.s) && m.name.s != [] && 0 !in m.name.s
            && CString(m.name.s) == m.name.s && Fits(reg, m.name.s, m.value)
  {
    hide CString;
    NoZero(v.members[i].name.s);
  }

  lemma {:induction false} EntriesGood(reg: Registry, v: GenericValue, k: nat)
    requires Valid(v) && v.ObjectValue? && k <= |v.members| && Fits(reg, [], v) && PlainNames(v)
    ensures GoodEntries(reg, TableFrom(reg, v, k).result)
    decreases v, 0, k
  {
    hide BagFrom, TableFrom, Fits, CString, Inserted, GoodEntries, Good, PlainNames, Valid;
    TableStep(reg, v, k);
    if k == 0 {
      NoEntriesGood(reg);
    } else {
      EntriesGood(reg, v, k - 1);
      MemberFits(reg, [], v, k - 1);
      var m := v.members[k - 1];
      GoodBack(reg, m.name.s, m.value);
      ShownBack(reg, m.name.s, m.value);
      InsertedGood(reg, TableFrom(reg, v, k - 1).result, Entry(m.name.s, BagFrom(reg, m.name.s, m.value).result));
    }
  }

  lemma NoEntriesGood(reg: Registry)
    ensures GoodEntries(reg, [])
  {
  }

  lemma InsertedGood(reg: Registry, entries: seq<Entry>, e: Entry)
    requires GoodEntries(reg, entries) && Good(reg, e.bag) && e.bag.PropertyBag? && e.bag.name == e.name && e.name != []
    ensures GoodEntries(reg, Inserted(entries, e))
  {
    hide Good;
  }

  lemma {:induction false} ItemsGood(reg: Registry, base: TypeTag, v: GenericValue, k: nat)
    requires Valid(v) && v.ArrayValue? && k <= |v.elements| && PlainNames(v)
    requires forall i | 0 <= i < |v.elements| :: FitsItem(reg, base, v.elements[i])
    ensures var items := ItemsFrom(reg, base, v, k).result;
            |items| == k && forall i | 0 <= i < k :: GoodItem(reg, base, items[i])
    decreases v, 0, k
  {
    hide ItemFrom, ItemsFrom, FitsItem, GoodItem;
    ItemsStep(reg, base, v, k);
    if k > 0 {
      ItemsGood(reg, base, v, k - 1);
      ItemGood(reg, base, v.elements[k - 1]);
    }
  }

  lemma {:induction false} ItemGood(reg: Registry, base: TypeTag, v: GenericValue)
    requires Valid(v) && FitsItem(reg, base, v) && PlainNames(v)
    ensures GoodItem(reg, base, ItemFrom(reg, base, v).result)
    decreases v, 2
  {
    hide Typed, HasType, Fits, TableFrom, GoodEntries, InType, TagOf, ScalarValue;
    if v.ObjectValue? {
      EntriesGood(reg, v, |v.members|);
    } else {
      TypedIff(base, v);
      TypedExactly(base, v, Typed(base, v).value);
    }
  }

  lemma {:induction false} ValueShown(reg: Registry, bag: PropertyBag)
    requires WritableBag(reg, bag)
    ensures ValueOf(reg, bag) == Shown(bag)
    decreases bag
  {
    hide Writable, ScalarValue;
    match bag.content
    case OfProperty(p) => PropertyShown(reg, bag);
    case OfArray(items) =>
      ArrayIs(reg, bag);
      forall i | 0 <= i < |items| ensures ValueOf(reg, bag).elements[i] == Shown(items[i]) {
        ValueShown(reg, items[i]);
      }
      assert ValueOf(reg, bag).elements == Shown(bag).elements;
    case OfTable(entries) =>
      TableValue(reg, bag);
      forall i | 0 <= i < |entries| ensures ValueOf(reg, bag).members[i] == Member(StringValue(entries[i].name), Shown(entries[i].bag)) {
        ValueShown(reg, entries[i].bag);
      }
      assert ValueOf(reg, bag).members == Shown(bag).members;
  }

  lemma PropertyShown(reg: Registry, bag: PropertyBag)
    requires WritableBag(reg, bag) && bag.content.OfProperty?
    ensures ValueOf(reg, bag) == Shown(bag)
  {
    hide ScalarValue;
  }

  /** BACK FROM A BAG: a value without errors and with plain names becomes a bag that can be written, and what is written
      is the value, but for members whose name an earlier one has. */
  lemma ValueBack(reg: Registry, name: seq<int>, v: GenericValue)
    requires Sane(reg) && Valid(v) && Fits(reg, name, v) && PlainNames(v) && 0 !in name && IsByteString(name)
    ensures var bag := BagFrom(reg, name, v).result; Good(reg, bag) && WritableBag(reg, bag) && ValueOf(reg, bag) == FirstNames(v)
  {
    hide Fits, BagFrom, Good, WritableBag, FirstNames, Shown, ValueOf, PlainNames;
    var bag := BagFrom(reg, name, v).result;
    GoodBack(reg, name, v);
    GoodWritable(reg, bag);
    ValueShown(reg, bag);
    ShownBack(reg, name, v);
  }
}
