/** propertybag.cxx: bags of typed properties, as JSON values and back. A table is the list of its entries in the order
    in which they are visited. */
module PropertyBags {
  import opened JsonValues
  import opened Wrappers
  import JsonNumbers

  datatype TypeTag = BoolType | IntType | Int64Type | UintType | Uint64Type | DoubleType | StringType | ArrayType | OtherType

  /** What is registered for a property: its id, its type, and the type of the elements of an array. */
  datatype Info = Info(id: nat, tag: TypeTag, base: TypeTag)

  datatype Registry = Registry(byName: map<seq<int>, Info>, byId: map<nat, Info>)

  const INVALID_ID: nat := 0xFFFF_FFFF

  /** A typed value; doubles are not part of the model. */
  datatype Scalar = OfBool(b: bool) | OfInteger(tag: TypeTag, i: int) | OfString(s: seq<int>)

  datatype Property = Property(id: nat, value: Maybe<Scalar>, info: Maybe<Info>)

  datatype PropertyBag = Empty | PropertyBag(name: seq<int>, content: Content)

  datatype Content = OfProperty(property: Property) | OfArray(items: seq<PropertyBag>) | OfTable(entries: seq<Entry>)

  datatype Entry = Entry(name: seq<int>, bag: PropertyBag)

  function TagOf(s: Scalar): TypeTag {
    match s
    case OfBool(_) => BoolType
    case OfInteger(tag, _) => tag
    case OfString(_) => StringType
  }

  /** The values a type holds. */
  predicate InType(s: Scalar) {
    match s
    case OfBool(_) => true
    case OfInteger(tag, i) =>
      (match tag
       case IntType => -JsonNumbers.TWO31 <= i < JsonNumbers.TWO31
       case UintType => 0 <= i < JsonNumbers.TWO32
       case Int64Type => -JsonNumbers.TWO63 <= i < JsonNumbers.TWO63
       case Uint64Type => 0 <= i < JsonNumbers.TWO64
       case _ => false)
    case OfString(t) => IsByteString(t)
  }

  /** ---- From JSON ---- */

  /** A C string ends at its first zero byte. */
  function CString(s: seq<int>): (r: seq<int>)
    ensures r <= s && 0 !in r && (|r| < |s| ==> s[|r|] == 0)
  {
    if s == [] || s[0] == 0 then [] else [s[0]] + CString(s[1..])
  }

  /** A result, and the number of errors the handler was told of while it was made. */
  datatype Converted<T> = Converted(result: T, errors: nat)

  /** The tests and getters for a type; none when the value is not of that type. */
  function Typed(tag: TypeTag, v: GenericValue): Maybe<Scalar> {
    match tag
    case BoolType => if v.BoolValue? then Some(OfBool(v.b)) else None
    case IntType => if v.NumberValue? && v.n.isInt then Some(OfInteger(IntType, GetInt(v.n))) else None
    case Int64Type => if v.NumberValue? && v.n.isInt64 then Some(OfInteger(Int64Type, GetInt64(v.n))) else None
    case UintType => if v.NumberValue? && v.n.isUint then Some(OfInteger(UintType, v.n.bits % JsonNumbers.TWO32)) else None
    case Uint64Type => if v.NumberValue? && v.n.isUint64 then Some(OfInteger(Uint64Type, v.n.bits)) else None
    case StringType => if v.StringValue? then Some(OfString(v.s)) else None
    case _ => None
  }

  const NO_PROPERTY := Property(INVALID_ID, None, None)

  /** `propertyFromJsonValue` */
  function PropertyFrom(reg: Registry, name: seq<int>, v: GenericValue): Converted<Property> {
    if v.ArrayValue? || v.ObjectValue? || name !in reg.byName then Converted(NO_PROPERTY, 1)
    else
      var info := reg.byName[name];
      match Typed(info.tag, v)
      case None => Converted(NO_PROPERTY, 1)
      case Some(s) => Converted(Property(info.id, Some(s), Some(info)), 0)
  }

  /** Inserting into a table keeps the first entry with a name. */
  function Inserted(entries: seq<Entry>, e: Entry): seq<Entry> {
    if exists k | 0 <= k < |entries| :: entries[k].name == e.name then entries else entries + [e]
  }

  /** `propertyBagFromJsonValue` */
  function BagFrom(reg: Registry, name: seq<int>, v: GenericValue): Converted<PropertyBag>
    requires Valid(v)
    decreases v, 3
  {
    match v
    case ObjectValue(ms) =>
      var t := TableFrom(reg, v, |ms|);
      Converted(PropertyBag(name, OfTable(t.result)), t.errors)
    case ArrayValue(vs) =>
      var a := ArrayFrom(reg, name, v);
      Converted(PropertyBag(name, OfArray(a.result)), a.errors)
    case _ =>
      var p := PropertyFrom(reg, name, v);
      Converted(PropertyBag(name, OfProperty(p.result)), p.errors)
  }

  /** `tableFromJsonValue`, for the first k members. */
  function TableFrom(reg: Registry, v: GenericValue, k: nat): Converted<seq<Entry>>
    requires Valid(v) && v.ObjectValue? && k <= |v.members|
    decreases v, 1, k
  {
    if k == 0 then Converted([], 0)
    else
      var before, m := TableFrom(reg, v, k - 1), v.members[k - 1];
      var member := BagFrom(reg, CString(m.name.s), m.value);
      Converted(Inserted(before.result, Entry(m.name.s, member.result)), before.errors + member.errors)
  }

  /** `arrayFromJsonValue` */
  function ArrayFrom(reg: Registry, name: seq<int>, v: GenericValue): Converted<seq<PropertyBag>>
    requires Valid(v) && v.ArrayValue?
    decreases v, 2
  {
    if name !in reg.byName || reg.byName[name].tag != ArrayType then Converted([], 1)
    else ItemsFrom(reg, reg.byName[name].base, v, |v.elements|)
  }

  function ItemsFrom(reg: Registry, base: TypeTag, v: GenericValue, k: nat): Converted<seq<PropertyBag>>
    requires Valid(v) && v.ArrayValue? && k <= |v.elements|
    decreases v, 1, k
  {
    if k == 0 then Converted([], 0)
    else
      var before := ItemsFrom(reg, base, v, k - 1);
      var item := ItemFrom(reg, base, v.elements[k - 1]);
      Converted(before.result + [item.result], before.errors + item.errors)
  }

  /** `arrayItemFromJson` */
  function ItemFrom(reg: Registry, base: TypeTag, v: GenericValue): Converted<PropertyBag>
    requires Valid(v)
    decreases v, 4
  {
    if v.ArrayValue? then Converted(Empty, 1)
    else if v.ObjectValue? then BagFrom(reg, [], v)
    else match Typed(base, v)
      case None => Converted(Empty, 1)
      case Some(s) => Converted(PropertyBag([], OfProperty(Property(INVALID_ID, Some(s), None))), 0)
  }

  /** ---- To JSON ---- */

  /** The value written for a scalar. */
  function ScalarValue(s: Scalar): GenericValue {
    match s
    case OfBool(b) => BoolValue(b)
    case OfInteger(_, i) => NumberValue(Canonical(i))
    case OfString(t) => StringValue(t)
  }

  /** The type under which a property is written: the registered one, or that of the value. */
  function WrittenAs(reg: Registry, p: Property): TypeTag
    requires p.value.Some?
  {
    if p.info.Some? then p.info.value.tag
    else if p.id in reg.byId then reg.byId[p.id].tag
    else TagOf(p.value.value)
  }

  /** What is written of a bag: empty bags in it are skipped, at every level. */
  function Pruned(bag: PropertyBag): (r: PropertyBag)
    requires bag.PropertyBag?
    ensures r.PropertyBag? && r.name == bag.name && r.content.OfProperty? == bag.content.OfProperty?
    ensures r.content.OfArray? == bag.content.OfArray? && r.content.OfTable? == bag.content.OfTable?
    decreases bag, 1
  {
    match bag.content
    case OfProperty(_) => bag
    case OfArray(items) => PropertyBag(bag.name, OfArray(PrunedItems(items)))
    case OfTable(entries) => PropertyBag(bag.name, OfTable(PrunedEntries(entries)))
  }

  function PrunedItems(items: seq<PropertyBag>): seq<PropertyBag>
    decreases items, 0
  {
    if items == [] then []
    else
      var last := items[|items| - 1];
      PrunedItems(items[..|items| - 1]) + if last.Empty? then [] else [Pruned(last)]
  }

  function PrunedEntries(entries: seq<Entry>): seq<Entry>
    decreases entries, 0
  {
    if entries == [] then []
    else
      var last := entries[|entries| - 1];
      PrunedEntries(entries[..|entries| - 1]) + if last.bag.Empty? then [] else [Entry(last.name, Pruned(last.bag))]
  }

  /** What the first i items leave, and what item i adds. */
  lemma PrunedItem(items: seq<PropertyBag>, i: nat)
    requires i < |items|
    ensures var before, n := PrunedItems(items[..i]), |PrunedItems(items[..i])|;
            && n <= |PrunedItems(items)|
            && PrunedItems(items[..i + 1]) == before + (if items[i].Empty? then [] else [Pruned(items[i])])
            && (!items[i].Empty? ==> n < |PrunedItems(items)| && PrunedItems(items)[n] == Pruned(items[i]))
  {
    hide Pruned;
    assert items[..i + 1][..i] == items[..i];
    PrunedItemsPrefix(items, i);
    PrunedItemsPrefix(items, i + 1);
  }

  lemma {:induction false} PrunedItemsPrefix(items: seq<PropertyBag>, i: nat)
    requires i <= |items|
    ensures PrunedItems(items[..i]) <= PrunedItems(items)
    decreases |items|
  {
    hide Pruned;
    if i < |items| {
      var front := items[..|items| - 1];
      assert front[..i] == items[..i];
      PrunedItemsPrefix(front, i);
    } else {
      assert items[..i] == items;
    }
  }

  lemma PrunedEntry(entries: seq<Entry>, i: nat)
    requires i < |entries|
    ensures var before, n := PrunedEntries(entries[..i]), |PrunedEntries(entries[..i])|;
            && n <= |PrunedEntries(entries)|
            && PrunedEntries(entries[..i + 1]) == before + (if entries[i].bag.Empty? then [] else [Entry(entries[i].name, Pruned(entries[i].bag))])
            && (!entries[i].bag.Empty? ==> n < |PrunedEntries(entries)| && PrunedEntries(entries)[n] == Entry(entries[i].name, Pruned(entries[i].bag)))
  {
    hide Pruned;
    assert entries[..i + 1][..i] == entries[..i];
    PrunedEntriesPrefix(entries, i);
    PrunedEntriesPrefix(entries, i + 1);
  }

  lemma {:induction false} PrunedEntriesPrefix(entries: seq<Entry>, i: nat)
    requires i <= |entries|
    ensures PrunedEntries(entries[..i]) <= PrunedEntries(entries)
    decreases |entries|
  {
    hide Pruned;
    if i < |entries| {
      var front := entries[..|entries| - 1];
      assert front[..i] == entries[..i];
      PrunedEntriesPrefix(front, i);
    } else {
      assert entries[..i] == entries;
    }
  }

  /** A property that is written as what it is. */
  predicate Writable(reg: Registry, p: Property) {
    p.value.Some? && InType(p.value.value) && WrittenAs(reg, p) == TagOf(p.value.value)
  }

  /** A bag that can be written: properties hold values of their types, entries have their bags' names, names are not
      empty, and items of arrays have none. */
  predicate WritableBag(reg: Registry, bag: PropertyBag)
    decreases bag
  {
    bag.PropertyBag? && IsByteString(bag.name) &&
    match bag.content
    case OfProperty(p) => Writable(reg, p)
    case OfArray(items) => forall i | 0 <= i < |items| :: WritableBag(reg, items[i]) && items[i].name == []
    case OfTable(entries) =>
      forall i | 0 <= i < |entries| ::
        WritableBag(reg, entries[i].bag) && entries[i].bag.name == entries[i].name && entries[i].name != []
  }

  /** The JSON value of a bag. */
  function ValueOf(reg: Registry, bag: PropertyBag): (v: GenericValue)
    requires WritableBag(reg, bag)
    ensures Valid(v)
    decreases bag
  {
    match bag.content
    case OfProperty(p) => ScalarValid(p.value.value); ScalarValue(p.value.value)
    case OfArray(items) => ArrayValue(seq(|items|, i requires 0 <= i < |items| => ValueOf(reg, items[i])))
    case OfTable(entries) =>
      ObjectValue(seq(|entries|, i requires 0 <= i < |entries| => MemberOf(reg, entries[i])))
  }

  function MemberOf(reg: Registry, e: Entry): (m: Member)
    requires WritableBag(reg, e.bag) && e.bag.name == e.name
    ensures m == Member(StringValue(e.name), ValueOf(reg, e.bag)) && Valid(m.name) && Valid(m.value)
    decreases e
  {
    Member(StringValue(e.name), ValueOf(reg, e.bag))
  }

  lemma ScalarValid(s: Scalar)
    requires InType(s)
    ensures Valid(ScalarValue(s))
  {
    if s.OfInteger? {
      IntegerOfCanonical(s.i);
    }
  }

  /** ---- There and back ---- */

  /** What a bag must be to come back as it is. */
  predicate Good(reg: Registry, bag: PropertyBag)
    decreases bag, 1
  {
    bag.PropertyBag? && 0 !in bag.name && IsByteString(bag.name) &&
    match bag.content
    case OfProperty(p) => bag.name in reg.byName && p.info == Some(reg.byName[bag.name]) && p.id == reg.byName[bag.name].id
                          && p.value.Some? && InType(p.value.value) && TagOf(p.value.value) == reg.byName[bag.name].tag
    case OfArray(items) =>
      && bag.name in reg.byName && reg.byName[bag.name].tag == ArrayType
      && forall i | 0 <= i < |items| :: GoodItem(reg, reg.byName[bag.name].base, items[i])
    case OfTable(entries) => GoodEntries(reg, entries)
  }

  predicate GoodEntries(reg: Registry, entries: seq<Entry>)
    decreases entries, 0
  {
    && (forall i | 0 <= i < |entries| :: Good(reg, entries[i].bag) && entries[i].bag.name == entries[i].name && entries[i].name != [])
    && (forall i, j | 0 <= i < j < |entries| :: entries[i].name != entries[j].name)
  }

  /** An item of an array: a value of the array's type without a name or an id, or a table. */
  predicate GoodItem(reg: Registry, base: TypeTag, bag: PropertyBag)
    decreases bag, 2
  {
    bag.PropertyBag? && bag.name == [] &&
    match bag.content
    case OfProperty(p) => p.id == INVALID_ID && p.info == None && p.value.Some? && InType(p.value.value) && TagOf(p.value.value) == base
    case OfArray(_) => false
    case OfTable(entries) => GoodEntries(reg, entries)
  }

  /** No property is registered under the id that means none. */
  predicate Sane(reg: Registry) {
    INVALID_ID !in reg.byId
  }

  lemma {:induction false} GoodWritable(reg: Registry, bag: PropertyBag)
    requires Sane(reg) && Good(reg, bag)
    ensures WritableBag(reg, bag)
    decreases bag, 1
  {
    match bag.content
    case OfProperty(p) =>
    case OfArray(items) =>
      forall i | 0 <= i < |items|
        ensures WritableBag(reg, items[i]) && items[i].name == []
      {
        ItemWritable(reg, reg.byName[bag.name].base, items[i]);
      }
    case OfTable(entries) => EntriesWritable(reg, entries);
  }

  lemma {:induction false} EntriesWritable(reg: Registry, entries: seq<Entry>)
    requires Sane(reg) && GoodEntries(reg, entries)
    ensures forall i | 0 <= i < |entries| ::
              WritableBag(reg, entries[i].bag) && entries[i].bag.name == entries[i].name && entries[i].name != []
    decreases entries, 0
  {
    forall i | 0 <= i < |entries|
      ensures WritableBag(reg, entries[i].bag) && entries[i].bag.name == entries[i].name && entries[i].name != []
    {
      GoodWritable(reg, entries[i].bag);
    }
  }

  lemma {:induction false} ItemWritable(reg: Registry, base: TypeTag, bag: PropertyBag)
    requires Sane(reg) && GoodItem(reg, base, bag)
    ensures WritableBag(reg, bag) && bag.name == []
    decreases bag, 2
  {
    if bag.content.OfTable? {
      EntriesWritable(reg, bag.content.entries);
    }
  }

  /** Good bags have no empty ones within. */
  lemma {:induction false} GoodPruned(reg: Registry, bag: PropertyBag)
    requires Good(reg, bag)
    ensures Pruned(bag) == bag
    decreases bag, 1
  {
    match bag.content
    case OfProperty(_) =>
    case OfArray(items) => ItemsPruned(reg, reg.byName[bag.name].base, items);
    case OfTable(entries) => EntriesPruned(reg, entries);
  }

  lemma {:induction false} ItemsPruned(reg: Registry, base: TypeTag, items: seq<PropertyBag>)
    requires forall i | 0 <= i < |items| :: GoodItem(reg, base, items[i])
    ensures PrunedItems(items) == items
    decreases items, 0
  {
    hide GoodItem, Pruned;
    if items != [] {
      var last := items[|items| - 1];
      ItemsPruned(reg, base, items[..|items| - 1]);
      assert GoodItem(reg, base, last);
      ItemPruned(reg, base, last);
      assert items == items[..|items| - 1] + [last];
    }
  }

  lemma {:induction false} ItemPruned(reg: Registry, base: TypeTag, bag: PropertyBag)
    requires GoodItem(reg, base, bag)
    ensures bag.PropertyBag? && Pruned(bag) == bag
    decreases bag, 2
  {
    hide Good;
    if bag.content.OfTable? {
      EntriesPruned(reg, bag.content.entries);
    }
  }

  lemma {:induction false} EntriesPruned(reg: Registry, entries: seq<Entry>)
    requires forall i | 0 <= i < |entries| :: Good(reg, entries[i].bag)
    ensures PrunedEntries(entries) == entries
    decreases entries, 0
  {
    hide Good;
    if entries != [] {
      var last := entries[|entries| - 1];
      EntriesPruned(reg, entries[..|entries| - 1]);
      assert Good(reg, last.bag);
      NotEmpty(reg, last.bag);
      GoodPruned(reg, last.bag);
      assert entries == entries[..|entries| - 1] + [last];
    }
  }

  lemma NotEmpty(reg: Registry, bag: PropertyBag)
    requires Good(reg, bag)
    ensures bag.PropertyBag?
  {
  }

  /** Every typed value is recognised in the value written for it. */
  lemma TypedBack(s: Scalar)
    requires InType(s)
    ensures Typed(TagOf(s), ScalarValue(s)) == Some(s)
  {
    if s.OfInteger? {
      Getters(s.i);
    }
  }

  lemma {:induction false} NoZero(s: seq<int>)
    requires 0 !in s
    ensures CString(s) == s
    decreases |s|
  {
    if s != [] {
      NoZero(s[1..]);
    }
  }

  /** ---- Bags come back ---- */

  lemma {:induction false} BagBack(reg: Registry, bag: PropertyBag)
    requires Sane(reg) && Good(reg, bag)
    ensures WritableBag(reg, bag) && BagFrom(reg, bag.name, ValueOf(reg, bag)) == Converted(bag, 0)
    decreases bag, 1
  {
    hide Typed, Canonical;
    GoodWritable(reg, bag);
    match bag.content
    case OfProperty(p) => TypedBack(p.value.value);
    case OfArray(items) =>
      ItemsBack(reg, reg.byName[bag.name].base, bag, |items|);
      assert items[..|items|] == items;
    case OfTable(entries) =>
      EntriesBack(reg, bag, |entries|);
      assert entries[..|entries|] == entries;
  }

  lemma {:induction false} EntriesBack(reg: Registry, bag: PropertyBag, k: nat)
    requires Sane(reg) && bag.PropertyBag? && WritableBag(reg, bag) && bag.content.OfTable? && GoodEntries(reg, bag.content.entries) && k <= |bag.content.entries|
    ensures |ValueOf(reg, bag).members| == |bag.content.entries|
    ensures TableFrom(reg, ValueOf(reg, bag), k) == Converted(bag.content.entries[..k], 0)
    decreases bag, 0, k
  {
    hide BagFrom, CString, WritableBag, ValueOf, GoodEntries, Inserted, TableFrom;
    var entries := bag.content.entries;
    TableValue(reg, bag);
    if k > 0 {
      EntriesBack(reg, bag, k - 1);
      var e := entries[k - 1];
      EntryWritable(reg, bag, k - 1);
      GoodEntry(reg, entries, k - 1);
      BagBack(reg, e.bag);
      NoZero(e.name);
      NewEntry(reg, entries, k - 1);
    }
    TableStep(reg, ValueOf(reg, bag), k);
  }

  lemma TableStep(reg: Registry, v: GenericValue, k: nat)
    requires Valid(v) && v.ObjectValue? && k <= |v.members|
    ensures k == 0 ==> TableFrom(reg, v, k) == Converted([], 0)
    ensures k > 0 ==>
              var before, m := TableFrom(reg, v, k - 1), v.members[k - 1];
              && Valid(m.value) && m.name.StringValue?
              && TableFrom(reg, v, k) == Converted(Inserted(before.result, Entry(m.name.s, BagFrom(reg, CString(m.name.s), m.value).result)),
                                                   before.errors + BagFrom(reg, CString(m.name.s), m.value).errors)
  {
    hide BagFrom, CString, Inserted;
  }

  /** The members of the value of a table. */
  lemma TableValue(reg: Registry, bag: PropertyBag)
    requires bag.PropertyBag? && WritableBag(reg, bag) && bag.content.OfTable?
    ensures ValueOf(reg, bag).ObjectValue? && |ValueOf(reg, bag).members| == |bag.content.entries|
    ensures forall i | 0 <= i < |bag.content.entries| ::
              && WritableBag(reg, bag.content.entries[i].bag)
              && ValueOf(reg, bag).members[i] == Member(StringValue(bag.content.entries[i].name), ValueOf(reg, bag.content.entries[i].bag))
  {
    var entries := bag.content.entries;
    forall i | 0 <= i < |entries|
      ensures ValueOf(reg, bag).members[i] == Member(StringValue(entries[i].name), ValueOf(reg, entries[i].bag))
    {
      assert ValueOf(reg, bag).members[i] == MemberOf(reg, entries[i]);
    }
  }

  lemma GoodEntry(reg: Registry, entries: seq<Entry>, i: nat)
    requires GoodEntries(reg, entries) && i < |entries|
    ensures Good(reg, entries[i].bag) && entries[i].bag.name == entries[i].name && 0 !in entries[i].name
  {
  }

  lemma EntryWritable(reg: Registry, bag: PropertyBag, i: nat)
    requires bag.PropertyBag? && WritableBag(reg, bag) && bag.content.OfTable? && i < |bag.content.entries|
    ensures var e := bag.content.entries[i]; WritableBag(reg, e.bag) && e.bag.name == e.name
  {
  }

  /** A name that no earlier entry has is inserted. */
  lemma NewEntry(reg: Registry, entries: seq<Entry>, k: nat)
    requires k < |entries| && GoodEntries(reg, entries)
    ensures Inserted(entries[..k], Entry(entries[k].name, entries[k].bag)) == entries[..k + 1]
  {
    hide Good;
    assert forall i | 0 <= i < k :: entries[..k][i] == entries[i];
    assert entries[..k + 1] == entries[..k] + [entries[k]];
  }

  lemma {:induction false} ItemsBack(reg: Registry, base: TypeTag, bag: PropertyBag, k: nat)
    requires Sane(reg) && bag.PropertyBag? && WritableBag(reg, bag) && bag.content.OfArray? && k <= |bag.content.items|
    requires forall i | 0 <= i < |bag.content.items| :: GoodItem(reg, base, bag.content.items[i])
    ensures |ValueOf(reg, bag).elements| == |bag.content.items|
    ensures ItemsFrom(reg, base, ValueOf(reg, bag), k) == Converted(bag.content.items[..k], 0)
    decreases bag, 0, k
  {
    hide ItemFrom, GoodItem, WritableBag, ValueOf, ItemsFrom;
    var items := bag.content.items;
    ArrayIs(reg, bag);
    if k > 0 {
      ItemsBack(reg, base, bag, k - 1);
      ItemIsWritable(reg, bag, k - 1);
      ItemBack(reg, base, items[k - 1]);
      assert items[..k] == items[..k - 1] + [items[k - 1]];
    }
    ItemsStep(reg, base, ValueOf(reg, bag), k);
  }

  lemma ItemsStep(reg: Registry, base: TypeTag, v: GenericValue, k: nat)
    requires Valid(v) && v.ArrayValue? && k <= |v.elements|
    ensures k == 0 ==> ItemsFrom(reg, base, v, k) == Converted([], 0)
    ensures k > 0 ==>
              var before := ItemsFrom(reg, base, v, k - 1);
              && Valid(v.elements[k - 1])
              && ItemsFrom(reg, base, v, k)
                 == Converted(before.result + [ItemFrom(reg, base, v.elements[k - 1]).result], before.errors + ItemFrom(reg, base, v.elements[k - 1]).errors)
  {
    hide ItemFrom;
  }

  lemma ArrayIs(reg: Registry, bag: PropertyBag)
    requires bag.PropertyBag? && WritableBag(reg, bag) && bag.content.OfArray?
    ensures ValueOf(reg, bag).ArrayValue? && |ValueOf(reg, bag).elements| == |bag.content.items|
    ensures forall i | 0 <= i < |bag.content.items| ::
              WritableBag(reg, bag.content.items[i]) && ValueOf(reg, bag).elements[i] == ValueOf(reg, bag.content.items[i])
  {
  }

  lemma ItemIsWritable(reg: Registry, bag: PropertyBag, i: nat)
    requires bag.PropertyBag? && WritableBag(reg, bag) && bag.content.OfArray? && i < |bag.content.items|
    ensures WritableBag(reg, bag.content.items[i])
  {
  }

  lemma {:induction false} ItemBack(reg: Registry, base: TypeTag, bag: PropertyBag)
    requires Sane(reg) && GoodItem(reg, base, bag)
    ensures WritableBag(reg, bag) && ItemFrom(reg, base, ValueOf(reg, bag)) == Converted(bag, 0)
    decreases bag, 2
  {
    hide Typed, Canonical;
    ItemWritable(reg, base, bag);
    match bag.content
    case OfProperty(p) => TypedBack(p.value.value);
    case OfTable(entries) =>
      EntriesBack(reg, bag, |entries|);
      assert entries[..|entries|] == entries;
  }
}
