/** propertybag.cxx: the functions that build bags from JSON values, and those that drive a writer with a bag. */
module PropertyBagJson {
  import opened JsonValues
  import opened JsonWriter
  import opened PropertyBags
  import opened Wrappers
  import opened PropertyBagMeaning
  import JsonDocument
  import JsonRecognition
  import JsonRoundTrip
  import JsonSyntax
  import Itoa

  /** ---- Building bags; the error handler either continues or aborts ---- */

  /** `propertyBagFromJsonValue`: with a handler that aborts, the first error ends it. */
  method BuildBag(reg: Registry, name: seq<int>, v: GenericValue, abort: bool) returns (ok: bool, bag: PropertyBag, errors: nat)
    requires Valid(v)
    ensures ok <==> !(abort && BagFrom(reg, name, v).errors > 0)
    ensures ok ==> Converted(bag, errors) == BagFrom(reg, name, v)
    decreases v, 3
  {
    hide TableFrom, ArrayFrom, PropertyFrom;
    bag := Empty;
    if v.ObjectValue? {
      var entries;
      ok, entries, errors := BuildTable(reg, v, abort);
      if ok {
        bag := PropertyBag(name, OfTable(entries));
      }
    } else if v.ArrayValue? {
      var items;
      ok, items, errors := BuildArray(reg, name, v, abort);
      if ok {
        bag := PropertyBag(name, OfArray(items));
      }
    } else {
      var p := PropertyFrom(reg, name, v);
      ok, errors := !(abort && p.errors > 0), p.errors;
      bag := PropertyBag(name, OfProperty(p.result));
    }
  }

  /** `tableFromJsonValue` */
  method BuildTable(reg: Registry, v: GenericValue, abort: bool) returns (ok: bool, entries: seq<Entry>, errors: nat)
    requires Valid(v) && v.ObjectValue?
    ensures ok <==> !(abort && TableFrom(reg, v, |v.members|).errors > 0)
    ensures ok ==> Converted(entries, errors) == TableFrom(reg, v, |v.members|)
    decreases v, 1
  {
    hide TableFrom, BagFrom, CString, Inserted;
    entries, errors := [], 0;
    TableStep(reg, v, 0);
    for k := 0 to |v.members|
      invariant Converted(entries, errors) == TableFrom(reg, v, k) && !(abort && errors > 0)
    {
      TableStep(reg, v, k + 1);
      var m := v.members[k];
      var built, member, more := BuildBag(reg, CString(m.name.s), m.value, abort);
      if !built {
        ErrorsGrow(reg, v, k + 1, |v.members|);
        return false, entries, errors;
      }
      entries := Inserted(entries, Entry(m.name.s, member));
      errors := errors + more;
    }
    ok := true;
  }

  lemma {:induction false} ErrorsGrow(reg: Registry, v: GenericValue, j: nat, k: nat)
    requires Valid(v) && v.ObjectValue? && j <= k <= |v.members|
    ensures TableFrom(reg, v, j).errors <= TableFrom(reg, v, k).errors
    decreases k
  {
    hide TableFrom, BagFrom, CString, Inserted;
    if j < k {
      ErrorsGrow(reg, v, j, k - 1);
      TableStep(reg, v, k);
    }
  }

  /** `arrayFromJsonValue` */
  method BuildArray(reg: Registry, name: seq<int>, v: GenericValue, abort: bool) returns (ok: bool, items: seq<PropertyBag>, errors: nat)
    requires Valid(v) && v.ArrayValue?
    ensures ok <==> !(abort && ArrayFrom(reg, name, v).errors > 0)
    ensures ok ==> Converted(items, errors) == ArrayFrom(reg, name, v)
    decreases v, 2
  {
    hide ItemsFrom, ItemFrom;
    if name !in reg.byName || reg.byName[name].tag != ArrayType {
      return !abort, [], 1;
    }
    var base := reg.byName[name].base;
    items, errors := [], 0;
    ItemsStep(reg, base, v, 0);
    for k := 0 to |v.elements|
      invariant Converted(items, errors) == ItemsFrom(reg, base, v, k) && !(abort && errors > 0)
    {
      ItemsStep(reg, base, v, k + 1);
      var built, item, more := BuildItem(reg, base, v.elements[k], abort);
      if !built {
        ItemErrorsGrow(reg, base, v, k + 1, |v.elements|);
        return false, items, errors;
      }
      items := items + [item];
      errors := errors + more;
    }
    ok := true;
  }

  lemma {:induction false} ItemErrorsGrow(reg: Registry, base: TypeTag, v: GenericValue, j: nat, k: nat)
    requires Valid(v) && v.ArrayValue? && j <= k <= |v.elements|
    ensures ItemsFrom(reg, base, v, j).errors <= ItemsFrom(reg, base, v, k).errors
    decreases k
  {
    hide ItemsFrom, ItemFrom;
    if j < k {
      ItemErrorsGrow(reg, base, v, j, k - 1);
      ItemsStep(reg, base, v, k);
    }
  }

  /** `arrayItemFromJson` */
  method BuildItem(reg: Registry, base: TypeTag, v: GenericValue, abort: bool) returns (ok: bool, bag: PropertyBag, errors: nat)
    requires Valid(v)
    ensures ok <==> !(abort && ItemFrom(reg, base, v).errors > 0)
    ensures ok ==> Converted(bag, errors) == ItemFrom(reg, base, v)
    decreases v, 4
  {
    hide BagFrom, Typed;
    if v.ArrayValue? {
      return !abort, Empty, 1;
    }
    if v.ObjectValue? {
      ok, bag, errors := BuildBag(reg, [], v, abort);
      return;
    }
    match Typed(base, v)
    case None => return !abort, Empty, 1;
    case Some(s) => return true, PropertyBag([], OfProperty(Property(INVALID_ID, Some(s), None))), 0;
  }

  /** ---- Writing bags ---- */

  /** `propertyToJson` */
  method WriteProperty(reg: Registry, p: Property, writer: Writer)
    requires Writable(reg, p) && MayFollow(writer.levels, writer.hasRoot, false)
    modifies writer
    ensures Valid(ScalarValue(p.value.value)) && writer.Wrote(TextOf(ScalarValue(p.value.value)))
  {
    hide MayFollow, Quoted, Itoa.Signed, Canonical;
    var s := p.value.value;
    ScalarValid(s);
    if s.OfInteger? {
      IntegerOfCanonical(s.i);
    }
    match s
    case OfBool(b) => writer.Bool(b);
    case OfInteger(tag, i) =>
      if tag == IntType {
        writer.Int(i);
      } else if tag == UintType {
        writer.Uint(i);
      } else if tag == Int64Type {
        writer.Int64(i);
      } else {
        writer.Uint64(i);
      }
    case OfString(t) =>
      StringMayFollow(writer.levels, writer.hasRoot);
      writer.String(t);
  }

  lemma StringMayFollow(levels: seq<Level>, hasRoot: bool)
    requires MayFollow(levels, hasRoot, false)
    ensures MayFollow(levels, hasRoot, true)
  {
  }

  /** The part of `propertyBagToJson` after the name. */
  method WriteContent(reg: Registry, bag: PropertyBag, writer: Writer)
    requires bag.PropertyBag? && WritableBag(reg, Pruned(bag)) && MayFollow(writer.levels, writer.hasRoot, false)
    modifies writer
    ensures writer.Wrote(TextOf(ValueOf(reg, Pruned(bag))))
    decreases bag, 3
  {
    hide TextOf, MayFollow, Writable, PrunedItems, PrunedEntries;
    match bag.content
    case OfProperty(p) => WriteProperty(reg, p, writer);
    case OfArray(items) => WriteArray(reg, bag, writer);
    case OfTable(entries) => WriteTable(reg, bag, writer);
  }

  /** `arrayToJson`; empty items are skipped, and no other has a name, so no key is written for it. */
  method WriteArray(reg: Registry, bag: PropertyBag, writer: Writer)
    requires bag.PropertyBag? && bag.content.OfArray? && WritableBag(reg, Pruned(bag)) && MayFollow(writer.levels, writer.hasRoot, false)
    modifies writer
    ensures writer.Wrote(TextOf(ValueOf(reg, Pruned(bag))))
    decreases bag, 2
  {
    hide Counted, MayFollow, TextOf, ElementsText, PrefixText, ValueOf, WritableBag, Pruned;
    ghost var os, levels := writer.os + PrefixText(writer.levels), Counted(writer.levels);
    ArrayIs(reg, Pruned(bag));
    writer.StartArray();
    WriteItems(reg, bag, writer, levels);
    writer.EndArray();
    TextOfArray(os, ValueOf(reg, Pruned(bag)));
    assert writer.levels == levels;
  }

  method WriteItems(reg: Registry, bag: PropertyBag, writer: Writer, ghost levels: seq<Level>)
    requires bag.PropertyBag? && bag.content.OfArray? && WritableBag(reg, Pruned(bag)) && writer.levels == levels + [Level(0, true)]
    modifies writer
    ensures var v := ValueOf(reg, Pruned(bag)); v.ArrayValue? && writer.os == old(writer.os) + ElementsText(v, |v.elements|)
    ensures writer.levels == levels + [Level(|Pruned(bag).content.items|, true)] && writer.hasRoot == old(writer.hasRoot)
    decreases bag, 1
  {
    hide TextOf, ElementsText, ValueOf, WritableBag, Pruned, PrunedItems;
    ghost var v := ValueOf(reg, Pruned(bag));
    var items := bag.content.items;
    PrunedArray(bag);
    ArrayIs(reg, Pruned(bag));
    NoElements(v);
    ghost var n: nat := 0;
    for i := 0 to |items|
      invariant n == |PrunedItems(items[..i])| <= |v.elements|
      invariant writer.levels == levels + [Level(n, true)] && writer.hasRoot == old(writer.hasRoot)
      invariant writer.os == old(writer.os) + ElementsText(v, n)
    {
      PrunedItem(items, i);
      if !items[i].Empty? {
        NextElement(old(writer.os), v, n);
        WriteContent(reg, items[i], writer);
        n := n + 1;
      }
    }
    assert items[..|items|] == items;
  }

  lemma PrunedArray(bag: PropertyBag)
    requires bag.PropertyBag? && bag.content.OfArray?
    ensures Pruned(bag).content.items == PrunedItems(bag.content.items) && PrunedItems(bag.content.items[..0]) == []
  {
  }

  lemma PrunedTable(bag: PropertyBag)
    requires bag.PropertyBag? && bag.content.OfTable?
    ensures Pruned(bag).content.entries == PrunedEntries(bag.content.entries) && PrunedEntries(bag.content.entries[..0]) == []
  {
  }

  /** `tableToJson`; empty entries are skipped, and every other starts with its name. */
  method WriteTable(reg: Registry, bag: PropertyBag, writer: Writer)
    requires bag.PropertyBag? && bag.content.OfTable? && WritableBag(reg, Pruned(bag)) && MayFollow(writer.levels, writer.hasRoot, false)
    modifies writer
    ensures writer.Wrote(TextOf(ValueOf(reg, Pruned(bag))))
    decreases bag, 2
  {
    hide Counted, MayFollow, TextOf, MembersText, PrefixText, ValueOf, WritableBag, Pruned;
    ghost var os, levels := writer.os + PrefixText(writer.levels), Counted(writer.levels);
    TableValue(reg, Pruned(bag));
    writer.StartObject();
    WriteEntries(reg, bag, writer, levels);
    writer.EndObject();
    TextOfObject(os, ValueOf(reg, Pruned(bag)));
    assert writer.levels == levels;
  }

  method WriteEntries(reg: Registry, bag: PropertyBag, writer: Writer, ghost levels: seq<Level>)
    requires bag.PropertyBag? && bag.content.OfTable? && WritableBag(reg, Pruned(bag)) && writer.levels == levels + [Level(0, false)]
    modifies writer
    ensures var v := ValueOf(reg, Pruned(bag)); v.ObjectValue? && writer.os == old(writer.os) + MembersText(v, |v.members|)
    ensures writer.levels == levels + [Level(2 * |Pruned(bag).content.entries|, false)] && writer.hasRoot == old(writer.hasRoot)
    decreases bag, 1
  {
    hide TextOf, MembersText, ValueOf, WritableBag, Quoted, Pruned, PrunedEntries;
    ghost var v := ValueOf(reg, Pruned(bag));
    var entries := bag.content.entries;
    PrunedTable(bag);
    TableValue(reg, Pruned(bag));
    NoElements(v);
    ghost var n: nat := 0;
    for i := 0 to |entries|
      invariant n == |PrunedEntries(entries[..i])| <= |v.members|
      invariant writer.levels == levels + [Level(2 * n, false)] && writer.hasRoot == old(writer.hasRoot)
      invariant writer.os == old(writer.os) + MembersText(v, n)
    {
      PrunedEntry(entries, i);
      if !entries[i].bag.Empty? {
        NextMember(old(writer.os), v, n);
        NameWritable(reg, Pruned(bag), n);
        AcceptString(entries[i].bag.name, writer);
        assert writer.levels == levels + [Level(2 * n + 1, false)];
        WriteContent(reg, entries[i].bag, writer);
        n := n + 1;
      }
    }
    assert entries[..|entries|] == entries;
  }

  lemma NameWritable(reg: Registry, bag: PropertyBag, i: nat)
    requires bag.PropertyBag? && WritableBag(reg, bag) && bag.content.OfTable? && i < |bag.content.entries|
    ensures var e := bag.content.entries[i]; e.bag.PropertyBag? && IsByteString(e.bag.name) && e.bag.name == e.name != []
  {
  }

  /** `propertyBagToJson`, for a bag without a name. */
  method BagToJson(reg: Registry, bag: PropertyBag) returns (text: seq<int>)
    requires bag.PropertyBag? && WritableBag(reg, Pruned(bag)) && bag.name == []
    ensures text == TextOf(ValueOf(reg, Pruned(bag)))
  {
    hide TextOf, WritableBag, ValueOf, Pruned;
    var writer := new Writer();
    WriteContent(reg, bag, writer);
    text := writer.os;
  }

  /** EVERY BAG without a name that is good but for empty bags within, written to JSON text and read back, is the same
      without them, and the error handler is not called; so a good bag comes back as it is. */
  method ThereAndBack(reg: Registry, bag: PropertyBag, flags: JsonDocument.Flags, abort: bool) returns (ok: bool, result: PropertyBag, errors: nat)
    requires Sane(reg) && bag.PropertyBag? && Good(reg, Pruned(bag)) && bag.name == []
    ensures ok && result == Pruned(bag) && errors == 0
    ensures Good(reg, bag) ==> result == bag
  {
    hide Good, BagFrom, TextOf, ValueOf, WritableBag, Pruned, JsonDocument.EnvOf, JsonRoundTrip.Standard;
    if Good(reg, bag) {
      GoodPruned(reg, bag);
    }
    BagBack(reg, Pruned(bag));
    var text := BagToJson(reg, bag);
    ghost var v := ValueOf(reg, Pruned(bag));
    JsonDocument.EnvStandard(text, flags);
    JsonDocument.EnvSource(text, flags);
    JsonRoundTrip.RoundTrip(JsonDocument.EnvOf(text, flags), v, flags.apostrophe);
    var parsed, doc := JsonDocument.ParseDocument(text, flags);
    ok, result, errors := BuildBag(reg, [], doc, abort);
  }

  /** The dialect of a parse without flags. */
  const STRICT := JsonSyntax.Dialect(false, false, false)

  /** `propertyBagFromJson`, on the bytes before the terminator: exactly the JSON texts parse; the conversion reports an
      error exactly when something in the value does not fit the registry; and without errors the bag is the value, but
      for members whose name an earlier one has. */
  method FromJson(reg: Registry, text: seq<int>, abort: bool) returns (parsed: bool, ok: bool, bag: PropertyBag, errors: nat)
    requires IsByteString(text) && 0 !in text
    ensures parsed <==> exists v :: JsonSyntax.IsTextOf(text, v, STRICT)
    ensures forall v :: JsonSyntax.IsTextOf(text, v, STRICT) ==>
              && Valid(v) && (ok <==> !abort || Fits(reg, [], v)) && (ok ==> (errors == 0 <==> Fits(reg, [], v)))
              && (ok && Fits(reg, [], v) ==> bag.PropertyBag? && bag.name == [] && Shown(bag) == FirstNames(v))
  {
    hide JsonSyntax.IsTextOf, JsonDocument.EnvOf, BagFrom, Fits, Shown, FirstNames, Valid;
    var flags := JsonDocument.Flags(false, false, false, false, false);
    assert JsonDocument.DialectOf(flags) == STRICT;
    var doc;
    parsed, doc := JsonDocument.ParseDocument(text, flags);
    ok, bag, errors := false, Empty, 0;
    if parsed {
      JsonRecognition.TextIsValue(text, doc, STRICT);
      ErrorsIff(reg, [], doc);
      if Fits(reg, [], doc) {
        ShownBack(reg, [], doc);
      }
      ok, bag, errors := BuildBag(reg, [], doc, abort);
    }
  }
}
