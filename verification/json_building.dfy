/** Every parse that succeeds builds exactly one value: the counts that the parser passes with the closing events are
    those of the members and elements on the document's stack. */
module JsonBuilding {
  import opened JsonEvents
  import opened JsonGrammar
  import opened JsonValues

  /** Numbers are scanned as integers in the range of their type. */
  ghost predicate ScansIntegers(env: Env) {
    Forward(env) && forall pos: nat | pos < |env.src| && env.scanNumber(pos).Read? :: IsInteger(env.scanNumber(pos).value)
  }

  /** On any stack, the events leave the values on top. */
  ghost predicate Makes(es: seq<Event>, vs: seq<GenericValue>) {
    forall stack :: HandleAll(stack, es) == Stack(stack + vs)
  }

  lemma MakesNothing()
    ensures Makes([], [])
  {
    forall stack: seq<GenericValue> ensures HandleAll(stack, []) == Stack(stack + []) {
      assert stack + [] == stack;
    }
  }

  lemma MakesJoin(a: seq<Event>, x: seq<GenericValue>, b: seq<Event>, y: seq<GenericValue>)
    requires Makes(a, x) && Makes(b, y)
    ensures Makes(a + b, x + y)
  {
    hide HandleAll;
    forall stack ensures HandleAll(stack, a + b) == Stack(stack + (x + y)) {
      HandleJoin(stack, a, b);
      assert stack + x + y == stack + (x + y);
    }
  }

  lemma MakesOne(e: Event, v: GenericValue)
    requires forall stack :: Handle(stack, e) == Stack(stack + [v])
    ensures Makes([e], [v])
  {
    hide HandleAll, Handle;
    forall stack ensures HandleAll(stack, [e]) == Stack(stack + [v]) {
      HandleOne(stack, e);
    }
  }

  lemma MakesArray(es: seq<Event>, vs: seq<GenericValue>)
    requires Makes(es, vs)
    ensures Makes([StartArray] + es + [EndArray(|vs|)], [ArrayValue(vs)])
  {
    hide HandleAll, Handle;
    forall stack ensures HandleAll(stack, [StartArray] + es + [EndArray(|vs|)]) == Stack(stack + [ArrayValue(vs)]) {
      var inner := stack + [ArrayValue([])];
      assert Handle(stack, StartArray) == Stack(inner) by { Starts(stack); }
      EncloseAny(stack, StartArray, inner, es, inner + vs, EndArray(|vs|));
      EndsArray(stack, inner, vs);
    }
  }

  lemma MakesObject(es: seq<Event>, vs: seq<GenericValue>, n: nat)
    requires Makes(es, vs) && |vs| == 2 * n
    ensures Makes([StartObject] + es + [EndObject(n)], [ObjectValue(Paired(vs))])
  {
    hide HandleAll, Handle, Paired;
    forall stack
      ensures HandleAll(stack, [StartObject] + es + [EndObject(n)]) == Stack(stack + [ObjectValue(Paired(vs))])
    {
      var inner := stack + [ObjectValue([])];
      assert Handle(stack, StartObject) == Stack(inner) by { Starts(stack); }
      EncloseAny(stack, StartObject, inner, es, inner + vs, EndObject(n));
      EndsObject(stack, inner, vs, n);
    }
  }

  lemma Starts(stack: seq<GenericValue>)
    ensures Handle(stack, StartArray) == Stack(stack + [ArrayValue([])])
    ensures Handle(stack, StartObject) == Stack(stack + [ObjectValue([])])
  {
  }

  lemma EndsArray(stack: seq<GenericValue>, inner: seq<GenericValue>, vs: seq<GenericValue>)
    requires inner == stack + [ArrayValue([])]
    ensures Handle(inner + vs, EndArray(|vs|)) == Stack(stack + [ArrayValue(vs)])
  {
    var full := inner + vs;
    assert full[|inner|..] == vs && full[..|stack|] == stack;
  }

  lemma EndsObject(stack: seq<GenericValue>, inner: seq<GenericValue>, vs: seq<GenericValue>, n: nat)
    requires inner == stack + [ObjectValue([])] && |vs| == 2 * n
    ensures Handle(inner + vs, EndObject(n)) == Stack(stack + [ObjectValue(Paired(vs))])
  {
    hide Paired;
    var full := inner + vs;
    assert full[|inner|..] == vs && full[..|stack|] == stack;
  }

  lemma EncloseAny(stack: seq<GenericValue>, open: Event, inner: seq<GenericValue>, es: seq<Event>, full: seq<GenericValue>, close: Event)
    requires Handle(stack, open) == Stack(inner) && HandleAll(inner, es) == Stack(full)
    ensures HandleAll(stack, [open] + es + [close]) == Handle(full, close)
  {
    hide HandleAll, Handle;
    HandleOne(stack, open);
    HandleOne(full, close);
    HandleJoin(stack, [open], es);
    HandleJoin(stack, [open] + es, [close]);
  }

  /** ---- The parser ---- */

  lemma EmitAdds(env: Env, c: Cursor, e: Event, offset: nat)
    requires Emit(env, c, e, offset).Done?
    ensures Emit(env, c, e, offset).at.events == c.events + [e]
  {
  }

  /** Scalars push one value; a name, one string. */
  lemma ScalarBuilds(env: Env, c: Cursor) returns (es: seq<Event>, v: GenericValue)
    requires ScansIntegers(env) && c.pos <= |env.src| && Scalar(env, c).Done?
    ensures Scalar(env, c).at.events == c.events + es && Makes(es, [v])
  {
    hide HandleAll, Makes;
    var e := Scalar(env, c).at.events[|c.events|];
    es := [e];
    assert Scalar(env, c).at.events == c.events + [e];
    v := match e
      case Null => NullValue
      case Bool(b) => BoolValue(b)
      case Num(n) => NumberValue(EventData(n))
      case String(s) => StringValue(s)
      case _ => NullValue;
    MakesOne(e, v);
  }

  lemma TextBuilds(env: Env, c: Cursor) returns (s: seq<int>)
    requires Forward(env) && c.pos < |env.src| && Text(env, c, true).Done?
    ensures Text(env, c, true).at.events == c.events + [Key(s)] && Makes([Key(s)], [StringValue(s)])
  {
    hide HandleAll, Makes;
    s := env.scanString(c.pos).value;
    MakesOne(Key(s), StringValue(s));
  }

  /** A VALUE THAT IS READ IS BUILT: the events since the cursor leave exactly one value on any stack. */
  lemma {:induction false} ValueBuilds(env: Env, c: Cursor) returns (es: seq<Event>, v: GenericValue)
    requires ScansIntegers(env) && c.pos <= |env.src| && Value(env, c).Done?
    ensures Value(env, c).at.events == c.events + es && Makes(es, [v])
    decreases |env.src| - c.pos, 2
  {
    hide Scalar, Object, Array, Makes, ScansIntegers;
    if Peek(env, c) == '{' as int {
      es, v := ObjectBuilds(env, c);
    } else if Peek(env, c) == '[' as int {
      es, v := ArrayBuilds(env, c);
    } else {
      es, v := ScalarBuilds(env, c);
    }
  }

  lemma {:induction false} ArrayBuilds(env: Env, c: Cursor) returns (es: seq<Event>, v: GenericValue)
    requires ScansIntegers(env) && c.pos < |env.src| && Array(env, c).Done?
    ensures Array(env, c).at.events == c.events + es && Makes(es, [v])
    decreases |env.src| - c.pos, 1
  {
    hide Emit, Skip, ArrayBody, Makes;
    EmitAdds(env, Take(env, c), StartArray, c.pos + 1);
    var c1 := Emit(env, Take(env, c), StartArray, c.pos + 1).at;
    var body, vs := ArrayBodyBuilds(env, Skip(env, c1).at);
    es, v := [StartArray] + body + [EndArray(|vs|)], ArrayValue(vs);
    MakesArray(body, vs);
    assert c.events + [StartArray] + (body + [EndArray(|vs|)]) == c.events + es;
  }

  lemma {:induction false} ArrayBodyBuilds(env: Env, c: Cursor) returns (es: seq<Event>, vs: seq<GenericValue>)
    requires ScansIntegers(env) && c.pos <= |env.src| && ArrayBody(env, c).Done?
    ensures ArrayBody(env, c).at.events == c.events + (es + [EndArray(|vs|)]) && Makes(es, vs)
    decreases |env.src| - c.pos, 4
  {
    hide Emit, Elements, Makes;
    if Peek(env, c) == ']' as int {
      EmitAdds(env, Take(env, c), EndArray(0), c.pos + 1);
      MakesNothing();
      es, vs := [], [];
      assert [] + [EndArray(0)] == [EndArray(0)];
    } else {
      es, vs := ElementsBuild(env, c, 0);
    }
  }

  lemma {:induction false} ElementsBuild(env: Env, c: Cursor, n: nat) returns (es: seq<Event>, vs: seq<GenericValue>)
    requires ScansIntegers(env) && c.pos <= |env.src| && Elements(env, c, n).Done?
    ensures Elements(env, c, n).at.events == c.events + (es + [EndArray(n + |vs|)]) && Makes(es, vs)
    decreases |env.src| - c.pos, 3
  {
    hide Skip, AfterElement, Makes, Value;
    var first, v := ValueBuilds(env, c);
    var c2 := Skip(env, Value(env, c).at).at;
    var rest, more := AfterElementBuilds(env, c2, n + 1);
    es, vs := first + rest, [v] + more;
    MakesJoin(first, [v], rest, more);
    assert c.events + first + (rest + [EndArray(n + |vs|)]) == c.events + (es + [EndArray(n + |vs|)]);
  }

  lemma {:induction false} AfterElementBuilds(env: Env, c: Cursor, n: nat) returns (es: seq<Event>, vs: seq<GenericValue>)
    requires ScansIntegers(env) && c.pos <= |env.src| && AfterElement(env, c, n).Done?
    ensures AfterElement(env, c, n).at.events == c.events + (es + [EndArray(n + |vs|)]) && Makes(es, vs)
    decreases |env.src| - c.pos, 3
  {
    hide Skip, Emit, ElementsOrEnd, Makes;
    if Peek(env, c) == ',' as int {
      es, vs := ElementsOrEndBuilds(env, Skip(env, Take(env, c)).at, n);
    } else {
      EmitAdds(env, Take(env, c), EndArray(n), c.pos + 1);
      MakesNothing();
      es, vs := [], [];
      assert [] + [EndArray(n)] == [EndArray(n)];
    }
  }

  lemma {:induction false} ElementsOrEndBuilds(env: Env, c: Cursor, n: nat) returns (es: seq<Event>, vs: seq<GenericValue>)
    requires ScansIntegers(env) && c.pos <= |env.src| && ElementsOrEnd(env, c, n).Done?
    ensures ElementsOrEnd(env, c, n).at.events == c.events + (es + [EndArray(n + |vs|)]) && Makes(es, vs)
    decreases |env.src| - c.pos, 4
  {
    hide Emit, Elements, Makes;
    if env.trailingCommas && Peek(env, c) == ']' as int {
      EmitAdds(env, Take(env, c), EndArray(n), c.pos);
      MakesNothing();
      es, vs := [], [];
      assert [] + [EndArray(n)] == [EndArray(n)];
    } else {
      es, vs := ElementsBuild(env, c, n);
    }
  }

  lemma {:induction false} ObjectBuilds(env: Env, c: Cursor) returns (es: seq<Event>, v: GenericValue)
    requires ScansIntegers(env) && c.pos < |env.src| && Object(env, c).Done?
    ensures Object(env, c).at.events == c.events + es && Makes(es, [v])
    decreases |env.src| - c.pos, 1
  {
    hide Emit, Skip, ObjectBody, Makes, Paired;
    EmitAdds(env, Take(env, c), StartObject, c.pos + 1);
    var c1 := Emit(env, Take(env, c), StartObject, c.pos + 1).at;
    var body, vs, n := ObjectBodyBuilds(env, Skip(env, c1).at);
    es, v := [StartObject] + body + [EndObject(n)], ObjectValue(Paired(vs));
    MakesObject(body, vs, n);
    assert c.events + [StartObject] + (body + [EndObject(n)]) == c.events + es;
  }

  lemma {:induction false} ObjectBodyBuilds(env: Env, c: Cursor) returns (es: seq<Event>, vs: seq<GenericValue>, n: nat)
    requires ScansIntegers(env) && c.pos <= |env.src| && ObjectBody(env, c).Done?
    ensures ObjectBody(env, c).at.events == c.events + (es + [EndObject(n)]) && Makes(es, vs) && |vs| == 2 * n
    decreases |env.src| - c.pos, 4
  {
    hide Emit, Members, Makes;
    if Peek(env, c) == '}' as int {
      EmitAdds(env, Take(env, c), EndObject(0), c.pos + 1);
      MakesNothing();
      es, vs, n := [], [], 0;
      assert [] + [EndObject(0)] == [EndObject(0)];
    } else {
      es, vs, n := MembersBuild(env, c, 0);
    }
  }

  lemma {:induction false} MembersBuild(env: Env, c: Cursor, n: nat) returns (es: seq<Event>, vs: seq<GenericValue>, k: nat)
    requires ScansIntegers(env) && c.pos <= |env.src| && Members(env, c, n).Done?
    ensures Members(env, c, n).at.events == c.events + (es + [EndObject(n + k)]) && Makes(es, vs) && |vs| == 2 * k
    decreases |env.src| - c.pos, 3
  {
    hide Skip, Text, AfterKey, Makes;
    var name := TextBuilds(env, c);
    var c2 := Skip(env, Text(env, c, true).at).at;
    var rest, more, j := AfterKeyBuilds(env, c2, n);
    es, vs, k := [Key(name)] + rest, [StringValue(name)] + more, j;
    MakesJoin([Key(name)], [StringValue(name)], rest, more);
    assert c.events + [Key(name)] + (rest + [EndObject(n + k)]) == c.events + (es + [EndObject(n + k)]);
  }

  /** After a name: a value is due for it. */
  lemma {:induction false} AfterKeyBuilds(env: Env, c: Cursor, n: nat) returns (es: seq<Event>, vs: seq<GenericValue>, k: nat)
    requires ScansIntegers(env) && c.pos <= |env.src| && AfterKey(env, c, n).Done?
    ensures AfterKey(env, c, n).at.events == c.events + (es + [EndObject(n + k)]) && Makes(es, vs) && |vs| + 1 == 2 * k
    decreases |env.src| - c.pos, 3
  {
    hide Skip, AfterColon, Makes;
    es, vs, k := AfterColonBuilds(env, Skip(env, Take(env, c)).at, n);
  }

  lemma {:induction false} AfterColonBuilds(env: Env, c: Cursor, n: nat) returns (es: seq<Event>, vs: seq<GenericValue>, k: nat)
    requires ScansIntegers(env) && c.pos <= |env.src| && AfterColon(env, c, n).Done?
    ensures AfterColon(env, c, n).at.events == c.events + (es + [EndObject(n + k)]) && Makes(es, vs) && |vs| + 1 == 2 * k
    decreases |env.src| - c.pos, 3
  {
    hide Skip, AfterMember, Makes, Value;
    var first, v := ValueBuilds(env, c);
    var c2 := Skip(env, Value(env, c).at).at;
    var rest, more, j := AfterMemberBuilds(env, c2, n + 1);
    es, vs, k := first + rest, [v] + more, j + 1;
    MakesJoin(first, [v], rest, more);
    assert c.events + first + (rest + [EndObject(n + k)]) == c.events + (es + [EndObject(n + k)]);
  }

  lemma {:induction false} AfterMemberBuilds(env: Env, c: Cursor, n: nat) returns (es: seq<Event>, vs: seq<GenericValue>, k: nat)
    requires ScansIntegers(env) && c.pos <= |env.src| && AfterMember(env, c, n).Done?
    ensures AfterMember(env, c, n).at.events == c.events + (es + [EndObject(n + k)]) && Makes(es, vs) && |vs| == 2 * k
    decreases |env.src| - c.pos, 3
  {
    hide Skip, Emit, MembersOrEnd, Makes;
    if Peek(env, c) == ',' as int {
      es, vs, k := MembersOrEndBuilds(env, Skip(env, Take(env, c)).at, n);
    } else {
      EmitAdds(env, Take(env, c), EndObject(n), c.pos + 1);
      MakesNothing();
      es, vs, k := [], [], 0;
      assert [] + [EndObject(n)] == [EndObject(n)];
    }
  }

  lemma {:induction false} MembersOrEndBuilds(env: Env, c: Cursor, n: nat) returns (es: seq<Event>, vs: seq<GenericValue>, k: nat)
    requires ScansIntegers(env) && c.pos <= |env.src| && MembersOrEnd(env, c, n).Done?
    ensures MembersOrEnd(env, c, n).at.events == c.events + (es + [EndObject(n + k)]) && Makes(es, vs) && |vs| == 2 * k
    decreases |env.src| - c.pos, 4
  {
    hide Emit, Members, Makes;
    if env.trailingCommas && Peek(env, c) == '}' as int {
      EmitAdds(env, Take(env, c), EndObject(n), c.pos);
      MakesNothing();
      es, vs, k := [], [], 0;
      assert [] + [EndObject(n)] == [EndObject(n)];
    } else {
      es, vs, k := MembersBuild(env, c, n);
    }
  }

  /** EVERY ACCEPTED TEXT IS ONE VALUE. The events of a parse that succeeds leave exactly one value on the stack. */
  lemma DocumentBuilds(env: Env) returns (v: GenericValue)
    requires ScansIntegers(env) && Document(env).Done?
    ensures HandleAll([], Document(env).at.events) == Stack([v])
  {
    hide Value, Skip, HandleAll;
    var c := Skip(env, Cursor(0, [])).at;
    var es;
    es, v := ValueBuilds(env, c);
    assert [] + es == es && [] + [v] == [v];
    assert Document(env).at.events == es;
    assert HandleAll([], es) == Stack([] + [v]);
  }
}
