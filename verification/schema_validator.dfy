/** GenericSchemaValidator of schema.h: the handler of a parser's events. */
module SchemaValidator {
  import opened JsonEvents
  import opened JsonValues
  import opened Schemas
  import opened SchemaStream
  import opened SchemaRuns
  import opened Wrappers
  import Utf8

  /** ---- Loops of Schema ---- */

  /** One more code point. */
  lemma CodePointsFrom(s: seq<int>, i: nat)
    requires Utf8.IsBytes(s) && i < |s|
    ensures Utf8.IsBytes(s[i..])
    ensures match Utf8.Decode(s[i..])
            case Invalid => CodePoints(s[i..]).None?
            case Valid(_, n) =>
              if n == 0 || n > |s| - i then CodePoints(s[i..]).None?
              else Utf8.IsBytes(s[i + n..]) && CodePoints(s[i..]) == match CodePoints(s[i + n..]) case None => None case Some(k) => Some(k + 1)
  {
    hide Utf8.Decode;
    var d := Utf8.Decode(s[i..]);
    if d.Valid? && d.length <= |s| - i {
      assert s[i..][d.length..] == s[i + d.length..];
    }
  }

  /** The code points of a string, and whether all of it decodes. */
  method CountStringCodePoint(s: seq<int>) returns (ok: bool, count: nat)
    requires Utf8.IsBytes(s)
    ensures ok <==> CodePoints(s).Some?
    ensures ok ==> count == CodePoints(s).value
  {
    hide Utf8.Decode, CodePoints, Utf8.IsBytes;
    var i: nat := 0;
    count := 0;
    assert s[0..] == s;
    while i < |s|
      invariant i <= |s| && Utf8.IsBytes(s[i..])
      invariant CodePoints(s).Some? <==> CodePoints(s[i..]).Some?
      invariant CodePoints(s).Some? ==> CodePoints(s).value == count + CodePoints(s[i..]).value
      decreases |s| - i
    {
      CodePointsFrom(s, i);
      var d := Utf8.Decode(s[i..]);
      if d.Invalid? || d.length == 0 || d.length > |s| - i {
        return false, count;
      }
      count := count + 1;
      i := i + d.length;
    }
    NoCodePoints(s[i..]);
    ok := true;
  }

  lemma NoCodePoints(s: seq<int>)
    requires s == [] && Utf8.IsBytes(s)
    ensures CodePoints(s) == Some(0)
  {
  }

  /** Comparing names one entry after the other. */
  method FindPropertyIndex(t: seq<Entry>, name: seq<int>) returns (found: bool, index: nat)
    ensures index == FindFrom(t, name, 0) && (found <==> index < |t|)
  {
    index := 0;
    while index < |t|
      invariant index <= |t| && FindFrom(t, name, 0) == FindFrom(t, name, index)
    {
      if t[index].name == name {
        return true, index;
      }
      index := index + 1;
    }
    found := false;
  }

  /** The loop over required properties of `EndObject`. */
  method AllExist(t: seq<Entry>, exist: seq<bool>) returns (ok: bool)
    ensures ok <==> forall i | 0 <= i < |t| && t[i].required :: i < |exist| && exist[i]
  {
    ok := true;
    for index := 0 to |t|
      invariant ok <==> forall i | 0 <= i < index && t[i].required :: i < |exist| && exist[i]
    {
      if t[index].required && !(index < |exist| && exist[index]) {
        ok := false;
      }
    }
  }

  /** `Schema::EndValue`: allOf, anyOf, oneOf and not, from the validators. */
  method EndValueOf(c: Context) returns (ok: bool)
    requires |c.validators| == |Parallel(c.schema)|
    ensures ok <==> EndsValue(c)
  {
    var s, n := c.schema, |c.validators|;
    var b0, b1, b2 := |s.allOf|, |s.allOf| + |s.anyOf|, |s.allOf| + |s.anyOf| + |s.oneOf|;
    var v := Verdicts(c.validators);
    hide Verdicts, Parallel, EndsValue, Single;
    EndsValueOf(c);
    if n > 0 {
      for i := 0 to b0
        invariant false !in v[0..i]
      {
        if !v[i] {
          assert v[0..b0][i] == v[i];
          return false;
        }
        assert v[0..i + 1] == v[0..i] + [v[i]];
      }
      if b0 < b1 {
        var found := FindValid(v[b0..b1]);
        if !found {
          return false;
        }
      }
      if b1 < b2 {
        var one := OneValid(v[b1..b2]);
        if !one {
          return false;
        }
      }
      if s.negated.Some? && v[b2] {
        return false;
      }
    }
    ok := true;
  }

  lemma EndsValueOf(c: Context)
    requires |c.validators| == |Parallel(c.schema)|
    ensures EndsValue(c) <==> Combined(c.schema, Verdicts(c.validators))
  {
  }

  method FindValid(v: seq<bool>) returns (found: bool)
    ensures found <==> true in v
  {
    for i := 0 to |v|
      invariant true !in v[..i]
    {
      if v[i] {
        return true;
      }
      assert v[..i + 1] == v[..i] + [v[i]];
    }
    assert v[..|v|] == v;
    found := false;
  }

  /** One match and no second one. */
  method OneValid(v: seq<bool>) returns (ok: bool)
    ensures ok <==> Single(v)
  {
    var oneValid, firstMatch: nat := false, 0;
    for i := 0 to |v|
      invariant oneValid ==> firstMatch < i && v[firstMatch]
      invariant forall j | 0 <= j < i && v[j] :: oneValid && j == firstMatch
    {
      if v[i] {
        if oneValid {
          return false;
        }
        oneValid, firstMatch := true, i;
      }
    }
    ok := oneValid;
  }

  /** A new validator for each schema in parallel, list by list. */
  method CreateParallelValidator(s: Schema) returns (vs: seq<Validator>)
    ensures vs == Subs(s)
  {
    vs := [];
    ghost var all := s.allOf + s.anyOf + s.oneOf;
    for i := 0 to |s.allOf|
      invariant |vs| == i && forall k | 0 <= k < |vs| :: vs[k] == New(all[k])
    {
      vs := vs + [New(s.allOf[i])];
    }
    for i := 0 to |s.anyOf|
      invariant |vs| == |s.allOf| + i && forall k | 0 <= k < |vs| :: vs[k] == New(all[k])
    {
      vs := vs + [New(s.anyOf[i])];
    }
    for i := 0 to |s.oneOf|
      invariant |vs| == |s.allOf| + |s.anyOf| + i && forall k | 0 <= k < |vs| :: vs[k] == New(all[k])
    {
      vs := vs + [New(s.oneOf[i])];
    }
    if s.negated.Some? {
      vs := vs + [New(s.negated.value)];
    }
    assert forall k | 0 <= k < |all| :: Parallel(s)[k] == all[k];
  }

  /** The event passed to one context's validators. */
  method PassTo(c: Context, e: Event) returns (r: Context)
    ensures r == PassedTo(c, e)
  {
    var vs := c.validators;
    for i := 0 to |vs|
      invariant |vs| == |c.validators|
      invariant forall k | 0 <= k < i :: vs[k] == Advance(c.validators[k], e)
      invariant forall k | i <= k < |vs| :: vs[k] == c.validators[k]
    {
      vs := vs[i := Advance(vs[i], e)];
    }
    assert vs == StepAll(c.validators, e);
    r := c.(validators := vs);
  }

  /** As many validators as parallel schemas, in every context. */
  predicate Sound(stack: seq<Context>) {
    forall i | 0 <= i < |stack| :: |stack[i].validators| == |Parallel(stack[i].schema)|
  }

  lemma PassedSound(stack: seq<Context>, e: Event)
    requires Sound(stack)
    ensures Sound(Passed(stack, e))
  {
    hide Parallel, StepAll;
    forall i | 0 <= i < |stack|
      ensures Passed(stack, e)[i].schema == stack[i].schema && |Passed(stack, e)[i].validators| == |stack[i].validators|
    {
      assert Passed(stack, e)[i] == PassedTo(stack[i], e);
    }
  }

  /** A context as `PushSchema` makes it. */
  function Pushed(s: Schema): Context {
    Context(s, false, 0, None, [], [])
  }

  class GenericSchemaValidator {
    const root: Schema
    var schemaStack: seq<Context>
    var valid: bool

    /** What the events so far have come to. */
    function State(): Validator
      reads this
    {
      if valid then Running(root, schemaStack) else Failed
    }

    constructor (root: Schema)
      ensures State() == New(root) && Sound(schemaStack) && this.root == root
    {
      this.root := root;
      schemaStack := [];
      valid := true;
    }

    method PushSchema(s: Schema)
      modifies this`schemaStack
      ensures schemaStack == old(schemaStack) + [Pushed(s)]
    {
      schemaStack := schemaStack + [Pushed(s)];
    }

    /** `BeginValue`: where the code asserts that a member's schema is known, it is refused here. */
    method BeginValue() returns (ok: bool)
      modifies this`schemaStack
      ensures match Pend(Running(root, old(schemaStack)))
              case NotAllowed => !ok
              case Ready(below, s) => ok && schemaStack == below + [Pushed(s)]
    {
      hide BeginElement;
      var n := |schemaStack|;
      if n == 0 {
        PushSchema(root);
      } else {
        var begun := BeginElement(schemaStack[n - 1]);
        if begun.None? || begun.value.valueSchema.None? {
          return false;
        }
        schemaStack := schemaStack[..n - 1] + [begun.value];
        PushSchema(begun.value.valueSchema.value);
      }
      ok := true;
    }

    /** The check of the current schema, and its parallel validators. */
    method OpenTop(e: Event, ghost below: seq<Context>, s: Schema) returns (ok: bool)
      requires schemaStack == below + [Pushed(s)]
      modifies this`schemaStack
      ensures ok <==> Opens(s, e)
      ensures ok ==> schemaStack == below + [Opened(s, e, Subs(s))]
    {
      hide Opens, Table, Subs, Parallel;
      var n := |schemaStack|;
      ok := Opens(s, e);
      if ok {
        var vs := CreateParallelValidator(s);
        var exist: seq<bool> := [];
        if e.StartObject? && s.required != [] {
          exist := seq(|Table(s)|, i => false);
        }
        var top := schemaStack[n - 1];
        schemaStack := schemaStack[..n - 1] + [top.(inArray := e.StartArray?, validators := vs, propertyExist := exist)];
      }
    }

    /** The loops over contexts and their validators. */
    method HandleParallel(e: Event)
      modifies this`schemaStack
      ensures schemaStack == Passed(old(schemaStack), e)
    {
      hide PassedTo;
      for k := 0 to |schemaStack|
        invariant |schemaStack| == |old(schemaStack)|
        invariant forall i | 0 <= i < k :: schemaStack[i] == PassedTo(old(schemaStack)[i], e)
        invariant forall i | k <= i < |schemaStack| :: schemaStack[i] == old(schemaStack)[i]
      {
        var c := PassTo(schemaStack[k], e);
        schemaStack := schemaStack[k := c];
      }
    }

    /** `EndValue` of the validator: the schema's, and the context goes. */
    method EndValue() returns (ok: bool)
      requires schemaStack != [] && Sound(schemaStack)
      modifies this`schemaStack
      ensures ok <==> EndsValue(old(schemaStack)[|old(schemaStack)| - 1])
      ensures ok ==> schemaStack == old(schemaStack)[..|old(schemaStack)| - 1]
    {
      hide EndsValue, Parallel;
      var n := |schemaStack|;
      ok := EndValueOf(schemaStack[n - 1]);
      if ok {
        schemaStack := schemaStack[..n - 1];
      }
    }

    /** Null, Bool, the integers, String, StartObject and StartArray. */
    method Value(e: Event) returns (ok: bool)
      requires StartsValue(e) && (valid ==> Sound(schemaStack))
      modifies this
      ensures State() == Advance(old(State()), e) && ok == valid && (valid ==> Sound(schemaStack))
    {
      hide Advance, Pend, Entered, Opens, EndsValue, Opened, Passed, RanAll, RunAll, Subs, Sound, Pushed, IsScalar, StartsValue;
      ghost var was := State();
      if !valid {
        StepFailed(e);
        return false;
      }
      StepStart(was, e);
      var begun := BeginValue();
      if !begun {
        valid := false;
        return false;
      }
      ghost var below, s := Pend(was).below, Pend(was).schema;
      PendSound(was);
      Enters(root, below, s, e);
      PushedSchema(s);
      var checked := OpenTop(e, below, schemaStack[|schemaStack| - 1].schema);
      if !checked {
        valid := false;
        return false;
      }
      HandleParallel(e);
      if IsScalar(e) {
        var ended := EndValue();
        valid := ended;
      }
      ok := valid;
    }

    /** `Key`, of the validator and of the schema. Here and in the next two, an event outside of any value, on which the
        code would read an empty stack, is refused. */
    method Key(name: seq<int>) returns (ok: bool)
      requires valid ==> Sound(schemaStack)
      modifies this
      ensures State() == Advance(old(State()), JsonEvents.Key(name)) && ok == valid && (valid ==> Sound(schemaStack))
    {
      hide Advance, BeginMember, Passed, Sound, Table;
      ghost var was := State();
      if !valid {
        StepFailed(JsonEvents.Key(name));
        return false;
      }
      if schemaStack == [] {
        StepNowhere(was, JsonEvents.Key(name));
        valid := false;
        return false;
      }
      StepKey(was, name);
      var n, top := |schemaStack|, schemaStack[|schemaStack| - 1];
      KeyPassed(schemaStack, name);
      var next := KeyOf(top, name);
      if next.None? {
        valid := false;
        return false;
      }
      schemaStack := schemaStack[..n - 1] + [next.value];
      HandleParallel(JsonEvents.Key(name));
      ok := true;
    }

    method EndObject(memberCount: nat) returns (ok: bool)
      requires valid ==> Sound(schemaStack)
      modifies this
      ensures State() == Advance(old(State()), JsonEvents.EndObject(memberCount)) && ok == valid && (valid ==> Sound(schemaStack))
    {
      hide Advance, EndsValue, EndsObject, Passed, Sound;
      ghost var was, e := State(), JsonEvents.EndObject(memberCount);
      if !valid {
        StepFailed(e);
        return false;
      }
      if schemaStack == [] {
        StepNowhere(was, e);
        valid := false;
        return false;
      }
      StepEnds(was, memberCount);
      PassedSound(schemaStack, e);
      HandleParallel(JsonEvents.EndObject(memberCount));
      SoundFront(schemaStack);
      var checked := EndObjectOf(schemaStack[|schemaStack| - 1], memberCount);
      if !checked {
        valid := false;
        return false;
      }
      ok := EndValue();
      valid := ok;
    }

    method EndArray(elementCount: nat) returns (ok: bool)
      requires valid ==> Sound(schemaStack)
      modifies this
      ensures State() == Advance(old(State()), JsonEvents.EndArray(elementCount)) && ok == valid && (valid ==> Sound(schemaStack))
    {
      hide Advance, EndsValue, EndsArray, Passed, Sound;
      ghost var was, e := State(), JsonEvents.EndArray(elementCount);
      if !valid {
        StepFailed(e);
        return false;
      }
      if schemaStack == [] {
        StepNowhere(was, e);
        valid := false;
        return false;
      }
      StepEnds(was, elementCount);
      PassedSound(schemaStack, e);
      HandleParallel(JsonEvents.EndArray(elementCount));
      SoundFront(schemaStack);
      if !EndsArray(schemaStack[|schemaStack| - 1], elementCount) {
        valid := false;
        return false;
      }
      ok := EndValue();
      valid := ok;
    }

    /** The handler method of an event. */
    method Handle(e: Event) returns (ok: bool)
      requires valid ==> Sound(schemaStack)
      modifies this
      ensures State() == Advance(old(State()), e) && ok == valid && (valid ==> Sound(schemaStack))
    {
      hide Advance, Sound;
      match e
      case Key(name) => ok := Key(name);
      case EndObject(n) => ok := EndObject(n);
      case EndArray(n) => ok := EndArray(n);
      case _ => ok := Value(e);
    }
  }

  /** `Schema::Key`: finding the property, and marking it when required ones are to be found. */
  method KeyOf(c: Context, name: seq<int>) returns (r: Maybe<Context>)
    ensures r == BeginMember(c, name)
  {
    hide Table, Typeless;
    var t := Table(c.schema);
    var found, index := FindPropertyIndex(t, name);
    if found {
      r := Some(c.(valueSchema := Some(t[index].schema)));
      if index < |c.propertyExist| {
        r := Some(r.value.(propertyExist := c.propertyExist[index := true]));
      }
    } else {
      match c.schema.additionalProperties
      case Every(s) => r := Some(c.(valueSchema := Some(s)));
      case Allowed => r := Some(c.(valueSchema := Some(Typeless())));
      case Forbidden => r := None;
    }
  }

  /** `Schema::EndObject` */
  method EndObjectOf(c: Context, memberCount: nat) returns (ok: bool)
    ensures ok <==> EndsObject(c, memberCount)
  {
    hide Table;
    if c.schema.required != [] {
      var all := AllExist(Table(c.schema), c.propertyExist);
      if !all {
        return false;
      }
    }
    if memberCount < c.schema.minProperties {
      return false;
    }
    ok := !(memberCount > c.schema.maxProperties);
  }

  /** Moving the parallel validators on and beginning a member can be done in either order. */
  lemma KeyPassed(stack: seq<Context>, name: seq<int>)
    requires stack != [] && Sound(stack)
    ensures var n, e := |stack|, JsonEvents.Key(name);
            match BeginMember(stack[n - 1], name)
            case None => BeginMember(Passed(stack, e)[n - 1], name).None?
            case Some(c) =>
              && BeginMember(Passed(stack, e)[n - 1], name).Some? && Sound(Passed(stack[..n - 1] + [c], e))
              && Passed(stack[..n - 1] + [c], e) == Passed(stack, e)[..n - 1] + [BeginMember(Passed(stack, e)[n - 1], name).value]
  {
    hide PassedTo, BeginMember, Parallel, Sound;
    var n, e := |stack|, JsonEvents.Key(name);
    assert Passed(stack, e)[n - 1] == PassedTo(stack[n - 1], e);
    MemberPassed(stack[n - 1], name, e);
    if BeginMember(stack[n - 1], name).Some? {
      var c := BeginMember(stack[n - 1], name).value;
      ReplacedSound(stack, c, name);
      PassedSound(stack[..n - 1] + [c], e);
    }
  }

  lemma MemberPassed(c: Context, name: seq<int>, e: Event)
    ensures match BeginMember(c, name)
            case None => BeginMember(PassedTo(c, e), name).None?
            case Some(b) => BeginMember(PassedTo(c, e), name) == Some(PassedTo(b, e))
  {
    hide StepAll, Table, FindFrom, Typeless;
  }

  lemma ReplacedSound(stack: seq<Context>, c: Context, name: seq<int>)
    requires stack != [] && Sound(stack) && BeginMember(stack[|stack| - 1], name) == Some(c)
    ensures Sound(stack[..|stack| - 1] + [c])
  {
    hide Parallel, Table, FindFrom, Typeless;
  }

  lemma SoundFront(stack: seq<Context>)
    requires stack != [] && Sound(stack)
    ensures Sound(stack[..|stack| - 1])
  {
    hide Parallel;
  }

  lemma StepFailed(e: Event)
    ensures Advance(Failed, e) == Failed
  {
  }

  lemma StepNowhere(v: Validator, e: Event)
    requires v.Running? && v.stack == [] && !StartsValue(e)
    ensures Advance(v, e) == Failed
  {
  }

  lemma PushedSchema(s: Schema)
    ensures Pushed(s).schema == s
  {
  }

  lemma PendSound(v: Validator)
    requires v.Running? && Sound(v.stack)
    ensures Pend(v).Ready? ==> Sound(Pend(v).below)
  {
    hide Parallel, Typeless;
  }

  /** What entering a value comes to, with new validators that then see the event. */
  lemma Enters(root: Schema, below: seq<Context>, s: Schema, e: Event)
    requires StartsValue(e) && Sound(below)
    ensures var cs := Passed(below + [Opened(s, e, Subs(s))], e);
            && |cs| == |below| + 1 && Sound(cs) && Sound(cs[..|below|])
            && Entered(root, RanAll(below, [e]), s, e, RunAll(Subs(s), [e]))
               == if !Opens(s, e) then Failed
                  else if !IsScalar(e) then Running(root, cs)
                  else if EndsValue(cs[|below|]) then Running(root, cs[..|below|])
                  else Failed
  {
    hide RanAll, RunAll, Subs, Opens, EndsValue, Passed, Parallel, IsScalar;
    var c := Opened(s, e, Subs(s));
    PassedIs(below + [c], e);
    RanAllAppend(below, c, [e]);
    OpenedRan(s, e);
    PassedSound(below + [c], e);
    OpenedSound(s, e);
  }

  lemma OpenedRan(s: Schema, e: Event)
    ensures Ran(Opened(s, e, Subs(s)), [e]) == Opened(s, e, RunAll(Subs(s), [e]))
  {
    hide RunAll, Subs, Table;
  }

  lemma OpenedSound(s: Schema, e: Event)
    ensures |Opened(s, e, Subs(s)).validators| == |Parallel(s)| && Opened(s, e, Subs(s)).schema == s
  {
    hide Table, Parallel;
  }

  /** THE STREAMING VALIDATOR, told the events of a value one after the other, ends valid exactly when the schema
      accepts the value; for a regular schema, exactly when the standard does. */
  method Validate(s: Schema, v: GenericValue, reread: bool) returns (ok: bool)
    requires Valid(v)
    ensures ok <==> Accepts(s, v, false)
    ensures Regular(s) ==> (ok <==> Accepts(s, v, true))
  {
    hide Advance, Run, EventsOf, Accepts, Regular, Sound;
    var es := EventsOf(v, reread);
    var validator := new GenericSchemaValidator(s);
    RunNone(New(s));
    ValidatesExactly(s, v, reread);
    if Regular(s) {
      RegularAgrees(s, v);
    }
    assert es[..0] == [];
    for i := 0 to |es|
      invariant validator.State() == Run(New(s), es[..i])
      invariant validator.valid ==> Sound(validator.schemaStack)
    {
      RunPush(New(s), es[..i], es[i]);
      assert es[..i + 1] == es[..i] + [es[i]];
      var more := validator.Handle(es[i]);
    }
    assert es[..|es|] == es;
    ok := validator.valid;
  }
}
