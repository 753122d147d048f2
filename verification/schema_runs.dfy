/** The verdict of the streaming validator on the events of a value is the recursive meaning of the schema. */
module SchemaRuns {
  import opened JsonEvents
  import opened JsonValues
  import opened Schemas
  import opened SchemaStream
  import opened Wrappers

  /** ---- Runs, of a validator and of all the validators of some contexts ---- */

  ghost function RunAll(vs: seq<Validator>, es: seq<Event>): (r: seq<Validator>)
    ensures |r| == |vs|
  {
    seq(|vs|, i requires 0 <= i < |vs| => Run(vs[i], es))
  }

  ghost function Ran(c: Context, es: seq<Event>): Context {
    c.(validators := RunAll(c.validators, es))
  }

  ghost function RanAll(cs: seq<Context>, es: seq<Event>): (r: seq<Context>)
    ensures |r| == |cs|
  {
    seq(|cs|, i requires 0 <= i < |cs| => Ran(cs[i], es))
  }

  lemma RunNone(v: Validator)
    ensures Run(v, []) == v
  {
  }

  lemma RunPush(v: Validator, es: seq<Event>, e: Event)
    ensures Run(v, es + [e]) == Advance(Run(v, es), e)
  {
    hide Advance;
    assert (es + [e])[..|es|] == es;
  }

  lemma RunOne(v: Validator, e: Event)
    ensures Run(v, [e]) == Advance(v, e)
  {
    hide *;
    RunPush(v, [], e);
    RunNone(v);
    assert [] + [e] == [e];
  }

  lemma {:induction false} RunJoin(v: Validator, a: seq<Event>, b: seq<Event>)
    ensures Run(v, a + b) == Run(Run(v, a), b)
    decreases |b|
  {
    hide *;
    if b == [] {
      assert a + b == a;
      RunNone(Run(v, a));
    } else {
      var c, e := b[..|b| - 1], b[|b| - 1];
      RunJoin(v, a, c);
      RunPush(v, a + c, e);
      RunPush(Run(v, a), c, e);
      assert a + c + [e] == a + b && c + [e] == b;
    }
  }

  lemma {:induction false} FailedStays(es: seq<Event>)
    ensures Run(Failed, es) == Failed
    decreases |es|
  {
    if es != [] {
      FailedStays(es[..|es| - 1]);
    }
  }

  lemma RunAllJoin(vs: seq<Validator>, a: seq<Event>, b: seq<Event>)
    ensures RunAll(RunAll(vs, a), b) == RunAll(vs, a + b)
  {
    hide Run;
    forall i | 0 <= i < |vs|
      ensures RunAll(RunAll(vs, a), b)[i] == RunAll(vs, a + b)[i]
    {
      RunJoin(vs[i], a, b);
    }
  }

  lemma RanJoin(c: Context, a: seq<Event>, b: seq<Event>)
    ensures Ran(Ran(c, a), b) == Ran(c, a + b)
  {
    hide RunAll;
    RunAllJoin(c.validators, a, b);
  }

  lemma RanAllJoin(cs: seq<Context>, a: seq<Event>, b: seq<Event>)
    ensures RanAll(RanAll(cs, a), b) == RanAll(cs, a + b)
  {
    hide Ran;
    forall i | 0 <= i < |cs|
      ensures RanAll(RanAll(cs, a), b)[i] == RanAll(cs, a + b)[i]
    {
      RanJoin(cs[i], a, b);
    }
  }

  lemma RanAllAppend(cs: seq<Context>, c: Context, es: seq<Event>)
    ensures RanAll(cs + [c], es) == RanAll(cs, es) + [Ran(c, es)]
  {
    hide Ran;
  }

  lemma StepAllIs(vs: seq<Validator>, e: Event)
    ensures StepAll(vs, e) == RunAll(vs, [e])
  {
    hide Advance, Run;
    forall i | 0 <= i < |vs|
      ensures StepAll(vs, e)[i] == RunAll(vs, [e])[i]
    {
      RunOne(vs[i], e);
    }
  }

  lemma PassedToIs(c: Context, e: Event)
    ensures PassedTo(c, e) == Ran(c, [e])
  {
    hide StepAll, RunAll;
    StepAllIs(c.validators, e);
  }

  lemma PassedIs(cs: seq<Context>, e: Event)
    ensures Passed(cs, e) == RanAll(cs, [e])
  {
    hide PassedTo, Ran;
    forall i | 0 <= i < |cs|
      ensures Passed(cs, e)[i] == RanAll(cs, [e])[i]
    {
      PassedToIs(cs[i], e);
    }
  }

  /** The validators in parallel with a schema, new. */
  function Subs(s: Schema): (r: seq<Validator>)
    ensures |r| == |Parallel(s)|
  {
    seq(|Parallel(s)|, i requires 0 <= i < |Parallel(s)| => New(Parallel(s)[i]))
  }

  lemma FirstIs(s: Schema, e: Event)
    requires StartsValue(e)
    ensures First(s, e) == Run(New(s), [e])
  {
    hide First, Run;
    RunOne(New(s), e);
  }

  lemma FirstsAre(s: Schema, e: Event)
    requires StartsValue(e)
    ensures Firsts(s, e) == RunAll(Subs(s), [e])
  {
    hide First, Run, Parallel;
    forall i | 0 <= i < |Parallel(s)|
      ensures Firsts(s, e)[i] == RunAll(Subs(s), [e])[i]
    {
      FirstIs(Parallel(s)[i], e);
    }
  }

  /** ---- Where a value starts ---- */

  datatype Pending = NotAllowed | Ready(below: seq<Context>, schema: Schema)

  /** The contexts below the next value, and its schema. */
  function Pend(v: Validator): Pending
    requires v.Running?
  {
    var n := |v.stack|;
    if n == 0 then Ready([], v.root)
    else match BeginElement(v.stack[n - 1])
      case None => NotAllowed
      case Some(c) => if c.valueSchema.None? then NotAllowed else Ready(v.stack[..n - 1] + [c], c.valueSchema.value)
  }

  lemma BeginRan(c: Context, es: seq<Event>)
    ensures BeginElement(Ran(c, es)) == match BeginElement(c) case None => None case Some(b) => Some(Ran(b, es))
  {
    hide RunAll, Typeless;
  }

  lemma StepStart(v: Validator, e: Event)
    requires v.Running? && StartsValue(e)
    ensures Advance(v, e) == match Pend(v)
              case NotAllowed => Failed
              case Ready(below, s) => Entered(v.root, RanAll(below, [e]), s, e, RunAll(Subs(s), [e]))
  {
    hide Ran, Entered, First, Firsts, BeginElement, Subs, RunAll, Run, Passed;
    var n := |v.stack|;
    if n == 0 {
      StepFirst(v, e);
    } else {
      PassedIs(v.stack, e);
      BeginRan(v.stack[n - 1], [e]);
      var b := BeginElement(v.stack[n - 1]);
      if b.Some? {
        SameSchema(b.value, [e]);
        if b.value.valueSchema.Some? {
          FirstsAre(b.value.valueSchema.value, e);
          assert RanAll(v.stack, [e])[..n - 1] == RanAll(v.stack[..n - 1], [e]);
          RanAllAppend(v.stack[..n - 1], b.value, [e]);
        }
      }
    }
  }

  lemma SameSchema(c: Context, es: seq<Event>)
    ensures Ran(c, es).valueSchema == c.valueSchema
  {
  }

  lemma StepFirst(v: Validator, e: Event)
    requires v.Running? && v.stack == [] && StartsValue(e)
    ensures Advance(v, e) == Entered(v.root, RanAll([], [e]), v.root, e, RunAll(Subs(v.root), [e]))
  {
    hide Entered, Firsts, Run, RunAll, Subs;
    FirstsAre(v.root, e);
    assert RanAll([], [e]) == [];
  }

  /** ---- The table of properties ---- */

  lemma {:induction false} UniqueNames(names: seq<seq<int>>)
    ensures forall n :: n in Unique(names) <==> n in names
    ensures forall i, j | 0 <= i < j < |Unique(names)| :: Unique(names)[i] != Unique(names)[j]
    decreases |names|
  {
    if names != [] {
      var front, last := names[..|names| - 1], names[|names| - 1];
      UniqueNames(front);
      assert names == front + [last];
    }
  }

  lemma {:induction false} LookupNames(ps: seq<Property>, name: seq<int>)
    ensures Lookup(ps, name).Some? <==> exists i :: 0 <= i < |ps| && ps[i].name == name
    decreases |ps|
  {
    if ps != [] && ps[0].name != name {
      LookupNames(ps[1..], name);
      forall i | 0 <= i < |ps| && ps[i].name == name
        ensures i > 0 && ps[1..][i - 1].name == name
      {
      }
    }
  }

  lemma NamesAre(s: Schema, name: seq<int>)
    ensures name in Names(s) <==> Lookup(s.properties, name).Some? || name in s.required
  {
    hide Lookup;
    LookupNames(s.properties, name);
    var n := |s.properties|;
    forall i | 0 <= i < n
      ensures Names(s)[i] == s.properties[i].name
    {
    }
    forall i | 0 <= i < |s.required|
      ensures Names(s)[n + i] == s.required[i]
    {
    }
  }

  /** Where a name is found: at its one entry, if it is a property or required. */
  lemma FindIs(s: Schema, name: seq<int>)
    ensures var r := FindFrom(Table(s), name, 0);
            && (r < |Table(s)| <==> Lookup(s.properties, name).Some? || name in s.required)
            && (r < |Table(s)| ==> Table(s)[r] == EntryFor(s, name))
            && (forall i | 0 <= i < |Table(s)| :: Table(s)[i].name == name <==> i == r)
  {
    hide Lookup, Unique, Names;
    UniqueNames(Names(s));
    NamesAre(s, name);
    TableNames(s);
    var r, names := FindFrom(Table(s), name, 0), Unique(Names(s));
    if name in names {
      var i :| 0 <= i < |names| && names[i] == name;
      assert Table(s)[i].name == name;
    }
  }

  lemma TableNames(s: Schema)
    ensures forall i | 0 <= i < |Table(s)| :: Table(s)[i] == EntryFor(s, Unique(Names(s))[i]) && Table(s)[i].name == Unique(Names(s))[i]
  {
    hide Unique, Names, Lookup;
  }

  /** Which entries of the table the first k members of an object have. */
  ghost function Seen(s: Schema, ms: seq<Member>, k: nat): seq<bool>
    requires k <= |ms| && forall i | 0 <= i < |ms| :: ms[i].name.StringValue?
  {
    if s.required == [] then [] else seq(|Table(s)|, i requires 0 <= i < |Table(s)| => Named(ms, k, Table(s)[i].name))
  }

  ghost predicate Named(ms: seq<Member>, k: nat, name: seq<int>)
    requires k <= |ms| && forall i | 0 <= i < |ms| :: ms[i].name.StringValue?
  {
    exists j | 0 <= j < k :: ms[j].name.s == name
  }

  lemma NamedNext(ms: seq<Member>, k: nat, name: seq<int>)
    requires k < |ms| && forall i | 0 <= i < |ms| :: ms[i].name.StringValue?
    ensures Named(ms, k + 1, name) <==> Named(ms, k, name) || ms[k].name.s == name
  {
  }

  lemma SeenStart(s: Schema, ms: seq<Member>, vs: seq<Validator>)
    requires forall i | 0 <= i < |ms| :: ms[i].name.StringValue?
    ensures Opened(s, StartObject, vs).propertyExist == Seen(s, ms, 0)
  {
    hide Table;
  }

  /** `Key` marks the entry of the name. */
  lemma SeenNext(s: Schema, ms: seq<Member>, k: nat)
    requires k < |ms| && forall i | 0 <= i < |ms| :: ms[i].name.StringValue?
    ensures var r, e := FindFrom(Table(s), ms[k].name.s, 0), Seen(s, ms, k);
            Seen(s, ms, k + 1) == if r < |e| then e[r := true] else e
  {
    hide Table, FindFrom, Named;
    FindIs(s, ms[k].name.s);
    var r, e, e' := FindFrom(Table(s), ms[k].name.s, 0), Seen(s, ms, k), Seen(s, ms, k + 1);
    forall i | 0 <= i < |e|
      ensures e'[i] == if i == r then true else e[i]
    {
      NamedNext(ms, k, Table(s)[i].name);
    }
  }

  /** All required entries are marked when every required name is the name of a member. */
  lemma SeenAll(s: Schema, ms: seq<Member>)
    requires forall i | 0 <= i < |ms| :: ms[i].name.StringValue?
    ensures var e := Seen(s, ms, |ms|);
            (s.required != [] ==> forall i | 0 <= i < |Table(s)| && Table(s)[i].required :: i < |e| && e[i])
            <==> forall name | name in s.required :: Named(ms, |ms|, name)
  {
    hide Table, FindFrom, Named;
    TableRequired(s);
    if s.required != [] {
      var e := Seen(s, ms, |ms|);
      forall name | name in s.required
        ensures exists i :: 0 <= i < |Table(s)| && Table(s)[i].name == name && Table(s)[i].required
      {
        FindIs(s, name);
        assert Table(s)[FindFrom(Table(s), name, 0)] == EntryFor(s, name);
      }
    }
  }

  lemma TableRequired(s: Schema)
    ensures forall i | 0 <= i < |Table(s)| :: Table(s)[i].required <==> Table(s)[i].name in s.required
  {
    hide Unique, Names, Lookup;
  }

  /** `Key` follows the rule for members. */
  lemma BeginMemberIs(c: Context, ms: seq<Member>, k: nat)
    requires k < |ms| && forall i | 0 <= i < |ms| :: ms[i].name.StringValue?
    requires c.propertyExist == Seen(c.schema, ms, k)
    ensures BeginMember(c, ms[k].name.s) == match MemberRule(c.schema, ms[k].name.s, false)
              case Never => None
              case Must(t) => Some(c.(valueSchema := Some(t), propertyExist := Seen(c.schema, ms, k + 1)))
  {
    hide Table, FindFrom, Lookup, Seen, Typeless;
    FindIs(c.schema, ms[k].name.s);
    SeenNext(c.schema, ms, k);
    SeenSize(c.schema, ms, k);
  }

  lemma SeenSize(s: Schema, ms: seq<Member>, k: nat)
    requires k < |ms| && forall i | 0 <= i < |ms| :: ms[i].name.StringValue?
    ensures |Seen(s, ms, k)| <= |Table(s)|
    ensures FindFrom(Table(s), ms[k].name.s, 0) >= |Table(s)| ==> Seen(s, ms, k + 1) == Seen(s, ms, k)
  {
    hide Table, FindFrom, Named;
    SeenNext(s, ms, k);
  }

  /** `BeginValue` follows the rule for elements. */
  lemma BeginElementIs(c: Context)
    requires c.inArray
    ensures BeginElement(c) == match ItemRule(c.schema, c.arrayElementIndex, false)
              case Never => None
              case Must(t) => Some(c.(valueSchema := Some(t), arrayElementIndex := c.arrayElementIndex + 1))
  {
    hide Typeless;
  }

  /** ---- The verdicts combined ---- */

  ghost predicate Verdict(s: Schema, i: nat, x: GenericValue)
    requires Valid(x) && i < |Parallel(s)|
  {
    Accepts(Parallel(s)[i], x, false)
  }

  lemma ParallelAt(s: Schema)
    ensures var a, b := |s.allOf|, |s.anyOf|;
            && (forall i | 0 <= i < a :: Parallel(s)[i] == s.allOf[i])
            && (forall i | 0 <= i < b :: Parallel(s)[a + i] == s.anyOf[i])
            && (forall i | 0 <= i < |s.oneOf| :: Parallel(s)[a + b + i] == s.oneOf[i])
            && (s.negated.Some? ==> Parallel(s)[a + b + |s.oneOf|] == s.negated.value)
  {
  }

  ghost predicate Exactly(s: Schema, flags: seq<bool>, x: GenericValue)
    requires Valid(x) && |flags| == |Parallel(s)|
  {
    forall i | 0 <= i < |flags| :: flags[i] <==> Verdict(s, i, x)
  }

  /** Combining verdicts is the meaning of allOf, anyOf, oneOf and not. */
  lemma CombinedIs(s: Schema, flags: seq<bool>, x: GenericValue)
    requires Valid(x) && |flags| == |Parallel(s)| && Exactly(s, flags, x)
    ensures Accepts(s, x, false) <==> Shape(s, x, false) && Combined(s, flags)
  {
    hide Parallel, Shape, Accepts, Exactly, All, Any, One, Single, Valid;
    AcceptsIs(s, x, false);
    ListAt(s, flags, x, s.allOf, 0);
    ListAt(s, flags, x, s.anyOf, |s.allOf|);
    ListAt(s, flags, x, s.oneOf, |s.allOf| + |s.anyOf|);
    NotIs(s, flags, x);
  }

  lemma ListAt(s: Schema, flags: seq<bool>, x: GenericValue, ss: seq<Schema>, at: nat)
    requires Valid(x) && |flags| == |Parallel(s)| && Exactly(s, flags, x)
    requires (ss == s.allOf && at == 0) || (ss == s.anyOf && at == |s.allOf|) || (ss == s.oneOf && at == |s.allOf| + |s.anyOf|)
    ensures All(ss, x, false) <==> false !in flags[at..at + |ss|]
    ensures Any(ss, x, false) <==> (ss != [] ==> true in flags[at..at + |ss|])
    ensures One(ss, x, false) <==> (ss != [] ==> Single(flags[at..at + |ss|]))
  {
    hide Parallel, Accepts, Exactly, All, Any, One, Single, Valid;
    ExactlyList(s, flags, x, ss, at);
    ListIs(ss, flags[at..at + |ss|], x);
  }

  /** The flags of one of the lists of schemas, which starts at an offset. */
  lemma ExactlyList(s: Schema, flags: seq<bool>, x: GenericValue, ss: seq<Schema>, at: nat)
    requires Valid(x) && |flags| == |Parallel(s)| && Exactly(s, flags, x)
    requires (ss == s.allOf && at == 0) || (ss == s.anyOf && at == |s.allOf|) || (ss == s.oneOf && at == |s.allOf| + |s.anyOf|)
    ensures forall i | 0 <= i < |ss| :: flags[at..at + |ss|][i] <==> Accepts(ss[i], x, false)
  {
    hide Parallel, Accepts;
    ParallelAt(s);
    forall i | 0 <= i < |ss|
      ensures flags[at..at + |ss|][i] <==> Accepts(ss[i], x, false)
    {
      assert flags[at + i] <==> Verdict(s, at + i, x);
    }
  }

  lemma ListIs(ss: seq<Schema>, mine: seq<bool>, x: GenericValue)
    requires Valid(x) && |mine| == |ss| && forall i | 0 <= i < |ss| :: mine[i] <==> Accepts(ss[i], x, false)
    ensures All(ss, x, false) <==> false !in mine
    ensures Any(ss, x, false) <==> (ss != [] ==> true in mine)
    ensures One(ss, x, false) <==> (ss != [] ==> Single(mine))
  {
    hide Accepts, Valid;
    SameOne(ss, mine, x);
  }

  lemma SameOne(ss: seq<Schema>, mine: seq<bool>, x: GenericValue)
    requires Valid(x) && |mine| == |ss| && forall i | 0 <= i < |ss| :: mine[i] <==> Accepts(ss[i], x, false)
    ensures One(ss, x, false) <==> (ss != [] ==> Single(mine))
  {
    hide Accepts, Valid;
    if ss != [] && Single(mine) {
      var i :| 0 <= i < |mine| && mine[i] && forall j | 0 <= j < |mine| && j != i :: !mine[j];
      assert Accepts(ss[i], x, false);
    }
    if ss != [] && One(ss, x, false) {
      var i :| 0 <= i < |ss| && Accepts(ss[i], x, false) && forall j | 0 <= j < |ss| && j != i :: !Accepts(ss[j], x, false);
      assert mine[i];
    }
  }

  lemma NotIs(s: Schema, flags: seq<bool>, x: GenericValue)
    requires Valid(x) && |flags| == |Parallel(s)| && Exactly(s, flags, x)
    ensures s.negated.Some? ==> (flags[|s.allOf| + |s.anyOf| + |s.oneOf|] <==> Accepts(s.negated.value, x, false))
  {
    hide Parallel, Accepts;
    ParallelAt(s);
    if s.negated.Some? {
      var c := |s.allOf| + |s.anyOf| + |s.oneOf|;
      assert Verdict(s, c, x) <==> Accepts(Parallel(s)[c], x, false);
    }
  }

  /** ---- Values ---- */

  /** What the events of a value leave: the contexts below it, or a failed validator. */
  ghost function Outcome(root: Schema, below: seq<Context>, s: Schema, x: GenericValue, es: seq<Event>): Validator
    requires Valid(x)
  {
    if Accepts(s, x, false) then Running(root, RanAll(below, es)) else Failed
  }

  /** A context whose validators have seen all of the value. */
  lemma EndsValueIs(c: Context, x: GenericValue, es: seq<Event>)
    requires Valid(x) && c.validators == RunAll(Subs(c.schema), es)
    requires Exactly(c.schema, Verdicts(RunAll(Subs(c.schema), es)), x)
    ensures Accepts(c.schema, x, false) <==> Shape(c.schema, x, false) && EndsValue(c)
  {
    hide Exactly, Accepts, Shape, Combined, Verdicts, Parallel, RunAll, Subs;
    CombinedIs(c.schema, Verdicts(c.validators), x);
  }

  lemma ScalarOpens(s: Schema, x: GenericValue, reread: bool)
    requires Valid(x) && !x.ObjectValue? && !x.ArrayValue?
    ensures |EventsOf(x, reread)| == 1 && EventsOf(x, reread) == [EventsOf(x, reread)[0]] && IsScalar(EventsOf(x, reread)[0])
    ensures Opens(s, EventsOf(x, reread)[0]) <==> Shape(s, x, false)
  {
    hide LengthWithin, CheckInt, CheckUint, Above, Below;
    if x.NumberValue? {
      ChecksCompare(s, Told(x.n, reread));
    }
  }

  lemma ScalarRuns(v: Validator, x: GenericValue, reread: bool, s: Schema)
    requires Valid(x) && !x.ObjectValue? && !x.ArrayValue? && v.Running? && Pend(v).Ready? && s == Pend(v).schema
    requires Exactly(s, Verdicts(RunAll(Subs(s), EventsOf(x, reread))), x)
    ensures Run(v, EventsOf(x, reread)) == Outcome(v.root, Pend(v).below, s, x, EventsOf(x, reread))
  {
    hide Exactly, Accepts, Shape, EndsValue, Verdicts, RunAll, RanAll, Subs, EventsOf, Opens, Pend, Run, Advance, Table;
    ScalarOpens(s, x, reread);
    var e := EventsOf(x, reread)[0];
    RunOne(v, e);
    StepStart(v, e);
    var c := Opened(s, e, RunAll(Subs(s), [e]));
    assert c.schema == s && c.validators == RunAll(Subs(s), [e]);
    EndsValueIs(c, x, [e]);
  }

  /** ---- Objects ---- */

  /** The state after the first k members of an object, all of them accepted; es are the events since its start. */
  ghost predicate InObject(v: Validator, root: Schema, below: seq<Context>, s: Schema, ms: seq<Member>, k: nat, es: seq<Event>)
    requires k <= |ms| && forall i | 0 <= i < |ms| :: ms[i].name.StringValue?
  {
    && v.Running? && v.root == root && |v.stack| == |below| + 1 && v.stack[..|below|] == RanAll(below, es)
    && var c := v.stack[|below|];
       c.schema == s && !c.inArray && c.validators == RunAll(Subs(s), es) && c.propertyExist == Seen(s, ms, k)
  }

  ghost predicate MembersObey(s: Schema, ms: seq<Member>, k: nat)
    requires k <= |ms| && forall i | 0 <= i < |ms| :: ms[i].name.StringValue? && Valid(ms[i].value)
  {
    forall i | 0 <= i < k :: Obeys(MemberRule(s, ms[i].name.s, false), ms[i].value, false)
  }

  lemma MembersObeyNext(s: Schema, ms: seq<Member>, k: nat)
    requires k < |ms| && forall i | 0 <= i < |ms| :: ms[i].name.StringValue? && Valid(ms[i].value)
    ensures MembersObey(s, ms, k + 1) <==> MembersObey(s, ms, k) && Obeys(MemberRule(s, ms[k].name.s, false), ms[k].value, false)
  {
    hide Obeys, MemberRule;
  }

  lemma ObjectStart(v: Validator, s: Schema, ms: seq<Member>)
    requires v.Running? && Pend(v).Ready? && s == Pend(v).schema
    requires forall i | 0 <= i < |ms| :: ms[i].name.StringValue?
    ensures if ObjectType in s.types then InObject(Run(v, [StartObject]), v.root, Pend(v).below, s, ms, 0, [StartObject])
            else Run(v, [StartObject]) == Failed
  {
    hide RunAll, RanAll, Subs, Pend, Run, Advance, Table, Seen;
    RunOne(v, StartObject);
    StepStart(v, StartObject);
    SeenStart(s, ms, RunAll(Subs(s), [StartObject]));
  }

  /** The validators of the contexts of a state, after one more event. */
  lemma StatePassed(stack: seq<Context>, below: seq<Context>, es: seq<Event>, e: Event)
    requires |stack| == |below| + 1 && stack[..|below|] == RanAll(below, es)
    ensures Passed(stack, e) == RanAll(below, es + [e]) + [Ran(stack[|below|], [e])]
  {
    hide RanAll, Ran, Passed;
    PassedIs(stack, e);
    assert stack == stack[..|below|] + [stack[|below|]];
    RanAllAppend(stack[..|below|], stack[|below|], [e]);
    RanAllJoin(below, es, [e]);
  }

  lemma TopPassed(c: Context, s: Schema, es: seq<Event>, e: Event)
    requires c.validators == RunAll(Subs(s), es)
    ensures Ran(c, [e]) == c.(validators := RunAll(Subs(s), es + [e]))
  {
    hide RunAll, Subs;
    RunAllJoin(Subs(s), es, [e]);
  }

  lemma StepKey(v: Validator, name: seq<int>)
    requires v.Running? && v.stack != []
    ensures var n, cs := |v.stack|, Passed(v.stack, Key(name));
            Advance(v, Key(name)) == match BeginMember(cs[n - 1], name)
              case None => Failed
              case Some(c) => Running(v.root, cs[..n - 1] + [c])
  {
    hide Passed, BeginMember;
  }

  lemma StepEnds(v: Validator, k: nat)
    requires v.Running? && v.stack != []
    ensures var n, cs := |v.stack|, Passed(v.stack, EndObject(k));
            Advance(v, EndObject(k)) == if EndsObject(cs[n - 1], k) && EndsValue(cs[n - 1]) then Running(v.root, cs[..n - 1]) else Failed
    ensures var n, cs := |v.stack|, Passed(v.stack, EndArray(k));
            Advance(v, EndArray(k)) == if EndsArray(cs[n - 1], k) && EndsValue(cs[n - 1]) then Running(v.root, cs[..n - 1]) else Failed
  {
    hide Passed, EndsObject, EndsArray, EndsValue;
  }

  /** The key of the next member: the state it leaves, ready for the member's value. */
  ghost predicate AfterKey(v: Validator, root: Schema, below: seq<Context>, s: Schema, ms: seq<Member>, k: nat, es: seq<Event>, t: Schema)
    requires k < |ms| && forall i | 0 <= i < |ms| :: ms[i].name.StringValue?
  {
    InObject(v, root, below, s, ms, k + 1, es) && v.stack[|below|].valueSchema == Some(t)
  }

  lemma KeyStep(v: Validator, root: Schema, below: seq<Context>, s: Schema, ms: seq<Member>, k: nat, es: seq<Event>)
    requires k < |ms| && (forall i | 0 <= i < |ms| :: ms[i].name.StringValue?) && InObject(v, root, below, s, ms, k, es)
    ensures var e := Key(ms[k].name.s);
            match MemberRule(s, ms[k].name.s, false)
            case Never => Run(v, [e]) == Failed
            case Must(t) => AfterKey(Run(v, [e]), root, below, s, ms, k, es + [e], t)
  {
    hide RunAll, RanAll, Subs, Run, Advance, Seen, Passed, BeginMember, MemberRule, Ran;
    var e, c := Key(ms[k].name.s), v.stack[|below|];
    RunOne(v, e);
    StepKey(v, ms[k].name.s);
    StatePassed(v.stack, below, es, e);
    TopPassed(c, s, es, e);
    BeginMemberIs(Ran(c, [e]), ms, k);
  }

  /** A member's value, after its key. */
  lemma AfterKeyPends(v: Validator, root: Schema, below: seq<Context>, s: Schema, ms: seq<Member>, k: nat, es: seq<Event>, t: Schema)
    requires k < |ms| && (forall i | 0 <= i < |ms| :: ms[i].name.StringValue?) && AfterKey(v, root, below, s, ms, k, es, t)
    ensures Pend(v) == Ready(v.stack, t)
  {
    hide RunAll, RanAll, Subs, Seen;
    assert v.stack == v.stack[..|below|] + [v.stack[|below|]];
  }

  lemma AfterValue(v: Validator, root: Schema, below: seq<Context>, s: Schema, ms: seq<Member>, k: nat, es: seq<Event>, t: Schema, more: seq<Event>)
    requires k < |ms| && (forall i | 0 <= i < |ms| :: ms[i].name.StringValue?) && AfterKey(v, root, below, s, ms, k, es, t)
    ensures InObject(Running(root, RanAll(v.stack, more)), root, below, s, ms, k + 1, es + more)
  {
    hide RunAll, RanAll, Subs, Seen;
    assert v.stack == v.stack[..|below|] + [v.stack[|below|]];
    RanAllAppend(v.stack[..|below|], v.stack[|below|], more);
    RanAllJoin(below, es, more);
    RunAllJoin(Subs(s), es, more);
  }

  lemma ObjectEnd(v: Validator, root: Schema, below: seq<Context>, s: Schema, x: GenericValue, es: seq<Event>)
    requires Valid(x) && x.ObjectValue? && ObjectType in s.types && MembersObey(s, x.members, |x.members|)
    requires InObject(v, root, below, s, x.members, |x.members|, es)
    requires Exactly(s, Verdicts(RunAll(Subs(s), es + [EndObject(|x.members|)])), x)
    ensures Run(v, [EndObject(|x.members|)]) == Outcome(root, below, s, x, es + [EndObject(|x.members|)])
  {
    hide RunAll, RanAll, Subs, Run, Advance, Seen, Passed, Ran, EndsObject, EndsValue, Accepts, Shape, MembersObey, Exactly, Verdicts;
    var e, c := EndObject(|x.members|), v.stack[|below|];
    RunOne(v, e);
    StepEnds(v, |x.members|);
    StatePassed(v.stack, below, es, e);
    TopPassed(c, s, es, e);
    EndsValueIs(Ran(c, [e]), x, es + [e]);
    ObjectShape(s, x, Ran(c, [e]));
  }

  /** What `EndObject` checks, after members that obey, is the rest of the shape. */
  lemma ObjectShape(s: Schema, x: GenericValue, c: Context)
    requires Valid(x) && x.ObjectValue? && ObjectType in s.types && MembersObey(s, x.members, |x.members|)
    requires c.schema == s && c.propertyExist == Seen(s, x.members, |x.members|)
    ensures EndsObject(c, |x.members|) <==> Shape(s, x, false)
  {
    hide Seen, Table, Obeys, MemberRule;
    SeenAll(s, x.members);
  }

  lemma ObjectNot(s: Schema, x: GenericValue)
    requires Valid(x) && x.ObjectValue? && !(ObjectType in s.types && MembersObey(s, x.members, |x.members|))
    ensures !Accepts(s, x, false)
  {
    hide Obeys, MemberRule;
  }

  ghost function ObjectPrefix(x: GenericValue, k: nat, reread: bool): seq<Event>
    requires Valid(x) && x.ObjectValue? && k <= |x.members|
  {
    [StartObject] + MemberEvents(x, k, reread)
  }

  lemma ObjectPrefixes(x: GenericValue, k: nat, reread: bool)
    requires Valid(x) && x.ObjectValue? && k <= |x.members|
    ensures ObjectPrefix(x, 0, reread) == [StartObject]
    ensures k < |x.members|
            ==> ObjectPrefix(x, k + 1, reread) == ObjectPrefix(x, k, reread) + [Key(x.members[k].name.s)] + EventsOf(x.members[k].value, reread)
    ensures EventsOf(x, reread) == ObjectPrefix(x, |x.members|, reread) + [EndObject(|x.members|)]
  {
    hide Told;
    if k < |x.members| {
      assert MemberEvents(x, k + 1, reread) == MemberEvents(x, k, reread) + ([Key(x.members[k].name.s)] + EventsOf(x.members[k].value, reread));
    }
  }

  /** ---- Arrays ---- */

  /** The state after the first k elements of an array, all of them accepted. */
  ghost predicate InElements(v: Validator, root: Schema, below: seq<Context>, s: Schema, k: nat, es: seq<Event>)
  {
    && v.Running? && v.root == root && |v.stack| == |below| + 1 && v.stack[..|below|] == RanAll(below, es)
    && var c := v.stack[|below|];
       c.schema == s && c.inArray && c.arrayElementIndex == k && c.validators == RunAll(Subs(s), es)
  }

  ghost predicate ElementsObey(s: Schema, xs: seq<GenericValue>, k: nat)
    requires k <= |xs| && forall i | 0 <= i < |xs| :: Valid(xs[i])
  {
    forall i | 0 <= i < k :: Obeys(ItemRule(s, i, false), xs[i], false)
  }

  lemma ElementsObeyNext(s: Schema, xs: seq<GenericValue>, k: nat)
    requires k < |xs| && forall i | 0 <= i < |xs| :: Valid(xs[i])
    ensures ElementsObey(s, xs, k + 1) <==> ElementsObey(s, xs, k) && Obeys(ItemRule(s, k, false), xs[k], false)
  {
    hide Obeys, ItemRule;
  }

  lemma ArrayStart(v: Validator, s: Schema)
    requires v.Running? && Pend(v).Ready? && s == Pend(v).schema
    ensures if ArrayType in s.types then InElements(Run(v, [StartArray]), v.root, Pend(v).below, s, 0, [StartArray])
            else Run(v, [StartArray]) == Failed
  {
    hide RunAll, RanAll, Subs, Pend, Run, Advance, Table;
    RunOne(v, StartArray);
    StepStart(v, StartArray);
  }

  /** What an element is held to, and the contexts below it. */
  lemma ElementPends(v: Validator, root: Schema, below: seq<Context>, s: Schema, k: nat, es: seq<Event>)
    requires InElements(v, root, below, s, k, es)
    ensures match ItemRule(s, k, false)
            case Never => Pend(v) == NotAllowed
            case Must(t) =>
              && Pend(v).Ready? && Pend(v).schema == t
              && forall more: seq<Event> :: InElements(Running(root, RanAll(Pend(v).below, more)), root, below, s, k + 1, es + more)
  {
    hide RunAll, RanAll, Subs, ItemRule, BeginElement;
    var c := v.stack[|below|];
    BeginElementIs(c);
    var rule := ItemRule(s, k, false);
    if rule.Must? {
      var b := c.(valueSchema := Some(rule.schema), arrayElementIndex := k + 1);
      forall more: seq<Event>
        ensures InElements(Running(root, RanAll(Pend(v).below, more)), root, below, s, k + 1, es + more)
      {
        AfterElement(v.stack[..|below|], b, root, below, s, k, es, more);
      }
    }
  }

  lemma AfterElement(front: seq<Context>, b: Context, root: Schema, below: seq<Context>, s: Schema, k: nat, es: seq<Event>, more: seq<Event>)
    requires front == RanAll(below, es) && b.schema == s && b.inArray && b.arrayElementIndex == k + 1 && b.validators == RunAll(Subs(s), es)
    ensures InElements(Running(root, RanAll(front + [b], more)), root, below, s, k + 1, es + more)
  {
    hide RunAll, RanAll, Subs;
    RanAllAppend(front, b, more);
    RanAllJoin(below, es, more);
    RunAllJoin(Subs(s), es, more);
  }

  lemma ArrayEnd(v: Validator, root: Schema, below: seq<Context>, s: Schema, x: GenericValue, es: seq<Event>)
    requires Valid(x) && x.ArrayValue? && ArrayType in s.types && ElementsObey(s, x.elements, |x.elements|)
    requires InElements(v, root, below, s, |x.elements|, es)
    requires Exactly(s, Verdicts(RunAll(Subs(s), es + [EndArray(|x.elements|)])), x)
    ensures Run(v, [EndArray(|x.elements|)]) == Outcome(root, below, s, x, es + [EndArray(|x.elements|)])
  {
    hide RunAll, RanAll, Subs, Run, Advance, Passed, Ran, EndsArray, EndsValue, Accepts, Shape, ElementsObey, Exactly, Verdicts;
    var e, c := EndArray(|x.elements|), v.stack[|below|];
    RunOne(v, e);
    StepEnds(v, |x.elements|);
    StatePassed(v.stack, below, es, e);
    TopPassed(c, s, es, e);
    EndsValueIs(Ran(c, [e]), x, es + [e]);
    ArrayShape(s, x, Ran(c, [e]));
  }

  lemma ArrayShape(s: Schema, x: GenericValue, c: Context)
    requires Valid(x) && x.ArrayValue? && ArrayType in s.types && ElementsObey(s, x.elements, |x.elements|) && c.schema == s
    ensures EndsArray(c, |x.elements|) <==> Shape(s, x, false)
  {
    hide Obeys, ItemRule;
  }

  lemma ArrayNot(s: Schema, x: GenericValue)
    requires Valid(x) && x.ArrayValue? && !(ArrayType in s.types && ElementsObey(s, x.elements, |x.elements|))
    ensures !Accepts(s, x, false)
  {
    hide Obeys, ItemRule;
  }

  ghost function ArrayPrefix(x: GenericValue, k: nat, reread: bool): seq<Event>
    requires Valid(x) && x.ArrayValue? && k <= |x.elements|
  {
    [StartArray] + ElementEvents(x, k, reread)
  }

  lemma ArrayPrefixes(x: GenericValue, k: nat, reread: bool)
    requires Valid(x) && x.ArrayValue? && k <= |x.elements|
    ensures ArrayPrefix(x, 0, reread) == [StartArray]
    ensures k < |x.elements| ==> ArrayPrefix(x, k + 1, reread) == ArrayPrefix(x, k, reread) + EventsOf(x.elements[k], reread)
    ensures EventsOf(x, reread) == ArrayPrefix(x, |x.elements|, reread) + [EndArray(|x.elements|)]
  {
    hide Told;
    if k < |x.elements| {
      assert ElementEvents(x, k + 1, reread) == ElementEvents(x, k, reread) + EventsOf(x.elements[k], reread);
    }
  }

  /** ---- The theorem ---- */

  /** THE EVENTS OF A VALUE leave a validator running, with only its parallel validators moved on, exactly when the
      schema the value is held to accepts it. */
  lemma {:induction false} ValueRuns(v: Validator, x: GenericValue, reread: bool, s: Schema)
    requires Valid(x) && v.Running? && Pend(v).Ready? && s == Pend(v).schema
    ensures Run(v, EventsOf(x, reread)) == Outcome(v.root, Pend(v).below, s, x, EventsOf(x, reread))
    decreases x, s, 3
  {
    hide *;
    SubsRun(s, x, reread);
    if x.ObjectValue? {
      ObjectRuns(v, x, reread, s);
    } else if x.ArrayValue? {
      ArrayRuns(v, x, reread, s);
    } else {
      ScalarRuns(v, x, reread, s);
    }
  }

  /** New validators of the parallel schemas tell, after the events, whether they accept the value. */
  lemma {:induction false} SubsRun(s: Schema, x: GenericValue, reread: bool)
    requires Valid(x)
    ensures Exactly(s, Verdicts(RunAll(Subs(s), EventsOf(x, reread))), x)
    decreases x, s, 2
  {
    hide Run, Parallel, Accepts, EventsOf, Outcome;
    var es := EventsOf(x, reread);
    forall i | 0 <= i < |Parallel(s)|
      ensures Run(New(Parallel(s)[i]), es).Running? <==> Accepts(Parallel(s)[i], x, false)
    {
      ValueRuns(New(Parallel(s)[i]), x, reread, Parallel(s)[i]);
      OutcomeIs(Parallel(s)[i], [], Parallel(s)[i], x, es);
    }
  }

  lemma OutcomeIs(root: Schema, below: seq<Context>, s: Schema, x: GenericValue, es: seq<Event>)
    requires Valid(x)
    ensures Outcome(root, below, s, x, es).Running? <==> Accepts(s, x, false)
    ensures Accepts(s, x, false) ==> Outcome(root, below, s, x, es) == Running(root, RanAll(below, es))
  {
    hide Accepts, RanAll;
  }

  lemma {:induction false} ObjectRuns(v: Validator, x: GenericValue, reread: bool, s: Schema)
    requires Valid(x) && x.ObjectValue? && v.Running? && Pend(v).Ready? && s == Pend(v).schema
    requires Exactly(s, Verdicts(RunAll(Subs(s), EventsOf(x, reread))), x)
    ensures Run(v, EventsOf(x, reread)) == Outcome(v.root, Pend(v).below, s, x, EventsOf(x, reread))
    decreases x, s, 2
  {
    hide *;
    var n := |x.members|;
    ValidMembers(x);
    ObjectPrefixes(x, n, reread);
    var es := ObjectPrefix(x, n, reread);
    RunJoin(v, es, [EndObject(n)]);
    MembersRun(v, x, reread, s, n);
    if ObjectType in s.types && MembersObey(s, x.members, n) {
      ObjectEnd(Run(v, es), v.root, Pend(v).below, s, x, es);
    } else {
      FailedStays([EndObject(n)]);
      ObjectNot(s, x);
      OutcomeIs(v.root, Pend(v).below, s, x, EventsOf(x, reread));
      NotRunning(Outcome(v.root, Pend(v).below, s, x, EventsOf(x, reread)));
    }
  }

  lemma NotRunning(v: Validator)
    requires !v.Running?
    ensures v == Failed
  {
  }

  lemma ValidMembers(x: GenericValue)
    requires Valid(x)
    ensures x.ObjectValue? ==> forall i | 0 <= i < |x.members| :: x.members[i].name.StringValue? && Valid(x.members[i].value)
    ensures x.ArrayValue? ==> forall i | 0 <= i < |x.elements| :: Valid(x.elements[i])
  {
  }

  lemma {:induction false} MembersRun(v: Validator, x: GenericValue, reread: bool, s: Schema, k: nat)
    requires Valid(x) && x.ObjectValue? && v.Running? && Pend(v).Ready? && s == Pend(v).schema && k <= |x.members|
    requires forall i | 0 <= i < |x.members| :: x.members[i].name.StringValue? && Valid(x.members[i].value)
    ensures if ObjectType in s.types && MembersObey(s, x.members, k)
            then InObject(Run(v, ObjectPrefix(x, k, reread)), v.root, Pend(v).below, s, x.members, k, ObjectPrefix(x, k, reread))
            else Run(v, ObjectPrefix(x, k, reread)) == Failed
    decreases x, s, 1, k
  {
    hide *;
    if k == 0 {
      ObjectPrefixes(x, 0, reread);
      ObjectStart(v, s, x.members);
      NoMembers(s, x.members);
    } else {
      MembersRun(v, x, reread, s, k - 1);
      ObjectPrefixes(x, k - 1, reread);
      MembersObeyNext(s, x.members, k - 1);
      var es, m := ObjectPrefix(x, k - 1, reread), x.members[k - 1];
      RunJoin(v, es, [Key(m.name.s)] + EventsOf(m.value, reread));
      assert es + ([Key(m.name.s)] + EventsOf(m.value, reread)) == es + [Key(m.name.s)] + EventsOf(m.value, reread);
      if ObjectType in s.types && MembersObey(s, x.members, k - 1) {
        MemberRuns(Run(v, es), v.root, Pend(v).below, s, x, reread, k - 1, es);
      } else {
        FailedStays([Key(m.name.s)] + EventsOf(m.value, reread));
      }
    }
  }

  lemma NoMembers(s: Schema, ms: seq<Member>)
    requires forall i | 0 <= i < |ms| :: ms[i].name.StringValue? && Valid(ms[i].value)
    ensures MembersObey(s, ms, 0)
  {
  }

  /** A member: its key and then its value. */
  lemma {:induction false} MemberRuns(v: Validator, root: Schema, below: seq<Context>, s: Schema, x: GenericValue, reread: bool, k: nat, es: seq<Event>)
    requires Valid(x) && x.ObjectValue? && k < |x.members|
    requires forall i | 0 <= i < |x.members| :: x.members[i].name.StringValue? && Valid(x.members[i].value)
    requires InObject(v, root, below, s, x.members, k, es)
    ensures var more := [Key(x.members[k].name.s)] + EventsOf(x.members[k].value, reread);
            if Obeys(MemberRule(s, x.members[k].name.s, false), x.members[k].value, false)
            then InObject(Run(v, more), root, below, s, x.members, k + 1, es + [Key(x.members[k].name.s)] + EventsOf(x.members[k].value, reread))
            else Run(v, more) == Failed
    decreases x, s, 0
  {
    hide *;
    var m := x.members[k];
    var key, body, rule := [Key(m.name.s)], EventsOf(m.value, reread), MemberRule(s, m.name.s, false);
    RunJoin(v, key, body);
    KeyStep(v, root, below, s, x.members, k, es);
    ObeysIs(rule, m.value);
    if rule.Never? {
      FailedStays(body);
    } else {
      var w := Run(v, key);
      AfterKeyPends(w, root, below, s, x.members, k, es + key, rule.schema);
      AfterKeyRuns(w, root, below, s, x.members, k, es + key, rule.schema);
      MemberSmaller(x, k);
      ValueRuns(w, m.value, reread, rule.schema);
      OutcomeIs(root, w.stack, rule.schema, m.value, body);
      if Accepts(rule.schema, m.value, false) {
        AfterValue(w, root, below, s, x.members, k, es + key, rule.schema, body);
      } else {
        NotRunning(Outcome(root, w.stack, rule.schema, m.value, body));
      }
    }
  }

  lemma AfterKeyRuns(v: Validator, root: Schema, below: seq<Context>, s: Schema, ms: seq<Member>, k: nat, es: seq<Event>, t: Schema)
    requires k < |ms| && (forall i | 0 <= i < |ms| :: ms[i].name.StringValue?) && AfterKey(v, root, below, s, ms, k, es, t)
    ensures v.Running? && v.root == root
  {
  }

  lemma MemberSmaller(x: GenericValue, k: nat)
    requires x.ObjectValue? && k < |x.members|
    ensures x.members[k].value < x
  {
  }

  lemma ObeysIs(r: Rule, x: GenericValue)
    requires Valid(x)
    ensures Obeys(r, x, false) <==> r.Must? && Accepts(r.schema, x, false)
  {
    hide Accepts;
  }

  lemma {:induction false} ArrayRuns(v: Validator, x: GenericValue, reread: bool, s: Schema)
    requires Valid(x) && x.ArrayValue? && v.Running? && Pend(v).Ready? && s == Pend(v).schema
    requires Exactly(s, Verdicts(RunAll(Subs(s), EventsOf(x, reread))), x)
    ensures Run(v, EventsOf(x, reread)) == Outcome(v.root, Pend(v).below, s, x, EventsOf(x, reread))
    decreases x, s, 2
  {
    hide *;
    var n := |x.elements|;
    ValidMembers(x);
    ArrayPrefixes(x, n, reread);
    var es := ArrayPrefix(x, n, reread);
    RunJoin(v, es, [EndArray(n)]);
    ElementsRun(v, x, reread, s, n);
    if ArrayType in s.types && ElementsObey(s, x.elements, n) {
      ArrayEnd(Run(v, es), v.root, Pend(v).below, s, x, es);
    } else {
      FailedStays([EndArray(n)]);
      ArrayNot(s, x);
      OutcomeIs(v.root, Pend(v).below, s, x, EventsOf(x, reread));
      NotRunning(Outcome(v.root, Pend(v).below, s, x, EventsOf(x, reread)));
    }
  }

  lemma {:induction false} ElementsRun(v: Validator, x: GenericValue, reread: bool, s: Schema, k: nat)
    requires Valid(x) && x.ArrayValue? && v.Running? && Pend(v).Ready? && s == Pend(v).schema && k <= |x.elements|
    requires forall i | 0 <= i < |x.elements| :: Valid(x.elements[i])
    ensures if ArrayType in s.types && ElementsObey(s, x.elements, k)
            then InElements(Run(v, ArrayPrefix(x, k, reread)), v.root, Pend(v).below, s, k, ArrayPrefix(x, k, reread))
            else Run(v, ArrayPrefix(x, k, reread)) == Failed
    decreases x, s, 1, k
  {
    hide *;
    if k == 0 {
      ArrayPrefixes(x, 0, reread);
      ArrayStart(v, s);
      NoElements(s, x.elements);
    } else {
      ElementsRun(v, x, reread, s, k - 1);
      ArrayPrefixes(x, k - 1, reread);
      ElementsObeyNext(s, x.elements, k - 1);
      var es, body := ArrayPrefix(x, k - 1, reread), EventsOf(x.elements[k - 1], reread);
      RunJoin(v, es, body);
      if ArrayType in s.types && ElementsObey(s, x.elements, k - 1) {
        ElementRuns(Run(v, es), v.root, Pend(v).below, s, x, reread, k - 1, es);
      } else {
        FailedStays(body);
      }
    }
  }

  lemma NoElements(s: Schema, xs: seq<GenericValue>)
    requires forall i | 0 <= i < |xs| :: Valid(xs[i])
    ensures ElementsObey(s, xs, 0)
  {
  }

  lemma {:induction false} ElementRuns(v: Validator, root: Schema, below: seq<Context>, s: Schema, x: GenericValue, reread: bool, k: nat, es: seq<Event>)
    requires Valid(x) && x.ArrayValue? && k < |x.elements| && forall i | 0 <= i < |x.elements| :: Valid(x.elements[i])
    requires InElements(v, root, below, s, k, es)
    ensures var body := EventsOf(x.elements[k], reread);
            if Obeys(ItemRule(s, k, false), x.elements[k], false) then InElements(Run(v, body), root, below, s, k + 1, es + body)
            else Run(v, body) == Failed
    decreases x, s, 0
  {
    hide *;
    var y := x.elements[k];
    var body, rule := EventsOf(y, reread), ItemRule(s, k, false);
    ElementPends(v, root, below, s, k, es);
    ElementState(v, root, below, s, k, es);
    ObeysIs(rule, y);
    if rule.Never? {
      NotAllowedRuns(v, y, reread);
    } else {
      ElementSmaller(x, k);
      ValueRuns(v, y, reread, rule.schema);
      OutcomeIs(root, Pend(v).below, rule.schema, y, body);
      if !Accepts(rule.schema, y, false) {
        NotRunning(Outcome(root, Pend(v).below, rule.schema, y, body));
      }
    }
  }

  lemma ElementState(v: Validator, root: Schema, below: seq<Context>, s: Schema, k: nat, es: seq<Event>)
    requires InElements(v, root, below, s, k, es)
    ensures v.Running? && v.root == root
  {
  }

  lemma ElementSmaller(x: GenericValue, k: nat)
    requires x.ArrayValue? && k < |x.elements|
    ensures x.elements[k] < x
  {
  }

  /** An element that is not allowed fails with its first event. */
  lemma NotAllowedRuns(v: Validator, x: GenericValue, reread: bool)
    requires Valid(x) && v.Running? && Pend(v) == NotAllowed
    ensures Run(v, EventsOf(x, reread)) == Failed
  {
    hide Run, Advance, Pend, EventsOf;
    FirstEvent(x, reread);
    var es := EventsOf(x, reread);
    assert es == [es[0]] + es[1..];
    RunJoin(v, [es[0]], es[1..]);
    RunOne(v, es[0]);
    StepStart(v, es[0]);
    FailedStays(es[1..]);
  }

  lemma FirstEvent(x: GenericValue, reread: bool)
    requires Valid(x)
    ensures EventsOf(x, reread) != [] && StartsValue(EventsOf(x, reread)[0])
  {
    hide Told, MemberEvents, ElementEvents;
  }

  /** A NEW VALIDATOR IS STILL VALID AFTER THE EVENTS OF A VALUE EXACTLY WHEN THE SCHEMA ACCEPTS THE VALUE, and is then
      ready for another. */
  lemma ValidatesExactly(s: Schema, x: GenericValue, reread: bool)
    requires Valid(x)
    ensures Run(New(s), EventsOf(x, reread)) == if Accepts(s, x, false) then New(s) else Failed
  {
    hide Run, EventsOf, Accepts;
    ValueRuns(New(s), x, reread, s);
    assert RanAll([], EventsOf(x, reread)) == [];
  }
}
